/**
 * The upload rules of the server: the multer file filter that every upload
 * route shares, and the check the PDF tools run on the file they receive.
 */
module Uploads {
  import opened JsText
  import opened NodePath

  const WordTypes: seq<string> := [".doc", ".docx"]
  const ImageTypes: seq<string> := [".jpg", ".jpeg", ".png", ".bmp", ".webp", ".svg"]

  const ConvertWordRoute: string := "/api/convert-word"
  const ConvertImageRoute: string := "/api/convert-image"
  const MergeRoute: string := "/api/merge-pdfs"
  const SplitRoute: string := "/api/split-pdf"
  const WatermarkRoute: string := "/api/add-watermark"
  const ProtectRoute: string := "/api/protect-pdf"

  /** What the filter tells multer: take the file, or fail the request with a message. */
  datatype Verdict = Accept | Reject(message: string)

  /** path.extname(name).toLowerCase(): the extension the server judges an upload by. */
  function UploadExt(name: string): (ext: string)
    ensures ext == [] || ext[0] == '.'
  {
    ToLower(ExtName(name))
  }

  /** Array.prototype.join. */
  function JoinWith(xs: seq<string>, sep: string): string
  {
    if xs == [] then "" else if |xs| == 1 then xs[0] else xs[0] + sep + JoinWith(xs[1..], sep)
  }

  function RejectMessage(url: string, ext: string): string
  {
    "Invalid file type: " + ext
      + (". Allowed types for this conversion: " + JoinWith(if Contains(url, "word") then WordTypes else ImageTypes, ", "))
  }

  /**
   * The file filter: an upload is taken when the request URL holds the Word
   * conversion route and the extension is a Word type, or holds the image
   * conversion route and the extension is an image type; every other upload
   * fails the request with a message naming the extension.
   */
  function FileFilter(url: string, name: string): (v: Verdict)
    ensures v.Accept? <==>
              || (Contains(url, ConvertWordRoute) && UploadExt(name) in WordTypes)
              || (Contains(url, ConvertImageRoute) && UploadExt(name) in ImageTypes)
    ensures v.Accept? ==> UploadExt(name) in WordTypes + ImageTypes
    ensures v.Reject? ==> StartsWith(v.message, "Invalid file type: " + UploadExt(name) + ".")
  {
    var ext := UploadExt(name);
    if Contains(url, ConvertWordRoute) && ext in WordTypes then Accept
    else if Contains(url, ConvertImageRoute) && ext in ImageTypes then Accept
    else
      RejectMessageStarts(url, ext);
      Reject(RejectMessage(url, ext))
  }

  lemma RejectMessageStarts(url: string, ext: string)
    ensures StartsWith(RejectMessage(url, ext), "Invalid file type: " + ext + ".")
  {
    var tail := ". Allowed types for this conversion: "
      + JoinWith(if Contains(url, "word") then WordTypes else ImageTypes, ", ");
    assert tail[0] == '.';
    PrefixThenDot("Invalid file type: " + ext, tail);
  }

  lemma PrefixThenDot(head: string, tail: string)
    requires tail != [] && tail[0] == '.'
    ensures StartsWith(head + tail, head + ".")
  {
    assert (head + tail)[..|head| + 1] == head + ".";
  }

  /** Each conversion route takes its own types, whatever else the URL holds. */
  lemma RouteAccepts(url: string, name: string)
    ensures Contains(url, ConvertImageRoute) && UploadExt(name) in ImageTypes ==> FileFilter(url, name).Accept?
    ensures Contains(url, ConvertWordRoute) && UploadExt(name) in WordTypes ==> FileFilter(url, name).Accept?
  {
  }

  /**
   * `sub` does not occur in `s` when no place where its `j`-th character could
   * fall holds that character.
   */
  lemma {:induction false} NotContainedByOffset(s: string, sub: string, j: nat)
    requires j < |sub|
    requires forall i :: j <= i < |s| - |sub| + j + 1 ==> s[i] != sub[j]
    ensures !Contains(s, sub)
    decreases |s|
  {
    if |s| < |sub| {
      ShorterNotContains(s, sub);
    } else {
      assert s[..|sub|][j] == s[j];
      forall i | j <= i < |s[1..]| - |sub| + j + 1 ensures s[1..][i] != sub[j] {
        assert s[1..][i] == s[i + 1];
      }
      NotContainedByOffset(s[1..], sub, j);
    }
  }

  /** The server's extension of "stem.ext", for a stem without '/'. */
  lemma UploadExtOf(stem: string, ext: string)
    requires '/' !in stem && '/' !in ext && '.' !in ext && stem != [] && ext != []
    ensures UploadExt(stem + "." + ext) == ToLower("." + ext)
  {
    ExtNameOf(stem, ext);
  }

  /** A short text without 'c' at 5 or 6 holds neither conversion route. */
  lemma NotConversion(s: string)
    requires 7 <= |s| <= 18 && s[5] != 'c' && s[6] != 'c'
    ensures !Contains(s, ConvertWordRoute) && !Contains(s, ConvertImageRoute)
  {
    assert ConvertWordRoute[5] == 'c' && ConvertImageRoute[5] == 'c';
    NotContainedByOffset(s, ConvertWordRoute, 5);
    NotContainedByOffset(s, ConvertImageRoute, 5);
  }

  /** None of the four PDF tool routes holds either conversion route. */
  lemma PdfRoutesAreNotConversions(route: string)
    requires route in {MergeRoute, SplitRoute, WatermarkRoute, ProtectRoute}
    ensures !Contains(route, ConvertWordRoute) && !Contains(route, ConvertImageRoute)
  {
    NotConversion(route);
  }

  /**
   * The merge, split, watermark and protect routes share the filter, which
   * knows only the two conversion routes: it turns down every upload on them,
   * PDF files included.
   */
  lemma PdfRoutesRejectEverything(route: string, name: string)
    requires route in {MergeRoute, SplitRoute, WatermarkRoute, ProtectRoute}
    ensures FileFilter(route, name).Reject?
  {
    PdfRoutesAreNotConversions(route);
  }

  lemma MergeNotWord()
    ensures !Contains(MergeRoute, "word")
  {
    NotContainedByOffset(MergeRoute, "word", 0);
  }

  /** What a PDF file sent to the merge route gets back: the message lists the image types. */
  lemma MergeRejectsPdf(name: string)
    requires UploadExt(name) == ".pdf"
    ensures FileFilter(MergeRoute, name)
         == Reject("Invalid file type: " + ".pdf"
                   + (". Allowed types for this conversion: " + JoinWith(ImageTypes, ", ")))
  {
    MergeNotWord();
    PdfRoutesAreNotConversions(MergeRoute);
  }

  /** "stem.ext" with ext lower-cased, for an extension without '/' or '.'. */
  lemma ToLowerDotted(ext: string)
    requires '/' !in ext && '.' !in ext
    ensures ToLower("." + ext) == "." + ToLower(ext)
    ensures '/' !in ToLower(ext) && '.' !in ToLower(ext) && |ToLower(ext)| == |ext|
  {
    assert forall i :: 0 <= i < |ext| ==> ToLower(ext)[i] == LowerChar(ext[i]);
  }

  /** The filter judges an extension whatever its letter case. */
  lemma ExtensionCaseIgnored(url: string, stem: string, ext: string)
    requires '/' !in stem && stem != [] && '/' !in ext && '.' !in ext && ext != []
    ensures FileFilter(url, stem + "." + ext) == FileFilter(url, stem + "." + ToLower(ext))
  {
    ToLowerDotted(ext);
    UploadExtOf(stem, ext);
    UploadExtOf(stem, ToLower(ext));
    ToLowerDotted(ToLower(ext));
    ToLowerIdempotent(ext);
  }

  /** A name that is only a dot and an extension has no extension, so it is turned down. */
  lemma DotNameRejected()
    ensures FileFilter(ConvertImageRoute, ".png").Reject?
  {
    assert LastIndexOf(".png", '.') == 0;
    assert BaseName(".png") == ".png" by {
      BaseNameAppend("", ".png");
    }
    assert UploadExt(".png") == "";
  }

  // ---------------------------------------------------------------------
  // The filter as evidently intended, and the PDF tools' own check

  predicate IsPdfRoute(url: string)
  {
    Contains(url, MergeRoute) || Contains(url, SplitRoute) || Contains(url, WatermarkRoute) || Contains(url, ProtectRoute)
  }

  /**
   * The filter with the PDF tool routes added: a ".pdf" upload to them is
   * taken; the conversion routes are judged as before.
   */
  function FileFilterIntended(url: string, name: string): (v: Verdict)
    ensures v.Accept? <==> FileFilter(url, name).Accept? || (IsPdfRoute(url) && UploadExt(name) == ".pdf")
  {
    var ext := UploadExt(name);
    if FileFilter(url, name).Accept? then Accept
    else if IsPdfRoute(url) && ext == ".pdf" then Accept
    else FileFilter(url, name)
  }

  lemma PdfRouteIsPdfRoute(route: string)
    requires route in {MergeRoute, SplitRoute, WatermarkRoute, ProtectRoute}
    ensures IsPdfRoute(route)
  {
    ContainsAt(route, route, 0);
  }

  /** Neither conversion route holds a PDF tool route. */
  lemma ConversionRoutesAreNotPdf(route: string)
    requires route == ConvertWordRoute || route == ConvertImageRoute
    ensures !IsPdfRoute(route)
  {
    if route == ConvertWordRoute {
      NotPdfRoute(ConvertWordRoute);
    } else {
      NotPdfRoute(ConvertImageRoute);
    }
  }

  /** A short text whose characters 5 to 9 are "conve" holds no PDF tool route. */
  lemma NotPdfRoute(s: string)
    requires 10 <= |s| <= 18 && s[5] == 'c' && s[6] == 'o' && s[7] == 'n' && s[8] == 'v' && s[9] == 'e'
    ensures !IsPdfRoute(s)
  {
    assert MergeRoute[5] == 'm' && SplitRoute[5] == 's' && ProtectRoute[5] == 'p' && WatermarkRoute[5] == 'a';
    NotContainedByOffset(s, MergeRoute, 5);
    NotContainedByOffset(s, SplitRoute, 5);
    NotContainedByOffset(s, ProtectRoute, 5);
    NotContainedByOffset(s, WatermarkRoute, 5);
  }

  /**
   * On each PDF tool route the intended filter takes exactly the PDF files; on
   * each conversion route it is the original filter.
   */
  lemma IntendedFilterRoutes(route: string, name: string)
    ensures route in {MergeRoute, SplitRoute, WatermarkRoute, ProtectRoute} ==>
              (FileFilterIntended(route, name).Accept? <==> UploadExt(name) == ".pdf")
    ensures route in {ConvertWordRoute, ConvertImageRoute} ==>
              FileFilterIntended(route, name) == FileFilter(route, name)
  {
    if route in {MergeRoute, SplitRoute, WatermarkRoute, ProtectRoute} {
      PdfRoutesAreNotConversions(route);
      PdfRouteIsPdfRoute(route);
    }
    if route in {ConvertWordRoute, ConvertImageRoute} {
      ConversionRoutesAreNotPdf(route);
    }
  }

  /**
   * The first checks of the split, watermark and protect handlers: a file must
   * have arrived, and its lower-cased extension must be ".pdf".
   */
  function PdfGate(file: Option<string>): (v: Verdict)
    ensures v.Accept? <==> file.Some? && UploadExt(file.value) == ".pdf"
  {
    if file.None? then Reject("No PDF file uploaded")
    else if UploadExt(file.value) != ".pdf" then Reject("Uploaded file must be a PDF")
    else Accept
  }

  /**
   * Under the intended filter, every file a PDF tool route takes passes the
   * handler's own check; under the filter as written no file reaches it.
   */
  lemma IntendedFilterFeedsGate(route: string, name: string)
    requires route in {MergeRoute, SplitRoute, WatermarkRoute, ProtectRoute}
    ensures FileFilterIntended(route, name).Accept? ==> PdfGate(Some(name)) == Accept
    ensures FileFilter(route, name).Reject?
  {
    IntendedFilterRoutes(route, name);
    PdfRoutesRejectEverything(route, name);
  }
}
