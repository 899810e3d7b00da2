/**
 * The names the server gives the PDF files it writes: the Word conversion's
 * base name plus ".pdf", the image conversion's sanitised names, and the PDF
 * tools' "<base>_<tag>_<timestamp>.pdf". Timestamps are parameters.
 */
module OutputNames {
  import opened JsText
  import opened NodePath
  import Uploads

  predicate EndsWith(s: string, suffix: string)
  {
    |suffix| <= |s| && s[|s| - |suffix|..] == suffix
  }

  /**
   * path.basename(p, suffix): the base name, less `suffix` when it ends with
   * it and is longer; the empty string when `p` is the suffix itself.
   */
  function BaseNameWithout(p: string, suffix: string): (r: string)
    requires '/' !in suffix
    ensures '/' !in r
    ensures r == BaseName(p) || (r + suffix == BaseName(p) && r != []) || (p == suffix && r == [])
    ensures p != suffix && suffix != [] && |BaseName(p)| > |suffix| && EndsWith(BaseName(p), suffix) ==>
              r + suffix == BaseName(p)
  {
    if p == suffix then ""
    else
      var b := BaseName(p);
      if suffix != [] && |b| > |suffix| && EndsWith(b, suffix) then b[..|b| - |suffix|] else b
  }

  /** The Word handler's path.basename(name, path.extname(name)) is the stem of the name. */
  lemma BaseNameWithoutExt(name: string)
    ensures BaseNameWithout(name, ExtName(name)) == StemName(name)
  {
    var b := BaseName(name);
    var e := ExtName(name);
    if e != [] {
      assert |e| < |b| <= |name|;
      assert EndsWith(b, e);
      var r := BaseNameWithout(name, e);
      assert r + e == b;
      assert StemName(name) + e == b;
      assert r == b[..|r|] && StemName(name) == b[..|r|];
    }
  }

  /** The output name of one Word conversion. */
  function WordPdfName(name: string): string
  {
    BaseNameWithout(name, ExtName(name)) + ".pdf"
  }

  /**
   * The Word output is the document's stem with its extension replaced by
   * ".pdf": it has no '/', and, for a name that does not end in '/', reads
   * back with extension ".pdf" and the document's stem.
   */
  lemma WordPdfNameReplacesExt(name: string)
    requires BaseName(name) != []
    ensures '/' !in WordPdfName(name)
    ensures ExtName(WordPdfName(name)) == ".pdf"
    ensures StemName(WordPdfName(name)) == StemName(name)
  {
    var stem := StemName(name);
    assert WordPdfName(name) == stem + "." + "pdf" by {
      BaseNameWithoutExt(name);
    }
    assert stem != [] && '/' !in stem by {
      if ExtName(name) == [] { assert stem == BaseName(name); }
    }
    StemPdf(stem);
  }

  lemma StemPdf(stem: string)
    requires stem != [] && '/' !in stem
    ensures '/' !in stem + "." + "pdf"
    ensures ExtName(stem + "." + "pdf") == ".pdf" && StemName(stem + "." + "pdf") == stem
  {
    StemDotExt(stem, "pdf");
    assert "." + "pdf" == ".pdf";
  }

  lemma StemDotExt(stem: string, ext: string)
    requires stem != [] && '/' !in stem && '/' !in ext && '.' !in ext && ext != []
    ensures '/' !in stem + "." + ext
    ensures ExtName(stem + "." + ext) == "." + ext && StemName(stem + "." + ext) == stem
  {
    SplitWithoutSeparator(stem, '/');
    assert BaseName(stem) == stem;
    ExtNameOf(stem, ext);
  }

  // ---------------------------------------------------------------------
  // Image outputs

  predicate IsSafeChar(c: char)
  {
    ('a' <= c <= 'z') || ('A' <= c <= 'Z') || ('0' <= c <= '9') || c == '.'
  }

  /** name.replace(/[^a-zA-Z0-9.]/g, '_'): every other character becomes '_'. */
  function Sanitize(s: string): (r: string)
    ensures |r| == |s|
    ensures forall i :: 0 <= i < |r| ==> IsSafeChar(r[i]) || r[i] == '_'
    ensures forall i :: 0 <= i < |s| ==> (r[i] == s[i] <==> IsSafeChar(s[i]) || s[i] == '_')
  {
    seq(|s|, i requires 0 <= i < |s| => if IsSafeChar(s[i]) then s[i] else '_')
  }

  lemma SanitizeIdempotent(s: string)
    ensures Sanitize(Sanitize(s)) == Sanitize(s)
  {
  }

  /** The text ends in a dot followed by one or more characters that are neither '.' nor '/'. */
  predicate HasFinalExt(s: string)
  {
    exists k :: 0 <= k < |s| - 1 && s[k] == '.' && '.' !in s[k + 1..] && '/' !in s[k + 1..]
  }

  /** s.replace(/\.[^/.]+$/, ''): the final extension removed, dot included. */
  function StripFinalExt(s: string): (r: string)
    ensures |r| <= |s| && r == s[..|r|]
    ensures r != s ==> s[|r|] == '.' && |s| - |r| >= 2 && '.' !in s[|r| + 1..] && '/' !in s[|r| + 1..]
  {
    var d := LastIndexOf(s, '.');
    if 0 <= d < |s| - 1 && '/' !in s[d + 1..] then s[..d] else s
  }

  /** The text is shortened exactly when the pattern matches. */
  lemma StripFinalExtMatches(s: string)
    ensures StripFinalExt(s) != s <==> HasFinalExt(s)
  {
    var d := LastIndexOf(s, '.');
    if HasFinalExt(s) {
      var k :| 0 <= k < |s| - 1 && s[k] == '.' && '.' !in s[k + 1..] && '/' !in s[k + 1..];
      LastIndexOfAtLeast(s, '.', k);
      forall j | k < j < |s| ensures s[j] != '.' {
        assert s[k + 1..][j - k - 1] == s[j];
      }
      assert |StripFinalExt(s)| == k;
    }
  }

  /** The output name of one image converted on its own. */
  function ImagePdfName(name: string, stamp: nat): string
  {
    StripFinalExt(Sanitize(name)) + "_" + NatToString(stamp) + ".pdf"
  }

  /**
   * An image output name holds only letters, digits, '.', '_' (so it names a
   * file inside the output directory) and has extension ".pdf".
   */
  lemma ImagePdfNameSafe(name: string, stamp: nat)
    ensures var r := ImagePdfName(name, stamp);
            && (forall i :: 0 <= i < |r| ==> IsSafeChar(r[i]) || r[i] == '_')
            && ExtName(r) == ".pdf"
  {
    var base := StripFinalExt(Sanitize(name));
    var digits := NatToString(stamp);
    var stem := base + "_" + digits;
    var r := ImagePdfName(name, stamp);
    assert r == stem + "." + "pdf";
    forall i | 0 <= i < |r| ensures IsSafeChar(r[i]) || r[i] == '_' {
      if i < |base| {
        assert r[i] == Sanitize(name)[i];
      } else if |base| < i < |stem| {
        assert r[i] == digits[i - |base| - 1];
        assert IsDecimalDigit(digits[i - |base| - 1]);
      }
    }
    assert '/' !in stem by {
      forall i | 0 <= i < |stem| ensures stem[i] != '/' {
        assert stem[i] == r[i];
      }
    }
    assert stem[|stem| - 1] == digits[|digits| - 1];
    ExtNameOf(stem, "pdf");
  }

  /**
   * "stem.ext" becomes the sanitised stem, the timestamp and ".pdf": the last
   * extension goes, whatever characters the stem holds.
   */
  lemma ImagePdfNameOf(stem: string, ext: string, stamp: nat)
    requires '.' !in ext && ext != []
    ensures ImagePdfName(stem + "." + ext, stamp) == Sanitize(stem) + "_" + NatToString(stamp) + ".pdf"
  {
    var s := Sanitize(stem + "." + ext);
    var k := |stem|;
    assert s[k] == '.';
    assert s[..k] == Sanitize(stem);
    forall i | k + 1 <= i < |s| ensures s[i] != '.' && s[i] != '/' {
      assert (stem + "." + ext)[i] == ext[i - k - 1];
    }
    assert HasFinalExt(s) by {
      assert '.' !in s[k + 1..] && '/' !in s[k + 1..];
    }
    StripFinalExtMatches(s);
    assert |StripFinalExt(s)| == k;
  }

  /**
   * Unlike path.extname, the pattern also takes an extension that starts the
   * name: ".png" loses all of its text, where its stem is ".png" itself.
   */
  lemma LeadingDotStripped()
    ensures StripFinalExt(".png") == ""
    ensures StemName(".png") == ".png"
  {
    assert LastIndexOf(".png", '.') == 0;
    assert BaseName(".png") == ".png" by {
      BaseNameAppend([], ".png");
    }
  }

  /** The name of all images combined into one document. */
  function CombinedPdfName(stamp: nat): (r: string)
    ensures '/' !in r && EndsWith(r, ".pdf")
  {
    var digits := NatToString(stamp);
    var r := "combined_images_" + digits + ".pdf";
    assert r[|r| - 4..] == ".pdf";
    assert forall i :: 0 <= i < |digits| ==> digits[i] != '/';
    assert forall i :: 16 <= i < |r| - 4 ==> r[i] == digits[i - 16];
    r
  }

  // ---------------------------------------------------------------------
  // PDF tool outputs

  /** `${path.basename(name, '.pdf')}_${tag}_${timestamp}.pdf` of the split, watermark and protect tools. */
  function ToolPdfName(name: string, tag: string, stamp: nat): string
  {
    BaseNameWithout(name, ".pdf") + "_" + tag + "_" + NatToString(stamp) + ".pdf"
  }

  /** A lower-case ".pdf" extension is replaced by the tag and the timestamp. */
  lemma ToolPdfNameOf(stem: string, tag: string, stamp: nat)
    requires '/' !in stem && stem != []
    ensures ToolPdfName(stem + ".pdf", tag, stamp) == stem + "_" + tag + "_" + NatToString(stamp) + ".pdf"
  {
    var p := stem + ".pdf";
    assert BaseName(p) == p by {
      BaseNameAppend([], p);
    }
    assert EndsWith(p, ".pdf");
    var r := BaseNameWithout(p, ".pdf");
    assert r + ".pdf" == stem + ".pdf";
    assert r == (r + ".pdf")[..|r|];
  }

  lemma LowerPdf()
    ensures ToLower("." + "PDF") == ".pdf"
  {
  }

  lemma UpperPdfExt(stem: string)
    requires '/' !in stem && stem != []
    ensures Uploads.UploadExt(stem + "." + "PDF") == ToLower("." + "PDF")
  {
    assert '.' !in "PDF" && '/' !in "PDF";
    Uploads.UploadExtOf(stem, "PDF");
  }

  /** The PDF check lower-cases the extension, so "stem.PDF" passes it. */
  lemma UpperCasePdfPasses(stem: string)
    requires '/' !in stem && stem != []
    ensures Uploads.PdfGate(Some(stem + ".PDF")) == Uploads.Accept
  {
    var p := stem + ".PDF";
    assert p == stem + "." + "PDF";
    UpperPdfExt(stem);
    LowerPdf();
  }

  /**
   * The tools take any capitalisation of ".pdf", but only a lower-case one is
   * taken off the output name: "scan.PDF" passes the check and keeps ".PDF".
   */
  lemma UpperCasePdfKept(stem: string, tag: string, stamp: nat)
    requires '/' !in stem && stem != []
    ensures Uploads.PdfGate(Some(stem + ".PDF")) == Uploads.Accept
    ensures ToolPdfName(stem + ".PDF", tag, stamp) == stem + ".PDF" + "_" + tag + "_" + NatToString(stamp) + ".pdf"
  {
    UpperCasePdfPasses(stem);
    var p := stem + ".PDF";
    assert BaseName(p) == p by {
      BaseNameAppend([], p);
    }
    assert !EndsWith(p, ".pdf") by {
      assert p[|p| - 1] == 'F';
    }
  }
}
