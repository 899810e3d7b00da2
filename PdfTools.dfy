/**
 * The three handlers that work on one uploaded PDF: split (extract pages),
 * add watermark and password-protect. Each first runs the PDF check, then
 * reads its form fields and names its output "<base>_<tag>_<timestamp>.pdf".
 * The page count of the document and the timestamp are parameters; loading,
 * drawing, encrypting and saving belong to the PDF library.
 */
module PdfTools {
  import opened JsText
  import opened Uploads
  import opened OutputNames
  import PageRanges
  import Watermark
  import WatermarkColor

  // ---------------------------------------------------------------------
  // Split

  /** What the split handler sends back on success. */
  datatype Extraction = Extraction(pdfName: string, message: string, pages: seq<int>)

  function SplitPdf(file: Option<string>, pageRanges: Option<string>, totalPages: nat, stamp: nat): Result<Extraction>
  {
    match PdfGate(file)
    case Reject(m) => Err(m)
    case Accept =>
      match PageRanges.ParsePageRanges(if Truthy(pageRanges) then pageRanges.value else "", totalPages)
      case Err(m) => Err(m)
      case Ok(pages) =>
        Ok(Extraction(ToolPdfName(file.value, "extracted", stamp),
                      "Successfully extracted " + NatToString(|pages|) + " pages from PDF",
                      pages))
  }

  /**
   * The split succeeds exactly when a PDF arrived and the page ranges parse;
   * the gate's message comes first, then the missing-ranges message, then the
   * parser's message.
   */
  lemma SplitOutcome(file: Option<string>, pageRanges: Option<string>, totalPages: nat, stamp: nat)
    ensures var ranges := if Truthy(pageRanges) then pageRanges.value else "";
            SplitPdf(file, pageRanges, totalPages, stamp).Ok? <==>
              PdfGate(file) == Accept && PageRanges.ParsePageRanges(ranges, totalPages).Ok?
    ensures PdfGate(file).Reject? ==> SplitPdf(file, pageRanges, totalPages, stamp) == Err(PdfGate(file).message)
    ensures PdfGate(file) == Accept && !Truthy(pageRanges) ==>
              SplitPdf(file, pageRanges, totalPages, stamp) == Err("Page ranges must be specified")
  {
  }

  /**
   * On success the pages copied are distinct, ascending and inside the
   * document, and the message counts them.
   */
  lemma SplitOk(file: Option<string>, pageRanges: Option<string>, totalPages: nat, stamp: nat)
    requires SplitPdf(file, pageRanges, totalPages, stamp).Ok?
    ensures var e := SplitPdf(file, pageRanges, totalPages, stamp).value;
            && PageRanges.StrictlyIncreasing(e.pages)
            && (forall i :: 0 <= i < |e.pages| ==> 1 <= e.pages[i] <= totalPages)
            && e.message == "Successfully extracted " + NatToString(|e.pages|) + " pages from PDF"
            && e.pdfName == ToolPdfName(file.value, "extracted", stamp)
  {
    PageRanges.ParseOk(if Truthy(pageRanges) then pageRanges.value else "", totalPages);
  }

  /**
   * The copy loop: each 1-based page number becomes the 0-based index the
   * PDF library copies, in the order of the list.
   */
  method CopyIndices(pages: seq<int>, totalPages: nat) returns (indices: seq<nat>)
    requires forall i :: 0 <= i < |pages| ==> 1 <= pages[i] <= totalPages
    ensures |indices| == |pages|
    ensures forall i :: 0 <= i < |pages| ==> indices[i] == pages[i] - 1 && indices[i] < totalPages
  {
    indices := [];
    var k := 0;
    while k < |pages|
      invariant 0 <= k <= |pages|
      invariant |indices| == k
      invariant forall i :: 0 <= i < k ==> indices[i] == pages[i] - 1 && indices[i] < totalPages
    {
      indices := indices + [pages[k] - 1];
      k := k + 1;
    }
  }

  /** The indices copied for a successful split name distinct pages of the document, in order. */
  method SplitCopies(file: Option<string>, pageRanges: Option<string>, totalPages: nat, stamp: nat)
    returns (indices: seq<nat>)
    requires SplitPdf(file, pageRanges, totalPages, stamp).Ok?
    ensures |indices| == |SplitPdf(file, pageRanges, totalPages, stamp).value.pages|
    ensures forall i :: 0 <= i < |indices| ==> indices[i] < totalPages
    ensures forall i, j :: 0 <= i < j < |indices| ==> indices[i] < indices[j]
  {
    SplitOk(file, pageRanges, totalPages, stamp);
    var pages := SplitPdf(file, pageRanges, totalPages, stamp).value.pages;
    indices := CopyIndices(pages, totalPages);
  }

  // ---------------------------------------------------------------------
  // Watermark

  /** What the watermark handler draws with and names its output. */
  datatype Watermarked = Watermarked(pdfName: string, options: Watermark.Options, color: WatermarkColor.Rgb)

  /** The reply of the handler's catch block. */
  const WatermarkFailed: string := "Error adding watermark to PDF"

  /**
   * `drawFails` stands for the PDF library throwing while the pages are drawn:
   * its `rgb` rejects a channel outside 0..1 (a colour such as "#-F0000"), and
   * the font cannot measure text it has no encoding for. Either lands in the
   * catch block with status 500.
   */
  function WatermarkPdf(file: Option<string>, form: Watermark.WatermarkForm, stamp: nat, drawFails: bool): Result<Watermarked>
  {
    match PdfGate(file)
    case Reject(m) => Err(m)
    case Accept =>
      if drawFails then Err(WatermarkFailed)
      else
        var options := Watermark.ReadOptions(form);
        Ok(Watermarked(ToolPdfName(file.value, "watermarked", stamp), options, WatermarkColor.ParseColor(options.color)))
  }

  /**
   * The watermark handler fails at the PDF check, with its message, or else
   * when drawing fails, with the catch block's message; on success the output
   * is named after the upload and drawn with the options read from the form.
   */
  lemma WatermarkOutcome(file: Option<string>, form: Watermark.WatermarkForm, stamp: nat, drawFails: bool)
    ensures WatermarkPdf(file, form, stamp, drawFails).Ok? <==> PdfGate(file) == Accept && !drawFails
    ensures PdfGate(file).Reject? ==> WatermarkPdf(file, form, stamp, drawFails) == Err(PdfGate(file).message)
    ensures PdfGate(file) == Accept && drawFails ==> WatermarkPdf(file, form, stamp, drawFails) == Err(WatermarkFailed)
    ensures PdfGate(file) == Accept && !drawFails ==>
              && WatermarkPdf(file, form, stamp, drawFails).value.pdfName == ToolPdfName(file.value, "watermarked", stamp)
              && WatermarkPdf(file, form, stamp, drawFails).value.options == Watermark.ReadOptions(form)
  {
  }

  /** With no fields filled in, the watermark is red "CONFIDENTIAL", every channel of which is exact. */
  lemma WatermarkEmptyForm(file: Option<string>, stamp: nat, drawFails: bool)
    ensures PdfGate(file) == Accept && !drawFails ==>
              var w := WatermarkPdf(file, Watermark.EmptyForm, stamp, drawFails).value;
              && w.options.text == "CONFIDENTIAL"
              && w.color == WatermarkColor.Rgb(Some(1.0), Some(0.0), Some(0.0))
  {
    if PdfGate(file) == Accept && !drawFails {
      Watermark.DefaultOptions(Watermark.EmptyForm);
      WatermarkColor.DefaultColorIsRed("#FF0000");
    }
  }

  // ---------------------------------------------------------------------
  // Protect

  datatype Printing = HighResolution | NoPrinting

  /** The permission flags handed to the PDF library's encrypt call. */
  datatype Permissions = Permissions(
    printing: Printing,
    modifying: bool,
    copying: bool,
    annotating: bool,
    fillingForms: bool,
    contentAccessibility: bool,
    documentAssembly: bool)

  /** The form fields of the protect handler; None when the field was not sent. */
  datatype ProtectForm = ProtectForm(
    userPassword: Option<string>,
    ownerPassword: Option<string>,
    allowPrinting: Option<string>,
    allowModifying: Option<string>,
    allowCopying: Option<string>,
    allowAnnotating: Option<string>,
    allowFillingForms: Option<string>,
    allowAccessibility: Option<string>,
    allowAssembly: Option<string>)

  datatype Encryption = Encryption(userPassword: string, ownerPassword: string, permissions: Permissions)

  datatype Protected = Protected(pdfName: string, encryption: Encryption)

  /**
   * Five permissions are granted only by the text "true"; filling forms and
   * accessibility are granted unless the text is "false".
   */
  function ReadPermissions(form: ProtectForm): Permissions
  {
    Permissions(
      if form.allowPrinting == Some("true") then HighResolution else NoPrinting,
      form.allowModifying == Some("true"),
      form.allowCopying == Some("true"),
      form.allowAnnotating == Some("true"),
      form.allowFillingForms != Some("false"),
      form.allowAccessibility != Some("false"),
      form.allowAssembly == Some("true"))
  }

  function ProtectPdf(file: Option<string>, form: ProtectForm, stamp: nat): Result<Protected>
  {
    match PdfGate(file)
    case Reject(m) => Err(m)
    case Accept =>
      if !Truthy(form.userPassword) then Err("User password is required")
      else
        var owner := if Truthy(form.ownerPassword) then form.ownerPassword.value else form.userPassword.value;
        Ok(Protected(ToolPdfName(file.value, "protected", stamp),
                     Encryption(form.userPassword.value, owner, ReadPermissions(form))))
  }

  /**
   * Protection succeeds exactly when a PDF arrived and a non-empty user
   * password was sent; both passwords are then non-empty, and the owner
   * password falls back to the user password.
   */
  lemma ProtectOutcome(file: Option<string>, form: ProtectForm, stamp: nat)
    ensures ProtectPdf(file, form, stamp).Ok? <==> PdfGate(file) == Accept && Truthy(form.userPassword)
    ensures PdfGate(file).Reject? ==> ProtectPdf(file, form, stamp) == Err(PdfGate(file).message)
    ensures PdfGate(file) == Accept && !Truthy(form.userPassword) ==>
              ProtectPdf(file, form, stamp) == Err("User password is required")
    ensures ProtectPdf(file, form, stamp).Ok? ==>
              var e := ProtectPdf(file, form, stamp).value.encryption;
              && e.userPassword == form.userPassword.value && e.userPassword != []
              && e.ownerPassword != []
              && (e.ownerPassword == form.userPassword.value <==>
                    !Truthy(form.ownerPassword) || form.ownerPassword.value == form.userPassword.value)
              && ProtectPdf(file, form, stamp).value.pdfName == ToolPdfName(file.value, "protected", stamp)
  {
  }

  /** The text a checkbox sends: "true" or "false". */
  function FlagText(b: bool): Option<string>
  {
    Some(if b then "true" else "false")
  }

  /** A form whose permission fields all come from checkboxes. */
  function CheckboxForm(user: Option<string>, owner: Option<string>, p: Permissions): ProtectForm
  {
    ProtectForm(user, owner, FlagText(p.printing == HighResolution), FlagText(p.modifying), FlagText(p.copying),
                FlagText(p.annotating), FlagText(p.fillingForms), FlagText(p.contentAccessibility),
                FlagText(p.documentAssembly))
  }

  /** Permissions sent as checkbox texts are read back unchanged. */
  lemma CheckboxRoundTrip(user: Option<string>, owner: Option<string>, p: Permissions)
    ensures ReadPermissions(CheckboxForm(user, owner, p)) == p
  {
    assert "true" != "false";
  }

  /**
   * A missing field grants nothing except filling forms and accessibility,
   * which default to granted.
   */
  lemma DefaultPermissions(user: Option<string>, owner: Option<string>)
    ensures ReadPermissions(ProtectForm(user, owner, None, None, None, None, None, None, None))
         == Permissions(NoPrinting, false, false, false, true, true, false)
  {
  }

  // ---------------------------------------------------------------------
  // Output names

  /** For "stem.pdf" each tool names its output after the stem and its own tag. */
  lemma SplitOutputName(stem: string, ranges: Option<string>, totalPages: nat, stamp: nat)
    requires '/' !in stem && stem != []
    ensures SplitPdf(Some(stem + ".pdf"), ranges, totalPages, stamp).Ok? ==>
              SplitPdf(Some(stem + ".pdf"), ranges, totalPages, stamp).value.pdfName
                == stem + "_" + "extracted" + "_" + NatToString(stamp) + ".pdf"
  {
    ToolPdfNameOf(stem, "extracted", stamp);
  }

  lemma WatermarkOutputName(stem: string, form: Watermark.WatermarkForm, stamp: nat, drawFails: bool)
    requires '/' !in stem && stem != []
    ensures WatermarkPdf(Some(stem + ".pdf"), form, stamp, drawFails).Ok? <==> !drawFails
    ensures !drawFails ==>
              WatermarkPdf(Some(stem + ".pdf"), form, stamp, drawFails).value.pdfName
                == stem + "_" + "watermarked" + "_" + NatToString(stamp) + ".pdf"
  {
    PdfStemPasses(stem);
    ToolPdfNameOf(stem, "watermarked", stamp);
  }

  lemma ProtectOutputName(stem: string, form: ProtectForm, stamp: nat)
    requires '/' !in stem && stem != []
    ensures ProtectPdf(Some(stem + ".pdf"), form, stamp).Ok? <==> Truthy(form.userPassword)
    ensures ProtectPdf(Some(stem + ".pdf"), form, stamp).Ok? ==>
              ProtectPdf(Some(stem + ".pdf"), form, stamp).value.pdfName
                == stem + "_" + "protected" + "_" + NatToString(stamp) + ".pdf"
  {
    PdfStemPasses(stem);
    ToolPdfNameOf(stem, "protected", stamp);
  }

  lemma PdfStemPasses(stem: string)
    requires '/' !in stem && stem != []
    ensures PdfGate(Some(stem + ".pdf")) == Accept
  {
    assert stem + ".pdf" == stem + "." + "pdf";
    LowerPdfExt(stem);
    LowerCasePdf();
  }

  lemma LowerPdfExt(stem: string)
    requires '/' !in stem && stem != []
    ensures UploadExt(stem + "." + "pdf") == ToLower("." + "pdf")
  {
    assert '.' !in "pdf" && '/' !in "pdf";
    UploadExtOf(stem, "pdf");
  }

  lemma LowerCasePdf()
    ensures ToLower("." + "pdf") == ".pdf"
  {
  }
}
