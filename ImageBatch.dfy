/**
 * The batch logic of the image conversion: whether the images go into one
 * document or one document each, the success and failure counters, the
 * zero-success error of the one-document path, the result list and the
 * summary message. Whether an image decodes and embeds is a parameter of
 * each file (sharp and the PDF library decide it); timestamps are parameters.
 */
module ImageBatch {
  import opened JsText
  import opened Layout
  import opened OutputNames
  import Uploads

  /** One uploaded image: its original name and whether its conversion goes through. */
  datatype ImageFile = ImageFile(name: string, converts: bool)

  /** One entry of the `results` list. */
  datatype Converted = Converted(originalName: string, pdfName: string)

  /** The response: status 400 or 500 with a message and an error text, or success. */
  datatype Reply =
    | Failure(status: nat, message: string, error: string)
    | Success(message: string, results: seq<Converted>)

  /** `conversionOptions.combine === 'combine' || req.files.length === 1`. */
  predicate SingleDocument(combine: Option<string>, count: nat)
  {
    combine == Some("combine") || count == 1
  }

  /** How many of the files convert. */
  function CountConverted(files: seq<ImageFile>): (n: nat)
    ensures n <= |files|
  {
    if files == [] then 0
    else CountConverted(files[..|files| - 1]) + (if files[|files| - 1].converts then 1 else 0)
  }

  /** One result per converted file, in upload order, named after the file and its own timestamp. */
  function SeparateResults(files: seq<ImageFile>, stamps: seq<nat>): seq<Converted>
    requires |stamps| == |files|
  {
    if files == [] then []
    else
      var k := |files| - 1;
      SeparateResults(files[..k], stamps[..k])
        + (if files[k].converts then [ResultOf(files[k], stamps[k])] else [])
  }

  /** The result for one file converted on its own. */
  function ResultOf(file: ImageFile, stamp: nat): Converted
  {
    Converted(file.name, ImagePdfName(file.name, stamp))
  }

  function Summary(successes: nat, failures: nat): string
  {
    if failures > 0 then
      "Successfully converted " + NatToString(successes) + " image(s) to PDF. " + NatToString(failures) + " image(s) failed."
    else "Successfully converted " + NatToString(successes) + " image(s) to PDF."
  }

  const NothingConverted: string :=
    "Error creating PDF: Failed to process any images. Please check file formats and try again."

  /** The one result of the one-document path. */
  function SingleResult(files: seq<ImageFile>, combine: Option<string>, stamp: nat): Converted
    requires files != []
  {
    if combine == Some("combine") then
      Converted(NatToString(|files|) + " images combined.pdf", CombinedPdfName(stamp))
    else Converted(files[0].name, ImagePdfName(files[0].name, stamp))
  }

  /**
   * The whole batch: `stamp` is the timestamp of the one-document path,
   * `stamps` the timestamps taken for each file of the other path.
   */
  function ConvertImages(files: seq<ImageFile>, combine: Option<string>, stamp: nat, stamps: seq<nat>): Reply
    requires |stamps| == |files|
  {
    if files == [] then Failure(400, "No files uploaded", "")
    else
      var successes := CountConverted(files);
      var summary := Summary(successes, |files| - successes);
      if SingleDocument(combine, |files|) then
        if successes == 0 then Failure(500, "Error converting images to PDF", NothingConverted)
        else Success(summary, [SingleResult(files, combine, stamp)])
      else Success(summary, SeparateResults(files, stamps))
  }

  // ---------------------------------------------------------------------
  // The handler's loops

  lemma CountStep(files: seq<ImageFile>, i: nat)
    requires i < |files|
    ensures CountConverted(files[..i + 1]) == CountConverted(files[..i]) + (if files[i].converts then 1 else 0)
  {
    assert files[..i + 1][..i] == files[..i];
  }

  lemma ResultsStep(files: seq<ImageFile>, stamps: seq<nat>, i: nat)
    requires |stamps| == |files| && i < |files|
    ensures SeparateResults(files[..i + 1], stamps[..i + 1])
         == SeparateResults(files[..i], stamps[..i])
            + (if files[i].converts then [ResultOf(files[i], stamps[i])] else [])
  {
    assert files[..i + 1][..i] == files[..i];
    assert stamps[..i + 1][..i] == stamps[..i];
  }

  /** The two counters of the handler's loop over the files. */
  method CountImages(files: seq<ImageFile>) returns (successes: nat, failures: nat)
    ensures successes == CountConverted(files)
    ensures successes + failures == |files|
  {
    successes, failures := 0, 0;
    var i := 0;
    while i < |files|
      invariant 0 <= i <= |files|
      invariant successes == CountConverted(files[..i])
      invariant successes + failures == i
    {
      CountStep(files, i);
      if files[i].converts {
        successes := successes + 1;
      } else {
        failures := failures + 1;
      }
      i := i + 1;
    }
    assert files[..|files|] == files;
  }

  /** The handler's path for one document per image: count and push each converted file. */
  method ConvertSeparately(files: seq<ImageFile>, stamps: seq<nat>)
    returns (results: seq<Converted>, successes: nat, failures: nat)
    requires |stamps| == |files|
    ensures results == SeparateResults(files, stamps)
    ensures successes == CountConverted(files) && successes + failures == |files|
  {
    results := [];
    successes, failures := 0, 0;
    var i := 0;
    while i < |files|
      invariant 0 <= i <= |files|
      invariant results == SeparateResults(files[..i], stamps[..i])
      invariant successes == CountConverted(files[..i]) && successes + failures == i
    {
      CountStep(files, i);
      ResultsStep(files, stamps, i);
      if files[i].converts {
        results := results + [ResultOf(files[i], stamps[i])];
        successes := successes + 1;
      } else {
        failures := failures + 1;
      }
      i := i + 1;
    }
    assert files[..|files|] == files && stamps[..|stamps|] == stamps;
  }

  /** The image conversion handler after the upload. */
  method HandleImages(files: seq<ImageFile>, combine: Option<string>, stamp: nat, stamps: seq<nat>)
    returns (reply: Reply)
    requires |stamps| == |files|
    ensures reply == ConvertImages(files, combine, stamp, stamps)
  {
    if |files| == 0 {
      return Failure(400, "No files uploaded", "");
    }
    var results: seq<Converted>;
    var successes, failures;
    if SingleDocument(combine, |files|) {
      successes, failures := CountImages(files);
      if successes == 0 {
        return Failure(500, "Error converting images to PDF", NothingConverted);
      }
      results := [SingleResult(files, combine, stamp)];
    } else {
      results, successes, failures := ConvertSeparately(files, stamps);
    }
    reply := Success(Summary(successes, failures), results);
  }

  // ---------------------------------------------------------------------
  // What the batch promises

  lemma {:induction false} SeparateResultsCount(files: seq<ImageFile>, stamps: seq<nat>)
    requires |stamps| == |files|
    ensures |SeparateResults(files, stamps)| == CountConverted(files)
    decreases |files|
  {
    if files != [] {
      var k := |files| - 1;
      SeparateResultsCount(files[..k], stamps[..k]);
    }
  }

  /** The result comes from a converted file and carries its name and its sanitised PDF name. */
  predicate FromFile(c: Converted, files: seq<ImageFile>, stamps: seq<nat>)
    requires |stamps| == |files|
  {
    exists i :: 0 <= i < |files| && files[i].converts
                && c == ResultOf(files[i], stamps[i])
  }

  lemma FromPrefix(c: Converted, files: seq<ImageFile>, stamps: seq<nat>, k: nat)
    requires |stamps| == |files| && k <= |files|
    requires FromFile(c, files[..k], stamps[..k])
    ensures FromFile(c, files, stamps)
  {
    var i :| 0 <= i < k && files[..k][i].converts
             && c == ResultOf(files[..k][i], stamps[..k][i]);
    assert files[..k][i] == files[i] && stamps[..k][i] == stamps[i];
  }

  /** Every result of the separate path comes from a converted file of the batch. */
  lemma {:induction false} SeparateResultsFrom(files: seq<ImageFile>, stamps: seq<nat>)
    requires |stamps| == |files|
    ensures forall j :: 0 <= j < |SeparateResults(files, stamps)| ==>
              FromFile(SeparateResults(files, stamps)[j], files, stamps)
    decreases |files|
  {
    if files != [] {
      var k := |files| - 1;
      SeparateResultsFrom(files[..k], stamps[..k]);
      var rs := SeparateResults(files, stamps);
      var front := SeparateResults(files[..k], stamps[..k]);
      forall j | 0 <= j < |rs| ensures FromFile(rs[j], files, stamps) {
        if j < |front| {
          assert rs[j] == front[j];
          assert FromFile(front[j], files[..k], stamps[..k]);
          FromPrefix(front[j], files, stamps, k);
        } else {
          assert rs[j] == ResultOf(files[k], stamps[k]);
        }
      }
    }
  }

  /** The positions of the files that convert, in upload order. */
  function ConvertedPositions(files: seq<ImageFile>): (idx: seq<nat>)
    ensures forall j :: 0 <= j < |idx| ==> idx[j] < |files|
  {
    if files == [] then []
    else
      var k := |files| - 1;
      ConvertedPositions(files[..k]) + (if files[k].converts then [k] else [])
  }

  /** The positions ascend strictly and are exactly those of the converting files. */
  lemma {:induction false} ConvertedPositionsExact(files: seq<ImageFile>)
    ensures forall a, b :: 0 <= a < b < |ConvertedPositions(files)| ==>
              ConvertedPositions(files)[a] < ConvertedPositions(files)[b]
    ensures forall i :: 0 <= i < |files| ==> (files[i].converts <==> i in ConvertedPositions(files))
    decreases |files|
  {
    if files != [] {
      var k := |files| - 1;
      ConvertedPositionsExact(files[..k]);
      forall i | 0 <= i < k ensures (files[i].converts <==> i in ConvertedPositions(files)) {
        assert files[..k][i] == files[i];
      }
    }
  }

  /**
   * The separate path gives, in upload order, the result of each converting
   * file and of no other: its j-th result is that of the j-th converting file.
   */
  lemma {:induction false} SeparateResultsInOrder(files: seq<ImageFile>, stamps: seq<nat>)
    requires |stamps| == |files|
    ensures |SeparateResults(files, stamps)| == |ConvertedPositions(files)|
    ensures forall j :: 0 <= j < |SeparateResults(files, stamps)| ==>
              SeparateResults(files, stamps)[j]
                == ResultOf(files[ConvertedPositions(files)[j]], stamps[ConvertedPositions(files)[j]])
    decreases |files|
  {
    if files != [] {
      var k := |files| - 1;
      SeparateResultsInOrder(files[..k], stamps[..k]);
      var rs := SeparateResults(files, stamps);
      var idx := ConvertedPositions(files);
      var front := SeparateResults(files[..k], stamps[..k]);
      var frontIdx := ConvertedPositions(files[..k]);
      forall j | 0 <= j < |rs| ensures rs[j] == ResultOf(files[idx[j]], stamps[idx[j]]) {
        if j < |front| {
          assert rs[j] == front[j] && idx[j] == frontIdx[j];
          assert files[..k][frontIdx[j]] == files[idx[j]] && stamps[..k][frontIdx[j]] == stamps[idx[j]];
        }
      }
    }
  }

  /**
   * The request fails exactly when no file arrived (400), or when the images
   * go into one document and none of them converts (500); otherwise the
   * results are one document, or one per converted image.
   */
  lemma BatchOutcome(files: seq<ImageFile>, combine: Option<string>, stamp: nat, stamps: seq<nat>)
    requires |stamps| == |files|
    ensures var r := ConvertImages(files, combine, stamp, stamps);
            && (r.Failure? <==> files == [] || (SingleDocument(combine, |files|) && CountConverted(files) == 0))
            && (r.Success? && SingleDocument(combine, |files|) ==> |r.results| == 1)
            && (r.Success? && !SingleDocument(combine, |files|) ==> |r.results| == CountConverted(files))
  {
    SeparateResultsCount(files, stamps);
  }

  /**
   * The summary counts the failures only when there are some; with several
   * images and no "combine" option, a batch in which nothing converts is
   * still reported as a success, with no results.
   */
  lemma NothingConvertedSeparately(files: seq<ImageFile>, combine: Option<string>, stamp: nat, stamps: seq<nat>)
    requires |stamps| == |files| && |files| >= 2 && combine != Some("combine")
    requires forall i :: 0 <= i < |files| ==> !files[i].converts
    ensures ConvertImages(files, combine, stamp, stamps) == Success(Summary(0, |files|), [])
  {
    NoneConverted(files);
    SeparateResultsCount(files, stamps);
  }

  lemma {:induction false} NoneConverted(files: seq<ImageFile>)
    requires forall i :: 0 <= i < |files| ==> !files[i].converts
    ensures CountConverted(files) == 0
    decreases |files|
  {
    if files != [] {
      NoneConverted(files[..|files| - 1]);
    }
  }

  /** A combined document is named by its timestamp and the number of images, whatever their names. */
  lemma CombinedResult(files: seq<ImageFile>, stamp: nat, stamps: seq<nat>)
    requires |stamps| == |files| && CountConverted(files) > 0
    ensures ConvertImages(files, Some("combine"), stamp, stamps).results
         == [Converted(NatToString(|files|) + " images combined.pdf", "combined_images_" + NatToString(stamp) + ".pdf")]
  {
  }

  // ---------------------------------------------------------------------
  // Image size

  /** SVG files are drawn as 800 x 600, whatever their own size; other images keep the decoded size. */
  function DrawnSize(name: string, decoded: ImageSize): (s: ImageSize)
  {
    if Uploads.UploadExt(name) == ".svg" then ImageSize(800.0, 600.0) else decoded
  }

  /** An SVG on a portrait A4 page under "contain" takes the page width less 40 points, at 4:3. */
  lemma SvgOnA4(name: string, decoded: ImageSize)
    requires Uploads.UploadExt(name) == ".svg"
    ensures Place(DrawnSize(name, decoded), A4, None) == Some(Placement(20.0, 212.875, 555.0, 416.25))
  {
    PlaceNamed(ImageSize(800.0, 600.0), A4);
    assert WiderThanPage(800.0 / 600.0, A4);
  }
}
