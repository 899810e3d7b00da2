/**
 * The browser's choice of URL for a converted PDF: the preview modal and the
 * download button both turn the `pdfPath` the server returned into a path
 * under "/output/" or a request to "/api/download/". encodeURIComponent is a
 * parameter of the model.
 */
module ClientUrls {
  import opened JsText

  const OutputPrefix: string := "/output/"
  const DownloadPrefix: string := "/api/download/"
  const TestOutput: string := "test_output.pdf"
  const TestOutputUrl: string := "/output/test_output.pdf"

  /** The URL served from one of the two places the server serves PDFs from. */
  predicate Served(url: string)
  {
    StartsWith(url, OutputPrefix) || StartsWith(url, DownloadPrefix)
  }

  /**
   * The shared normalisation of downloadPdf and openPdfPreview: a URL that
   * starts with neither '/' nor "http" gets a leading '/'; a result that is
   * not served directly becomes a download request for the original URL.
   */
  function NormalizeUrl(pdfUrl: string, encode: string -> string): (r: string)
    ensures Served(r)
  {
    var full := if !StartsWith(pdfUrl, "/") && !StartsWith(pdfUrl, "http") then "/" + pdfUrl else pdfUrl;
    if !Served(full) then
      var r := DownloadPrefix + encode(pdfUrl);
      assert r[..|DownloadPrefix|] == DownloadPrefix;
      r
    else full
  }

  /** A URL that is already served directly is left as it is. */
  lemma ServedUnchanged(url: string, encode: string -> string)
    requires Served(url)
    ensures NormalizeUrl(url, encode) == url
  {
    assert url[0] == '/' by {
      if StartsWith(url, OutputPrefix) {
        assert url[..|OutputPrefix|][0] == OutputPrefix[0];
      } else {
        assert url[..|DownloadPrefix|][0] == DownloadPrefix[0];
      }
    }
    assert StartsWith(url, "/");
  }

  /** Normalising twice is normalising once. */
  lemma NormalizeIdempotent(url: string, encode: string -> string)
    ensures NormalizeUrl(NormalizeUrl(url, encode), encode) == NormalizeUrl(url, encode)
  {
    ServedUnchanged(NormalizeUrl(url, encode), encode);
  }

  /** A relative "output/..." path gets its slash and is then served directly. */
  lemma RelativeOutputPath(rest: string, encode: string -> string)
    ensures NormalizeUrl("output/" + rest, encode) == OutputPrefix + rest
  {
    var url := "output/" + rest;
    assert url[0] == 'o';
    assert !StartsWith(url, "/");
    assert !StartsWith(url, "http") by {
      assert "http"[0] != url[0];
    }
    assert "/" + url == OutputPrefix + rest;
    assert (OutputPrefix + rest)[..|OutputPrefix|] == OutputPrefix;
  }

  /** An absolute http(s) URL is not served directly: it goes through the download route. */
  lemma AbsoluteUrlDownloaded(url: string, encode: string -> string)
    requires StartsWith(url, "http")
    ensures NormalizeUrl(url, encode) == DownloadPrefix + encode(url)
  {
    assert url[0] == url[..4][0] == 'h';
    assert OutputPrefix[0] != url[0] && DownloadPrefix[0] != url[0];
  }

  /** The URL the preview loads: the test file has a fixed path, everything else is normalised. */
  function PreviewUrl(pdfUrl: string, encode: string -> string): (r: string)
    ensures Served(r)
  {
    if Contains(pdfUrl, TestOutput) then
      assert TestOutputUrl == OutputPrefix + TestOutput;
      TestOutputUrl
    else NormalizeUrl(pdfUrl, encode)
  }

  /** The URL a download fetches, for a URL and the file name it is saved under. */
  function DownloadUrl(pdfUrl: string, pdfName: string, encode: string -> string): (r: string)
    ensures Served(r)
  {
    if pdfName == TestOutput || Contains(pdfUrl, TestOutput) then
      assert TestOutputUrl == OutputPrefix + TestOutput;
      TestOutputUrl
    else NormalizeUrl(pdfUrl, encode)
  }

  /**
   * Any URL that mentions the test file previews and downloads from its
   * fixed path, whatever else it holds.
   */
  lemma TestOutputFixed(pdfUrl: string, pdfName: string, encode: string -> string)
    requires Contains(pdfUrl, TestOutput)
    ensures PreviewUrl(pdfUrl, encode) == TestOutputUrl
    ensures DownloadUrl(pdfUrl, pdfName, encode) == TestOutputUrl
  {
  }

  /**
   * The preview's download button passes the URL and its last path segment;
   * the download the listener of this preview starts reaches the URL the
   * preview showed.
   */
  lemma PreviewDownloadAgree(pdfUrl: string, encode: string -> string)
    ensures DownloadUrl(pdfUrl, LastPart(pdfUrl, '/'), encode) == PreviewUrl(pdfUrl, encode)
  {
    var name := LastPart(pdfUrl, '/');
    if name == TestOutput {
      ContainsAt(pdfUrl, TestOutput, |pdfUrl| - |name|);
    }
  }
}
