/**
 * The browser's list of files waiting to be converted, one per upload area:
 * new files are filtered by extension, the whole batch is refused when it
 * would take the list past the maximum count, oversized files are dropped
 * with an alert, and the convert button is disabled exactly when the list is
 * empty. The DOM is left out; alerts are returned as their texts.
 */
module UploadList {
  import opened JsText
  import Uploads

  /** A File object as the list sees it: its name and its size in bytes. */
  datatype ClientFile = ClientFile(name: string, size: nat)

  const WordExtensions: seq<string> := [".doc", ".docx"]
  const ImageExtensions: seq<string> := [".jpg", ".jpeg", ".png", ".bmp", ".webp"]

  /** The settings of the two upload areas: at most 10 Word files of 20 MB, 20 images of 10 MB. */
  const WordMaxFiles: nat := 10
  const WordMaxSizeMB: nat := 20
  const ImageMaxFiles: nat := 20
  const ImageMaxSizeMB: nat := 10

  /** '.' + name.split('.').pop().toLowerCase(). */
  function ClientExt(name: string): string
  {
    "." + ToLower(LastPart(name, '.'))
  }

  predicate Allowed(allowed: seq<string>, f: ClientFile)
  {
    ClientExt(f.name) in allowed
  }

  function MaxBytes(maxSizeMB: nat): nat
  {
    maxSizeMB * 1024 * 1024
  }

  /** The files with an allowed extension, in input order. */
  function ExtensionValid(allowed: seq<string>, files: seq<ClientFile>): seq<ClientFile>
  {
    if files == [] then []
    else
      var k := |files| - 1;
      ExtensionValid(allowed, files[..k]) + (if Allowed(allowed, files[k]) then [files[k]] else [])
  }

  /** The files within the size limit, in input order. */
  function SizeValid(maxBytes: nat, files: seq<ClientFile>): seq<ClientFile>
  {
    if files == [] then []
    else
      var k := |files| - 1;
      SizeValid(maxBytes, files[..k]) + (if files[k].size <= maxBytes then [files[k]] else [])
  }

  function SizeAlert(name: string, maxSizeMB: nat): string
  {
    "The file \"" + name + "\" exceeds the maximum size of " + NatToString(maxSizeMB) + "MB."
  }

  /** One alert per file over the size limit, in input order. */
  function SizeAlerts(maxSizeMB: nat, files: seq<ClientFile>): seq<string>
  {
    if files == [] then []
    else
      var k := |files| - 1;
      SizeAlerts(maxSizeMB, files[..k])
        + (if files[k].size > MaxBytes(maxSizeMB) then [SizeAlert(files[k].name, maxSizeMB)] else [])
  }

  function CountAlert(maxFiles: nat): string
  {
    "You can only upload a maximum of " + NatToString(maxFiles) + " files at once."
  }

  lemma ExtensionStep(allowed: seq<string>, files: seq<ClientFile>, i: nat)
    requires i < |files|
    ensures ExtensionValid(allowed, files[..i + 1])
         == ExtensionValid(allowed, files[..i]) + (if Allowed(allowed, files[i]) then [files[i]] else [])
  {
    assert files[..i + 1][..i] == files[..i];
  }

  lemma SizeStep(maxSizeMB: nat, files: seq<ClientFile>, i: nat)
    requires i < |files|
    ensures SizeValid(MaxBytes(maxSizeMB), files[..i + 1])
         == SizeValid(MaxBytes(maxSizeMB), files[..i]) + (if files[i].size <= MaxBytes(maxSizeMB) then [files[i]] else [])
    ensures SizeAlerts(maxSizeMB, files[..i + 1])
         == SizeAlerts(maxSizeMB, files[..i])
            + (if files[i].size > MaxBytes(maxSizeMB) then [SizeAlert(files[i].name, maxSizeMB)] else [])
  {
    assert files[..i + 1][..i] == files[..i];
  }

  /** The state of one upload area: its settings, the accepted files and the convert button. */
  class UploadArea {
    const allowedExtensions: seq<string>
    const maxFiles: nat
    const maxSizeMB: nat
    var accepted: seq<ClientFile>
    var convertDisabled: bool

    /** Every accepted file passed both filters, the count is within the maximum, and the button matches. */
    ghost predicate Valid()
      reads this
    {
      && |accepted| <= maxFiles
      && (forall i :: 0 <= i < |accepted| ==>
            Allowed(allowedExtensions, accepted[i]) && accepted[i].size <= MaxBytes(maxSizeMB))
      && (convertDisabled <==> accepted == [])
    }

    /** setupFileUpload: an empty list and a disabled button. */
    constructor (allowedExtensions: seq<string>, maxFiles: nat, maxSizeMB: nat)
      ensures Valid()
      ensures this.allowedExtensions == allowedExtensions && this.maxFiles == maxFiles && this.maxSizeMB == maxSizeMB
      ensures accepted == [] && convertDisabled
    {
      this.allowedExtensions := allowedExtensions;
      this.maxFiles := maxFiles;
      this.maxSizeMB := maxSizeMB;
      accepted := [];
      convertDisabled := true;
    }

    /**
     * handleFiles: the batch is refused with one alert, leaving everything as
     * it was, when its extension-valid files (oversized ones included) would
     * take the list past the maximum; otherwise the extension-valid files
     * within the size limit are appended in order, each oversized one raises
     * an alert, and the button is disabled exactly when the list is empty.
     */
    method HandleFiles(files: seq<ClientFile>) returns (alerts: seq<string>)
      requires Valid()
      modifies this
      ensures Valid()
      ensures var valid := ExtensionValid(allowedExtensions, files);
              if |old(accepted)| + |valid| > maxFiles then
                accepted == old(accepted) && convertDisabled == old(convertDisabled) && alerts == [CountAlert(maxFiles)]
              else
                accepted == old(accepted) + SizeValid(MaxBytes(maxSizeMB), valid)
                && alerts == SizeAlerts(maxSizeMB, valid)
    {
      var valid := FilterExtensions(allowedExtensions, files);
      if |accepted| + |valid| > maxFiles {
        return [CountAlert(maxFiles)];
      }
      var sizeValid;
      sizeValid, alerts := FilterSizes(maxSizeMB, valid);
      FiltersKeep(allowedExtensions, maxSizeMB, files);
      SizeValidIff(MaxBytes(maxSizeMB), valid);
      accepted := accepted + sizeValid;
      convertDisabled := !(|accepted| > 0);
    }

    /**
     * The delete button of entry `index`: that entry goes and the others keep
     * their order (splice past the end removes nothing); the button is then
     * disabled exactly when the list is empty.
     */
    method Delete(index: nat)
      requires Valid()
      modifies this
      ensures Valid()
      ensures accepted == if index < |old(accepted)| then old(accepted)[..index] + old(accepted)[index + 1..] else old(accepted)
    {
      if index < |accepted| {
        accepted := accepted[..index] + accepted[index + 1..];
      }
      convertDisabled := !(|accepted| > 0);
    }
  }

  /** files.filter(...) by extension. */
  method FilterExtensions(allowed: seq<string>, files: seq<ClientFile>) returns (valid: seq<ClientFile>)
    ensures valid == ExtensionValid(allowed, files)
  {
    valid := [];
    var i := 0;
    while i < |files|
      invariant 0 <= i <= |files|
      invariant valid == ExtensionValid(allowed, files[..i])
    {
      ExtensionStep(allowed, files, i);
      if ClientExt(files[i].name) in allowed {
        valid := valid + [files[i]];
      }
      i := i + 1;
    }
    assert files[..|files|] == files;
  }

  /** files.filter(...) by size, alerting for each file it drops. */
  method FilterSizes(maxSizeMB: nat, files: seq<ClientFile>) returns (kept: seq<ClientFile>, alerts: seq<string>)
    ensures kept == SizeValid(MaxBytes(maxSizeMB), files)
    ensures alerts == SizeAlerts(maxSizeMB, files)
  {
    var maxSizeBytes := maxSizeMB * 1024 * 1024;
    kept, alerts := [], [];
    var j := 0;
    while j < |files|
      invariant 0 <= j <= |files|
      invariant kept == SizeValid(maxSizeBytes, files[..j])
      invariant alerts == SizeAlerts(maxSizeMB, files[..j])
    {
      SizeStep(maxSizeMB, files, j);
      if files[j].size > maxSizeBytes {
        alerts := alerts + [SizeAlert(files[j].name, maxSizeMB)];
      } else {
        kept := kept + [files[j]];
      }
      j := j + 1;
    }
    assert files[..|files|] == files;
  }

  // ---------------------------------------------------------------------
  // What the filters keep

  /** The filter keeps exactly the files with an allowed extension, and no more of them than there were. */
  lemma {:induction false} ExtensionValidIff(allowed: seq<string>, files: seq<ClientFile>)
    ensures |ExtensionValid(allowed, files)| <= |files|
    ensures forall f :: f in ExtensionValid(allowed, files) <==> f in files && Allowed(allowed, f)
    decreases |files|
  {
    if files != [] {
      var k := |files| - 1;
      ExtensionValidIff(allowed, files[..k]);
      var last := files[k];
      var added := if Allowed(allowed, last) then [last] else [];
      assert ExtensionValid(allowed, files) == ExtensionValid(allowed, files[..k]) + added;
      assert files == files[..k] + [last];
      forall f ensures f in ExtensionValid(allowed, files) <==> f in files && Allowed(allowed, f) {
        assert f in files <==> f in files[..k] || f == last;
      }
    }
  }

  /** The size filter keeps exactly the files within the limit; it never lengthens the list. */
  lemma {:induction false} SizeValidIff(maxBytes: nat, files: seq<ClientFile>)
    ensures |SizeValid(maxBytes, files)| <= |files|
    ensures forall f :: f in SizeValid(maxBytes, files) <==> f in files && f.size <= maxBytes
    decreases |files|
  {
    if files != [] {
      var k := |files| - 1;
      SizeValidIff(maxBytes, files[..k]);
      assert files == files[..k] + [files[k]];
    }
  }

  /** One alert per file dropped by the size filter: the two together account for every file. */
  lemma {:induction false} SizeAlertsCount(maxSizeMB: nat, files: seq<ClientFile>)
    ensures |SizeValid(MaxBytes(maxSizeMB), files)| + |SizeAlerts(maxSizeMB, files)| == |files|
    decreases |files|
  {
    if files != [] {
      SizeAlertsCount(maxSizeMB, files[..|files| - 1]);
    }
  }

  /** What the two filters let through is allowed and within the size limit. */
  lemma FiltersKeep(allowed: seq<string>, maxSizeMB: nat, files: seq<ClientFile>)
    ensures var kept := SizeValid(MaxBytes(maxSizeMB), ExtensionValid(allowed, files));
            forall i :: 0 <= i < |kept| ==> Allowed(allowed, kept[i]) && kept[i].size <= MaxBytes(maxSizeMB)
  {
    var valid := ExtensionValid(allowed, files);
    var kept := SizeValid(MaxBytes(maxSizeMB), valid);
    ExtensionValidIff(allowed, files);
    SizeValidIff(MaxBytes(maxSizeMB), valid);
    forall i | 0 <= i < |kept| ensures Allowed(allowed, kept[i]) && kept[i].size <= MaxBytes(maxSizeMB) {
      assert kept[i] in kept;
    }
  }

  // ---------------------------------------------------------------------
  // The client's extension rule against the server's

  /** A name without a dot is its own extension: the whole name, lower-cased, after a dot. */
  lemma UndottedName(name: string)
    requires '.' !in name
    ensures ClientExt(name) == "." + ToLower(name)
  {
    SplitWithoutSeparator(name, '.');
  }

  /** "stem.ext" has the extension ".ext", lower-cased, whatever dots the stem holds. */
  lemma DottedName(stem: string, ext: string)
    requires '.' !in ext
    ensures ClientExt(stem + "." + ext) == "." + ToLower(ext)
  {
    var name := stem + "." + ext;
    var r := LastPart(name, '.');
    assert name[|stem|] == '.';
    assert r == name[|name| - |r|..];
    assert name[|name| - |ext|..] == ext;
  }

  /**
   * A file called just "png" passes the image area's filter, but the server's
   * filter finds no extension in it and turns the upload down.
   */
  lemma BareNameAcceptedThenRejected(size: nat)
    ensures Allowed(ImageExtensions, ClientFile("png", size))
    ensures Uploads.FileFilter(Uploads.ConvertImageRoute, "png").Reject?
  {
    BarePngClient(size);
    BarePngServer();
  }

  lemma BarePngClient(size: nat)
    ensures Allowed(ImageExtensions, ClientFile("png", size))
  {
    UndottedName("png");
    assert ToLower("png") == "png";
    assert ClientExt("png") == ImageExtensions[2];
  }

  lemma BarePngServer()
    ensures Uploads.FileFilter(Uploads.ConvertImageRoute, "png").Reject?
  {
    assert '.' !in "png";
    assert Uploads.UploadExt("png") == "";
  }

  /**
   * For a name "stem.ext" whose stem is not empty and has no '/', the client
   * and the server agree: a file the image area takes is taken by the image
   * route, and one the Word area takes by the Word route.
   */
  lemma ClientAgreesWithServer(stem: string, ext: string, size: nat)
    requires '/' !in stem && stem != [] && '/' !in ext && '.' !in ext && ext != []
    ensures Allowed(ImageExtensions, ClientFile(stem + "." + ext, size)) ==>
              Uploads.FileFilter(Uploads.ConvertImageRoute, stem + "." + ext).Accept?
    ensures Allowed(WordExtensions, ClientFile(stem + "." + ext, size)) ==>
              Uploads.FileFilter(Uploads.ConvertWordRoute, stem + "." + ext).Accept?
  {
    SameExtension(stem, ext);
    AgreeOnExtension(stem + "." + ext, size);
  }

  lemma SameExtension(stem: string, ext: string)
    requires '/' !in stem && stem != [] && '/' !in ext && '.' !in ext && ext != []
    ensures ClientExt(stem + "." + ext) == Uploads.UploadExt(stem + "." + ext)
  {
    DottedName(stem, ext);
    Uploads.UploadExtOf(stem, ext);
    Uploads.ToLowerDotted(ext);
  }

  lemma AgreeOnExtension(name: string, size: nat)
    requires ClientExt(name) == Uploads.UploadExt(name)
    ensures Allowed(ImageExtensions, ClientFile(name, size)) ==>
              Uploads.FileFilter(Uploads.ConvertImageRoute, name).Accept?
    ensures Allowed(WordExtensions, ClientFile(name, size)) ==>
              Uploads.FileFilter(Uploads.ConvertWordRoute, name).Accept?
  {
    ClientListsServed(ClientExt(name));
    ContainsSelf(Uploads.ConvertImageRoute);
    ContainsSelf(Uploads.ConvertWordRoute);
    Uploads.RouteAccepts(Uploads.ConvertImageRoute, name);
    Uploads.RouteAccepts(Uploads.ConvertWordRoute, name);
  }

  /** Every extension the client lists is one the server takes on the matching route. */
  lemma ClientListsServed(e: string)
    ensures e in ImageExtensions ==> e in Uploads.ImageTypes
    ensures e in WordExtensions ==> e in Uploads.WordTypes
  {
  }

  // ---------------------------------------------------------------------
  // File size display

  datatype SizeUnit = Bytes | KB | MB

  function UnitFactor(u: SizeUnit): nat
  {
    match u
    case Bytes => 1
    case KB => 1024
    case MB => 1024 * 1024
  }

  /** formatFileSize: the unit and the value shown before rounding to one decimal. */
  function FormatFileSize(bytes: nat): (r: (real, SizeUnit))
  {
    if bytes < 1024 then (bytes as real, Bytes)
    else if bytes < 1024 * 1024 then (bytes as real / 1024.0, KB)
    else (bytes as real / (1024.0 * 1024.0), MB)
  }

  /**
   * The value times its unit is the size, and the unit is the largest one
   * that keeps the value at least 1: below 1024 except in megabytes.
   */
  lemma FileSizeUnits(bytes: nat)
    ensures var (value, unit) := FormatFileSize(bytes);
            && value * UnitFactor(unit) as real == bytes as real
            && (unit == Bytes <==> bytes < 1024)
            && (unit == MB <==> bytes >= 1024 * 1024)
            && (unit != Bytes ==> value >= 1.0)
            && (unit != MB ==> value < 1024.0)
  {
  }
}
