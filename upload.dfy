/** The upload form of the web front end: which file names it accepts, and the name under
    which an accepted upload is stored. */
module Upload {
  import opened Text

  /** The extensions the form accepts. */
  const AllowedExtensions: set<string> := {"csv", "xlsx"}

  /** `filename.rsplit('.', 1)[1]` for a name that holds a dot: everything after the last dot. */
  function Extension(filename: string): (ext: string)
    requires '.' in filename
    ensures '.' !in ext
    ensures exists i :: 0 <= i < |filename| && filename[i] == '.' && ext == filename[i + 1..]
  {
    var i := LastIndexOf(filename, '.');
    var ext := filename[i + 1..];
    assert forall k :: 0 <= k < |ext| ==> ext[k] == filename[i + 1 + k];
    ext
  }

  /** `allowed_files`: the name has a dot and the text after its last dot, lower-cased, is an
      allowed extension. */
  predicate AllowedFile(filename: string): (ok: bool)
    ensures ok ==> |filename| >= 4
  {
    '.' in filename && Lower(Extension(filename)) in AllowedExtensions
  }

  /** A name is accepted exactly when it splits as `stem + "." + ext` where `ext` holds no
      dot and is "csv" or "xlsx" in any mix of upper and lower case. */
  lemma AllowedFileIff(filename: string)
    ensures AllowedFile(filename) <==>
      exists stem, ext :: filename == stem + "." + ext && '.' !in ext && Lower(ext) in AllowedExtensions
  {
    if AllowedFile(filename) {
      var i := LastIndexOf(filename, '.');
      var stem, ext := filename[..i], filename[i + 1..];
      assert filename == stem + "." + ext;
    }
    if exists stem, ext :: filename == stem + "." + ext && '.' !in ext && Lower(ext) in AllowedExtensions {
      var stem, ext :| filename == stem + "." + ext && '.' !in ext && Lower(ext) in AllowedExtensions;
      assert filename[|stem|] == '.';
      LastDotSplit(stem, ext);
    }
  }

  /** When the piece after a dot holds no dot, it is the extension. */
  lemma LastDotSplit(stem: string, ext: string)
    requires '.' !in ext
    ensures '.' in stem + "." + ext
    ensures Extension(stem + "." + ext) == ext
  {
    var name := stem + "." + ext;
    assert name[|stem|] == '.';
    forall k | |stem| < k < |name| ensures name[k] != '.' {
      assert name[k] == ext[k - |stem| - 1];
    }
    var i := LastIndexOf(name, '.');
    assert i == |stem|;
    assert name[i + 1..] == ext;
  }

  /** A name without a dot is refused. */
  lemma NoDotRejected(filename: string)
    requires forall k :: 0 <= k < |filename| ==> filename[k] != '.'
    ensures !AllowedFile(filename)
  {
  }

  /** Only the extension after the last dot decides, whatever dots the stem holds:
      "report.csv.txt" is refused and "archive.tar.xlsx" is accepted. */
  lemma LastExtensionDecides(stem: string)
    ensures !AllowedFile(stem + ".txt")
    ensures AllowedFile(stem + ".xlsx")
  {
    TextRefused(stem);
    WorkbookAccepted(stem);
  }

  /** "<stem>.txt" is refused. */
  lemma TextRefused(stem: string)
    ensures !AllowedFile(stem + ".txt")
  {
    var ext := "txt";
    assert ext[0] == 't' && ext[1] == 'x' && ext[2] == 't' && |ext| == 3;
    ExtensionDecides(stem, ext);
    assert stem + "." + ext == stem + ".txt";
    LowerUnchanged(ext);
  }

  /** "<stem>.xlsx" is accepted. */
  lemma WorkbookAccepted(stem: string)
    ensures AllowedFile(stem + ".xlsx")
  {
    var ext := "xlsx";
    assert ext[0] == 'x' && ext[1] == 'l' && ext[2] == 's' && ext[3] == 'x' && |ext| == 4;
    ExtensionDecides(stem, ext);
    assert stem + "." + ext == stem + ".xlsx";
    LowerUnchanged(ext);
  }

  /** A name ending in a dot-free extension is accepted exactly when that extension is. */
  lemma ExtensionDecides(stem: string, ext: string)
    requires '.' !in ext
    ensures AllowedFile(stem + "." + ext) <==> Lower(ext) in AllowedExtensions
  {
    LastDotSplit(stem, ext);
  }

  /** The comparison ignores case: "DATA.CSV" is accepted. */
  lemma UpperCaseAccepted(stem: string)
    ensures AllowedFile(stem + ".CSV")
  {
    LastDotSplit(stem, "CSV");
    assert stem + "." + "CSV" == stem + ".CSV";
    assert Lower("CSV") == "csv";
  }

  /** A trailing dot leaves an empty extension, which is refused: "file." is refused. */
  lemma TrailingDotRejected(stem: string)
    ensures !AllowedFile(stem + ".")
  {
    LastDotSplit(stem, "");
    assert stem + "." + "" == stem + ".";
  }

  /** The name an accepted upload is stored under: the unique id, an underscore, and the
      sanitised original name. */
  function StoredFilename(uniqueId: string, originalName: string): (stored: string)
    ensures |stored| == |uniqueId| + 1 + |originalName|
  {
    uniqueId + "_" + originalName
  }

  /** An id without an underscore (a UUID is written with hyphens) is recovered from the
      stored name as the text before its first underscore, and the original name as the text
      after it. */
  lemma StoredFilenameSplits(uniqueId: string, originalName: string)
    requires '_' !in uniqueId
    ensures '_' in StoredFilename(uniqueId, originalName)
    ensures var stored := StoredFilename(uniqueId, originalName);
      var i := IndexOf(stored, '_');
      stored[..i] == uniqueId && stored[i + 1..] == originalName
  {
    var stored := StoredFilename(uniqueId, originalName);
    assert stored[|uniqueId|] == '_';
    assert stored[..|uniqueId|] == uniqueId;
    IndexOfAt(stored, '_', |uniqueId|);
    assert stored[|uniqueId| + 1..] == originalName;
  }
}
