/** Reading the inventory file: a missing file is refused first, then a table whose header
    lacks one of the three required columns. */
module ReadCsv {
  import opened Text

  /** The columns every inventory table must have, in the order they are reported. */
  const RequiredColumns: seq<string> := ["ITEM_NO", "DESCRIPTION", "VENDOR_NAME"]

  /** The message that starts the report of missing columns. */
  const MissingPrefix: string := "Missing required columns: "

  /** What reading gives: the table (here its header), or the error raised. */
  datatype ReadResult = Loaded(header: seq<string>) | FileNotFoundError(message: string) | ValueError(message: string)

  /** `[col for col in wanted if col not in header]`. */
  function Absent(wanted: seq<string>, header: seq<string>): (missing: seq<string>)
    ensures |missing| <= |wanted|
    ensures forall c :: c in missing <==> c in wanted && c !in header
  {
    if wanted == [] then []
    else (if wanted[0] in header then [] else [wanted[0]]) + Absent(wanted[1..], header)
  }

  /** `r` is `s` with some elements left out, the rest kept in their order. */
  predicate Subsequence(r: seq<string>, s: seq<string>)
    decreases |s|
  {
    if r == [] then true
    else if s == [] then false
    else (r[0] == s[0] && Subsequence(r[1..], s[1..])) || Subsequence(r, s[1..])
  }

  /** The missing columns keep the order of the list they are taken from. */
  lemma {:induction false} AbsentKeepsOrder(wanted: seq<string>, header: seq<string>)
    ensures Subsequence(Absent(wanted, header), wanted)
  {
    if wanted != [] {
      AbsentKeepsOrder(wanted[1..], header);
      var rest := Absent(wanted[1..], header);
      if wanted[0] in header {
        assert Absent(wanted, header) == rest;
        if rest != [] {
          assert Subsequence(rest, wanted);
        }
      } else {
        assert Absent(wanted, header) == [wanted[0]] + rest;
        assert ([wanted[0]] + rest)[1..] == rest;
      }
    }
  }

  /** `read_inventory_csv` on a path that exists or not, whose table has header `header`. */
  function ReadInventoryCsv(path: string, fileExists: bool, header: seq<string>): (r: ReadResult)
    ensures !fileExists ==> r.FileNotFoundError?
    ensures fileExists ==> (r.ValueError? <==> Absent(RequiredColumns, header) != [])
    ensures r.Loaded? ==> r.header == header
  {
    if !fileExists then FileNotFoundError("File not found: " + path)
    else
      var missing := Absent(RequiredColumns, header);
      if missing != [] then ValueError(MissingPrefix + Join(missing, ", "))
      else Loaded(header)
  }

  /** A table is loaded exactly when the file exists and its header has all three required
      columns; nothing else about the header matters. */
  lemma LoadedIff(path: string, fileExists: bool, header: seq<string>)
    ensures ReadInventoryCsv(path, fileExists, header).Loaded? <==>
      fileExists && forall c :: c in RequiredColumns ==> c in header
  {
    var missing := Absent(RequiredColumns, header);
    if missing != [] {
      assert missing[0] in missing;
    }
  }

  /** The error for missing columns names them, joined by ", ", in the order ITEM_NO,
      DESCRIPTION, VENDOR_NAME. */
  lemma MissingColumnsMessage(path: string, header: seq<string>)
    requires "ITEM_NO" !in header && "VENDOR_NAME" !in header && "DESCRIPTION" in header
    ensures ReadInventoryCsv(path, true, header) == ValueError(MissingPrefix + "ITEM_NO, VENDOR_NAME")
  {
    FirstAndLastAbsent("ITEM_NO", "DESCRIPTION", "VENDOR_NAME", header);
    JoinPair("ITEM_NO", "VENDOR_NAME", ", ");
  }

  lemma FirstAndLastAbsent(x: string, y: string, z: string, header: seq<string>)
    requires x !in header && y in header && z !in header
    ensures Absent([x, y, z], header) == [x, z]
  {
    var tail: seq<string> := [z];
    assert tail[1..] == [];
    assert [y, z][1..] == tail;
    assert [x, y, z][1..] == [y, z];
  }

  lemma JoinPair(a: string, b: string, sep: string)
    ensures Join([a, b], sep) == a + sep + b
  {
    assert [a, b][1..] == [b];
  }

  /** A header with only the three required columns, none of the other columns a full
      export carries, is loaded: those are never checked. */
  lemma OnlyRequiredColumnsLoaded(path: string)
    ensures ReadInventoryCsv(path, true, RequiredColumns) == Loaded(RequiredColumns)
  {
    LoadedIff(path, true, RequiredColumns);
  }

  /** A missing file is reported before the header is looked at. */
  lemma MissingFileFirst(path: string, header: seq<string>, other: seq<string>)
    ensures ReadInventoryCsv(path, false, header) == ReadInventoryCsv(path, false, other)
    ensures ReadInventoryCsv(path, false, header) == FileNotFoundError("File not found: " + path)
  {
  }
}
