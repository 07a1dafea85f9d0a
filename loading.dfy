/** The entries a local repo loads: every parsed file of the glob contributes its records in
    file order, and a file whose parse raised contributes nothing. */
module Loading {
  import opened Records

  /** One entry a parsed file contributes: the file, the citation key, the record. */
  datatype Row = Row(path: string, key: string, pyb: PybEntry)

  function FileRows(path: string, ps: seq<(string, PybEntry)>): (r: seq<Row>)
    ensures |r| == |ps|
    ensures forall k :: 0 <= k < |ps| ==> r[k] == Row(path, ps[k].0, ps[k].1)
  {
    seq(|ps|, k requires 0 <= k < |ps| => Row(path, ps[k].0, ps[k].1))
  }

  /** The rows of all files in glob order; a file whose parse raised (`None`) is skipped. */
  function Rows(files: seq<string>, parsed: seq<Option<seq<(string, PybEntry)>>>): seq<Row>
    requires |files| == |parsed|
  {
    if files == [] then []
    else
      var n := |files| - 1;
      Rows(files[..n], parsed[..n]) + (match parsed[n] case None => [] case Some(ps) => FileRows(files[n], ps))
  }

  /** Every loaded entry comes from one of the files the glob matched. */
  lemma {:induction false} RowsComeFromFiles(files: seq<string>, parsed: seq<Option<seq<(string, PybEntry)>>>)
    requires |files| == |parsed|
    ensures forall j :: 0 <= j < |Rows(files, parsed)| ==> Rows(files, parsed)[j].path in files
  {
    if files != [] {
      var n := |files| - 1;
      RowsComeFromFiles(files[..n], parsed[..n]);
      var before := Rows(files[..n], parsed[..n]);
      forall j | 0 <= j < |Rows(files, parsed)|
        ensures Rows(files, parsed)[j].path in files
      {
        if j < |before| {
          assert Rows(files, parsed)[j] == before[j];
          assert before[j].path in files[..n];
        }
      }
    }
  }
}
