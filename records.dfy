/** What a bibliography entry exposes to the search core, the composite key that the
    selection panel uses, the author abbreviation, and the names the status, access-type
    and mark setters accept. */
module Records {

  datatype Option<+T> = None | Some(value: T)

  /** A parsed pybtex entry: its fields and its persons, as opaque text. */
  datatype PybEntry = PybEntry(fields: map<string, string>, persons: map<string, seq<string>>)

  /** The `info` object of one DBLP search hit; a member the JSON lacks is `None`. */
  datatype DblpInfo = DblpInfo(title: Option<string>, authors: Option<seq<string>>, key: string)

  /** The two kinds of entry: one parsed from a local file, one returned by DBLP. A DBLP entry's
      key (the last path component of its DBLP key and a SHA-1 prefix) and its lazily fetched
      pybtex record (`None` when the fetch failed) are given as they were computed. */
  datatype Payload =
    | Bibtex(key: string, pyb: PybEntry)
    | Dblp(info: DblpInfo, bibkey: string, fetched: Option<PybEntry>)

  const Unknown := "Unknown"

  /** The `title` property: the title field, or "Unknown" when there is none. */
  function Title(p: Payload): string {
    match p
    case Bibtex(_, pyb) => if "title" in pyb.fields then pyb.fields["title"] else Unknown
    case Dblp(info, _, _) => if info.title.Some? then info.title.value else Unknown
  }

  /** The `authors` property: the author list, or ["Unknown"] when there is none. */
  function Authors(p: Payload): seq<string> {
    match p
    case Bibtex(_, pyb) => if "author" in pyb.persons then pyb.persons["author"] else [Unknown]
    case Dblp(info, _, _) =>
      if info.authors.Some? && info.authors.value != [] then info.authors.value else [Unknown]
  }

  function BibKey(p: Payload): string {
    match p
    case Bibtex(key, _) => key
    case Dblp(_, bibkey, _) => bibkey
  }

  /** The `pyb_entry` property; `None` is Python's None. */
  function PybOf(p: Payload): Option<PybEntry> {
    match p
    case Bibtex(_, pyb) => Some(pyb)
    case Dblp(_, _, fetched) => fetched
  }

  const Separator := "::"

  /** `unique_key`: the entry's source, "::", and its bibkey. */
  function UniqueKey(source: string, bibkey: string): string {
    source + Separator + bibkey
  }

  predicate HasSeparatorAt(s: string, i: int) {
    0 <= i && i + 1 < |s| && s[i] == ':' && s[i + 1] == ':'
  }

  predicate HasSeparator(s: string) {
    exists i :: 0 <= i < |s| && HasSeparatorAt(s, i)
  }

  /** Every unique key carries the separator right after the source. */
  lemma UniqueKeyCarriesSeparator(source: string, bibkey: string)
    ensures HasSeparatorAt(UniqueKey(source, bibkey), |source|)
    ensures HasSeparator(UniqueKey(source, bibkey))
  {
    var u := UniqueKey(source, bibkey);
    assert u[|source|] == ':' && u[|source| + 1] == ':';
    assert HasSeparatorAt(u, |source|);
  }

  /** A bibkey without "::" is never equal to any unique key. */
  lemma BibKeyIsNoUniqueKey(bibkey: string, source: string, key: string)
    requires !HasSeparator(bibkey)
    ensures bibkey != UniqueKey(source, key)
  {
    UniqueKeyCarriesSeparator(source, key);
  }

  /** When sources contain no ':' the unique key determines the source and the bibkey. */
  lemma UniqueKeyInjective(s1: string, k1: string, s2: string, k2: string)
    requires ':' !in s1 && ':' !in s2
    requires UniqueKey(s1, k1) == UniqueKey(s2, k2)
    ensures s1 == s2 && k1 == k2
  {
    var u := UniqueKey(s1, k1);
    if |s1| < |s2| {
      ShorterSourceMeetsColon(s1, k1, s2, k2);
      assert false;
    } else if |s2| < |s1| {
      ShorterSourceMeetsColon(s2, k2, s1, k1);
      assert false;
    }
    assert s1 == u[..|s1|] && s2 == u[..|s2|];
    assert k1 == u[|s1| + 2..] && k2 == u[|s2| + 2..];
  }

  lemma ShorterSourceMeetsColon(s1: string, k1: string, s2: string, k2: string)
    requires |s1| < |s2| && UniqueKey(s1, k1) == UniqueKey(s2, k2)
    ensures ':' in s2
  {
    var u := UniqueKey(s1, k1);
    assert s2[|s1|] == u[|s1|] == ':';
  }

  /** Without that restriction two different entries can share a unique key. */
  lemma UniqueKeyCollides()
    ensures UniqueKey("a::b", "c") == UniqueKey("a", "b::c")
  {
  }

  /** `abbrev_authors`: the first author alone, or followed by " et al" when there are more
      (or fewer) than one; `None` stands for the `IndexError` of an empty author list. */
  function AbbrevAuthors(authors: seq<string>): Option<string> {
    if |authors| == 0 then None
    else if |authors| == 1 then Some(authors[0])
    else Some(authors[0] + " et al")
  }

  lemma AbbrevNamesFirstAuthor(authors: seq<string>)
    ensures AbbrevAuthors(authors).None? <==> authors == []
    ensures AbbrevAuthors(authors).Some? ==>
      var a := AbbrevAuthors(authors).value;
      |a| >= |authors[0]| && a[..|authors[0]|] == authors[0] && (a == authors[0] <==> |authors| == 1)
  {
    if |authors| > 1 {
      var a := authors[0] + " et al";
      assert |a| > |authors[0]|;
    }
  }

  /** The status names the repo status setter knows. */
  datatype Status = Initialized | Loading | Searching | Ready | NoFile

  function StatusName(s: Status): string {
    match s
    case Initialized => "initialized"
    case Loading => "loading"
    case Searching => "searching"
    case Ready => "ready"
    case NoFile => "no file"
  }

  /** The status setter's chain of tests (current snapshot): one of the five names, or an error. */
  function ParseStatus(name: string): Option<Status> {
    if name == "initialized" then Some(Initialized)
    else if name == "loading" then Some(Loading)
    else if name == "searching" then Some(Searching)
    else if name == "ready" then Some(Ready)
    else if name == "no file" then Some(NoFile)
    else None
  }

  /** The older snapshot's `UpdateStatus` knows four of them: there is no "no file". */
  function ParseLegacyStatus(name: string): Option<Status> {
    if name == "initialized" then Some(Initialized)
    else if name == "loading" then Some(Loading)
    else if name == "searching" then Some(Searching)
    else if name == "ready" then Some(Ready)
    else None
  }

  lemma {:induction false} StatusNamesRoundTrip(s: Status, name: string)
    ensures ParseStatus(StatusName(s)) == Some(s)
    ensures ParseStatus(name) == Some(s) ==> StatusName(s) == name
  {
    match s
    case Initialized =>
    case Loading =>
    case Searching =>
    case Ready =>
    case NoFile =>
  }

  lemma LegacyStatusLacksNoFile(name: string, s: Status)
    ensures ParseLegacyStatus(name) == Some(s) <==> ParseStatus(name) == Some(s) && s != NoFile
  {
  }

  datatype Access = ReadOnly | ReadWrite

  function AccessName(a: Access): string {
    match a
    case ReadOnly => "ro"
    case ReadWrite => "rw"
  }

  /** The `access_type` setter's tests: "ro" or "rw", anything else is a `ValueError`. */
  function ParseAccess(name: string): Option<Access> {
    if name == "ro" then Some(ReadOnly)
    else if name == "rw" then Some(ReadWrite)
    else None
  }

  lemma AccessNamesRoundTrip(a: Access, name: string)
    ensures ParseAccess(AccessName(a)) == Some(a)
    ensures ParseAccess(name) == Some(a) ==> AccessName(a) == name
  {
  }

  const SelectedMark := "selected"

  /** The mark setter accepts None and "selected"; anything else raises. */
  predicate ValidMark(m: Option<string>) {
    m == None || m == Some(SelectedMark)
  }
}
