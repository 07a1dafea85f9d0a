/** The search core of the current snapshot (`source/main.py`): entries and their marks, the
    per-repo loader and searcher (each thread a set of step methods on its repo, with the thread's
    position held in a field), the generation-gated result panel, the selection panel, the search
    bar that hands out serials, the key filter that enables and disables repos, and the merge
    that the output repo writes. */
module Bibrarian {
  import opened Text
  import opened Dicts
  import opened Records
  import opened Matching
  import opened WriteBack
  import opened KeyInput
  import opened Loading

  /** A `BibtexRepo` reads a glob of local files; a `DblpRepo` asks dblp.org. */
  datatype Kind = Local | Remote

  /** Where the loading thread is. */
  datatype Loader = NotStarted | Reading | Loaded

  /** Where the searching thread is: waiting for the load, waiting for a request, inside one
      pass over the results `stream` (having delivered the first `next`), or gone. */
  datatype Searcher =
    | AwaitLoad
    | Idle
    | Passing(captured: int, stream: seq<Entry>, next: nat)
    | Exited

  /** A search hit or a parsed record, together with the repo it came from and its mark. */
  class Entry {
    const repo: BibRepo
    const source: string
    const payload: Payload
    var mark: Option<string>

    constructor (source: string, payload: Payload, repo: BibRepo)
      ensures this.source == source && this.payload == payload && this.repo == repo
      ensures mark == None
    {
      this.source := source;
      this.payload := payload;
      this.repo := repo;
      mark := None;
    }

    function Title(): string {
      Records.Title(payload)
    }

    function Authors(): seq<string> {
      Records.Authors(payload)
    }

    function BibKey(): string {
      Records.BibKey(payload)
    }

    function UniqueKey(): string {
      Records.UniqueKey(source, BibKey())
    }

    /** The `mark` setter: the value is stored first, and only then is anything other than
        `None` or "selected" refused with an exception (`ok` is false). */
    method SetMark(value: Option<string>) returns (ok: bool)
      modifies this
      ensures mark == value
      ensures ok <==> ValidMark(value)
    {
      mark := value;
      ok := ValidMark(value);
    }
  }

  /** The entries of `es` are the rows, one for one and in order. */
  predicate Holds(es: seq<Entry>, rows: seq<Row>) {
    && |es| == |rows|
    && forall j :: 0 <= j < |es| ==>
         es[j].source == rows[j].path && es[j].payload == Bibtex(rows[j].key, rows[j].pyb)
  }

  lemma HoldsAppend(es: seq<Entry>, rows: seq<Row>, more: seq<Entry>, moreRows: seq<Row>)
    requires Holds(es, rows) && Holds(more, moreRows)
    ensures Holds(es + more, rows + moreRows)
  {
  }

  /** `SearchResultsPanel`: the results of the newest search only. */
  class SearchResultsPanel {
    var serial: int
    var items: seq<Entry>

    constructor ()
      ensures serial == 0 && items == []
    {
      serial := 0;
      items := [];
    }

    /** The `serial` setter: a new generation starts empty. */
    method SetSerial(value: int)
      modifies this
      ensures serial == value && items == []
    {
      serial := value;
      items := [];
    }

    /** A result is kept only when it belongs to the current generation. */
    method Add(entry: Entry, s: int)
      modifies this
      ensures serial == old(serial)
      ensures items == if s == old(serial) then old(items) + [entry] else old(items)
    {
      if serial == s {
        items := items + [entry];
      }
    }

    /** `SyncDisplay`: the results whose repo is enabled, in arrival order. */
    function View(): (r: seq<Entry>)
      reads this, set e | e in items :: e.repo
      ensures forall i :: 0 <= i < |r| ==> r[i] in items && r[i].repo.enabled
      ensures forall i :: 0 <= i < |items| && items[i].repo.enabled ==> items[i] in r
      ensures Subsequence(r, items)
      ensures forall x :: x in items ==> multiset(r)[x] == if x.repo.enabled then multiset(items)[x] else 0
    {
      ShownCounts(items);
      Shown(items)
    }
  }

  function Shown(s: seq<Entry>): (r: seq<Entry>)
    reads set e | e in s :: e.repo
    ensures forall i :: 0 <= i < |r| ==> r[i] in s && r[i].repo.enabled
    ensures forall i :: 0 <= i < |s| && s[i].repo.enabled ==> s[i] in r
    ensures Subsequence(r, s)
  {
    if s == [] then []
    else
      var rest := Shown(s[1..]);
      if s[0].repo.enabled then
        assert ([s[0]] + rest)[1..] == rest;
        [s[0]] + rest
      else rest
  }

  /** Every copy of an item from an enabled repo is shown, and no copy of one from a disabled
      repo. */
  lemma {:induction false} ShownCounts(s: seq<Entry>)
    ensures forall x :: x in s ==> multiset(Shown(s))[x] == if x.repo.enabled then multiset(s)[x] else 0
  {
    if s != [] {
      ShownCounts(s[1..]);
      var rest := Shown(s[1..]);
      assert s == [s[0]] + s[1..];
      assert multiset(s) == multiset{s[0]} + multiset(s[1..]);
      assert multiset(Shown(s)) == (if s[0].repo.enabled then multiset{s[0]} else multiset{}) + multiset(rest);
      forall x | x in s
        ensures multiset(Shown(s))[x] == if x.repo.enabled then multiset(s)[x] else 0
      {
        if x !in s[1..] {
          assert x !in rest;
        }
      }
    }
  }

  /** A panel reset to a newer serial ignores a result of the older search. */
  method StaleResultIgnored(e: Entry, older: int, newer: int) returns (shown: seq<Entry>)
    requires older != newer
    ensures shown == []
  {
    var panel := new SearchResultsPanel();
    panel.SetSerial(older);
    panel.SetSerial(newer);
    panel.Add(e, older);
    shown := panel.items;
  }

  /** `SelectedKeysPanel`: the selection, keyed by unique key. */
  class SelectedKeysPanel {
    var entries: Dict<Entry>
    const keysOutput: Option<string>

    ghost predicate Valid()
      reads this
    {
      && entries.Valid()
      && forall k :: k in entries.m ==> entries.m[k].UniqueKey() == k
    }

    constructor (keysOutput: Option<string>)
      ensures Valid() && entries == Empty() && this.keysOutput == keysOutput
    {
      entries := Empty();
      this.keysOutput := keysOutput;
    }

    /** Select an unselected entry, or drop a selected one, and mark it to match. */
    method Toggle(entry: Entry)
      requires Valid()
      modifies this, entry
      ensures Valid()
      ensures entries == Toggled(old(entries), entry)
      ensures entry.mark == if entry.UniqueKey() in old(entries.m) then None else Some(SelectedMark)
      ensures entry.mark == Some(SelectedMark) <==> entry.UniqueKey() in entries.m
    {
      var key := entry.UniqueKey();
      if key in entries.m {
        entries := Delete(entries, key);
        var _ := entry.SetMark(None);
      } else {
        entries := Put(entries, key, entry);
        var _ := entry.SetMark(Some(SelectedMark));
      }
    }

    method Add(entry: Entry)
      requires Valid()
      modifies this
      ensures Valid()
      ensures entries == Put(old(entries), entry.UniqueKey(), entry)
    {
      entries := Put(entries, entry.UniqueKey(), entry);
    }

    /** `Write`: nothing without a keys file, otherwise the bibkeys of the selection in
        selection order, separated by commas. */
    method KeyList() returns (r: Option<(string, string)>)
      requires Valid()
      ensures keysOutput.None? <==> r.None?
      ensures r.Some? ==> r.value.0 == keysOutput.value
      ensures r.Some? ==> r.value.1 == Join(',', BibKeys(Values(entries)))
    {
      if keysOutput.None? {
        return None;
      }
      return Some((keysOutput.value, Join(',', BibKeys(Values(entries)))));
    }
  }

  function BibKeys(es: seq<Entry>): (r: seq<string>)
    ensures |r| == |es| && forall i :: 0 <= i < |es| ==> r[i] == es[i].BibKey()
  {
    seq(|es|, i requires 0 <= i < |es| => es[i].BibKey())
  }

  /** The selection after a toggle of `e`. */
  function Toggled(d: Dict<Entry>, e: Entry): (r: Dict<Entry>)
    requires d.Valid()
    ensures r.Valid()
  {
    if e.UniqueKey() in d.m then Delete(d, e.UniqueKey()) else Put(d, e.UniqueKey(), e)
  }

  /** A toggle touches the entry's own unique key only. */
  lemma ToggleTouchesOneKey(d: Dict<Entry>, e: Entry, k: string)
    requires d.Valid() && k != e.UniqueKey()
    ensures k in Toggled(d, e).m <==> k in d.m
    ensures k in d.m ==> Toggled(d, e).m[k] == d.m[k]
    ensures e.UniqueKey() in Toggled(d, e).m <==> e.UniqueKey() !in d.m
  {
  }

  /** Toggling the same entry twice restores the selection: exactly, when it was not selected;
      with `e` in the place of the entry that had its unique key, when it was. */
  lemma ToggleTwice(d: Dict<Entry>, e: Entry)
    requires d.Valid()
    ensures Toggled(Toggled(d, e), e).m.Keys == d.m.Keys
    ensures e.UniqueKey() !in d.m ==> Toggled(Toggled(d, e), e) == d
    ensures e.UniqueKey() in d.m ==> Toggled(Toggled(d, e), e).m == d.m[e.UniqueKey() := e]
  {
    var k := e.UniqueKey();
    if k !in d.m {
      DeleteAfterInsert(d, k, e);
    } else {
      InsertAfterDelete(d, k, e);
    }
  }

  /** Two presses of the selection key on the same entry give back the selected keys, and the
      entry's mark ends as it reads from the selection it started with. */
  method ToggleTwiceRestoresMark(panel: SelectedKeysPanel, entry: Entry)
    requires panel.Valid()
    modifies panel, entry
    ensures panel.Valid() && panel.entries.m.Keys == old(panel.entries.m.Keys)
    ensures entry.mark == if entry.UniqueKey() in old(panel.entries.m) then Some(SelectedMark) else None
  {
    ghost var before := panel.entries;
    panel.Toggle(entry);
    panel.Toggle(entry);
    ToggleTwice(before, entry);
  }

  /** With the keys file set and no bibkey containing a comma, the written list splits back
      into the bibkeys of the selection. */
  lemma KeyListRoundTrip(p: SelectedKeysPanel)
    requires p.Valid() && p.entries.order != []
    requires forall e :: e in Values(p.entries) ==> ',' !in e.BibKey()
    ensures SplitOn(',', Join(',', BibKeys(Values(p.entries)))) == BibKeys(Values(p.entries))
  {
    var keys := BibKeys(Values(p.entries));
    forall k | 0 <= k < |keys|
      ensures ',' !in keys[k]
    {
      assert Values(p.entries)[k] in Values(p.entries);
    }
    SplitOnJoin(',', keys);
  }

  /** The searcher looks an item up by its bibkey in a map keyed by unique keys, so an item
      whose bibkey has no "::" in it is never marked as selected. */
  lemma SearchMarkMissesSelection(p: SelectedKeysPanel, item: Entry)
    requires p.Valid() && !HasSeparator(item.BibKey())
    ensures item.BibKey() !in p.entries.m
  {
    if item.BibKey() in p.entries.m {
      var owner := p.entries.m[item.BibKey()];
      BibKeyIsNoUniqueKey(item.BibKey(), owner.source, owner.BibKey());
      assert false;
    }
  }

  /** The `(bibkey, pyb_entry)` pairs of a dict comprehension over entries. */
  function Pairs(es: seq<Entry>): (r: seq<Pair>)
    ensures |r| == |es|
    ensures forall i :: 0 <= i < |es| ==> r[i] == (es[i].BibKey(), PybOf(es[i].payload))
  {
    seq(|es|, i requires 0 <= i < |es| => (es[i].BibKey(), PybOf(es[i].payload)))
  }

  /** Where `OutputBibtexRepo` writes: its one matched file or, when the glob matched nothing,
      the fallback path. */
  function OutputFileOr(fallback: string, files: seq<string>): (f: string)
    ensures f in files || f == fallback
    ensures files == [] ==> f == fallback
  {
    if files != [] then files[0] else fallback
  }

  function TitleOf(e: Entry): string {
    e.Title()
  }

  function AuthorsOf(e: Entry): seq<string> {
    e.Authors()
  }

  /** What a repo is set to and attached to: its enabled flag, its access type, whether it is
      the output repo and where that writes, and its three panels. Neither thread changes it. */
  datatype Wires = Wires(
    enabled: bool, access: Access, isOutput: bool, outputFile: string,
    results: SearchResultsPanel?, selectedEntries: SelectedKeysPanel?, selectedKeys: SelectedKeysPanel?)

  /** A repository: a `BibtexRepo` over a glob, which may be the read-write `OutputBibtexRepo`,
      or the `DblpRepo`. `glob` is the text the repo was configured with and `source` its
      expansion (`expandvars` after `expanduser`, given as a parameter); for DBLP both are the
      site's address. */
  class BibRepo {
    const glob: string
    const source: string
    const kind: Kind
    var enabled: bool
    var access: Access
    var status: string
    var serial: int
    var searchText: string
    /** The `searching_done` event: a request is waiting to be served. */
    var pending: bool
    /** The `loading_done` event. */
    var loadingDone: bool
    var loader: Loader
    var searcher: Searcher
    var bibFiles: seq<string>
    var bibEntries: seq<Entry>
    var isOutput: bool
    var outputFile: string
    var searchResultsPanel: SearchResultsPanel?
    var selectedEntriesPanel: SelectedKeysPanel?
    var selectedKeysPanel: SelectedKeysPanel?

    /** Where the two threads are and what the loader found. */
    function Threads(): (Loader, Searcher, bool, seq<string>, seq<Entry>)
      reads this
    {
      (loader, searcher, loadingDone, bibFiles, bibEntries)
    }

    /** The last request posted, and whether it waits. */
    function Requests(): (int, string, bool)
      reads this
    {
      (serial, searchText, pending)
    }

    /** What the loader found. */
    function Found(): (seq<string>, seq<Entry>)
      reads this
    {
      (bibFiles, bibEntries)
    }

    function Wiring(): Wires
      reads this
    {
      Wires(enabled, access, isOutput, outputFile, searchResultsPanel, selectedEntriesPanel, selectedKeysPanel)
    }

    /** The state the two threads share, which `Search` and the key filter leave alone. */
    function Protocol(): (string, (Loader, Searcher, bool, seq<string>, seq<Entry>))
      reads this
    {
      (status, Threads())
    }

    /** How the threads' positions and the status go together. */
    ghost predicate Valid()
      reads this
    {
      && ParseStatus(status).Some?
      && (loader == NotStarted ==> status == "initialized")
      && (loader == Reading ==> status == "loading")
      && (loader != Loaded ==> bibFiles == [] && bibEntries == [])
      && (loadingDone <==> loader == Loaded)
      && (!loadingDone ==> searcher == AwaitLoad)
      && (loadingDone && searcher == AwaitLoad ==> status == "ready" || status == "no file")
      && (searcher == Idle ==> status == "ready")
      && (searcher.Passing? ==> status == "searching" && searcher.next <= |searcher.stream|)
      && (searcher == Exited ==> status == "no file")
      && (status == "no file" ==>
            loadingDone && kind == Local && bibFiles == [] && searcher in {AwaitLoad, Exited})
    }

    /** `BibRepo.__init__`, before either thread has run. */
    constructor (glob: string, source: string, kind: Kind, enabled: bool)
      ensures Valid()
      ensures this.glob == glob && this.source == source && this.kind == kind && this.enabled == enabled
      ensures serial == 0 && access == ReadOnly && status == "initialized"
      ensures loader == NotStarted && searcher == AwaitLoad && !pending
      ensures searchResultsPanel == null && selectedEntriesPanel == null && selectedKeysPanel == null
      ensures bibFiles == [] && bibEntries == [] && !isOutput
    {
      this.glob := glob;
      this.source := source;
      this.kind := kind;
      this.enabled := enabled;
      access := ReadOnly;
      status := "initialized";
      serial := 0;
      searchText := "";
      pending := false;
      loadingDone := false;
      loader := NotStarted;
      searcher := AwaitLoad;
      bibFiles := [];
      bibEntries := [];
      isOutput := false;
      outputFile := "";
      searchResultsPanel := null;
      selectedEntriesPanel := null;
      selectedKeysPanel := null;
    }

    /** The `status` setter: the name is stored, then anything but the five known names raises. */
    method SetStatus(value: string) returns (ok: bool)
      modifies this
      ensures status == value
      ensures ok <==> ParseStatus(value).Some?
      ensures Threads() == old(Threads()) && Requests() == old(Requests()) && Wiring() == old(Wiring())
    {
      status := value;
      ok := ParseStatus(value).Some?;
    }

    /** The `access_type` setter: "ro" or "rw"; anything else raises and changes nothing. */
    method SetAccessType(value: string) returns (ok: bool)
      modifies this
      ensures ok <==> ParseAccess(value).Some?
      ensures access == if ok then ParseAccess(value).value else old(access)
      ensures Protocol() == old(Protocol()) && Requests() == old(Requests())
      ensures Wiring() == old(Wiring()).(access := access)
    {
      var parsed := ParseAccess(value);
      ok := parsed.Some?;
      if ok {
        access := parsed.value;
      }
    }

    /** `Search`: post the text and the serial and wake the searcher. */
    method Search(text: string, s: int)
      modifies this
      ensures searchText == text && serial == s && pending
      ensures Protocol() == old(Protocol()) && Wiring() == old(Wiring())
    {
      searchText := text;
      serial := s;
      pending := true;
    }

    /** The loading thread's first step. */
    method StartLoading()
      requires Valid() && loader == NotStarted
      modifies this
      ensures Valid()
      ensures loader == Reading && status == "loading"
      ensures searcher == old(searcher) && Requests() == old(Requests()) && Wiring() == old(Wiring())
    {
      var _ := SetStatus("loading");
      loader := Reading;
    }

    /** `DblpRepo`'s load has nothing to do and reports "ready". */
    method FinishRemoteLoading()
      requires Valid() && kind == Remote && loader == Reading
      modifies this
      ensures Valid()
      ensures loader == Loaded && loadingDone && status == "ready" && Found() == ([], [])
      ensures searcher == old(searcher) && Requests() == old(Requests()) && Wiring() == old(Wiring())
    {
      var _ := SetStatus("ready");
      loader := Loaded;
      loadingDone := true;
    }

    /** `BibtexRepo`'s load, given what the glob matched and, per file, the parsed entries or
        `None` where parsing raised: "no file" exactly when the glob matched nothing. */
    method FinishLocalLoading(files: seq<string>, parsed: seq<Option<seq<(string, PybEntry)>>>)
      requires Valid() && kind == Local && loader == Reading && |parsed| == |files|
      modifies this
      ensures Valid()
      ensures loader == Loaded && loadingDone
      ensures status == if files == [] then "no file" else "ready"
      ensures bibFiles == files
      ensures Holds(bibEntries, Rows(files, parsed))
      ensures forall j :: 0 <= j < |bibEntries| ==>
        fresh(bibEntries[j]) && bibEntries[j].repo == this && bibEntries[j].mark == None
      ensures searcher == old(searcher) && Requests() == old(Requests()) && Wiring() == old(Wiring())
    {
      bibFiles := files;
      if files == [] {
        var _ := SetStatus("no file");
      } else {
        var loaded := BuildEntries(files, parsed);
        bibEntries := loaded;
        var _ := SetStatus("ready");
      }
      loader := Loaded;
      loadingDone := true;
    }

    /** The loop over the files the glob matched; a file whose parse raised is skipped. */
    method BuildEntries(files: seq<string>, parsed: seq<Option<seq<(string, PybEntry)>>>)
      returns (es: seq<Entry>)
      requires |parsed| == |files|
      ensures Holds(es, Rows(files, parsed))
      ensures forall j :: 0 <= j < |es| ==> fresh(es[j]) && es[j].repo == this && es[j].mark == None
    {
      es := [];
      var i := 0;
      while i < |files|
        invariant 0 <= i <= |files|
        invariant Holds(es, Rows(files[..i], parsed[..i]))
        invariant forall j :: 0 <= j < |es| ==> fresh(es[j]) && es[j].repo == this && es[j].mark == None
      {
        assert files[..i + 1][..i] == files[..i] && parsed[..i + 1][..i] == parsed[..i];
        var before := Rows(files[..i], parsed[..i]);
        if parsed[i].Some? {
          var added := FileEntries(files[i], parsed[i].value);
          HoldsAppend(es, before, added, FileRows(files[i], parsed[i].value));
          es := es + added;
        }
        assert Rows(files[..i + 1], parsed[..i + 1])
          == before + (if parsed[i].Some? then FileRows(files[i], parsed[i].value) else []);
        i := i + 1;
      }
      assert files[..i] == files && parsed[..i] == parsed;
    }

    /** The loop over the entries of one parsed file. */
    method FileEntries(path: string, ps: seq<(string, PybEntry)>) returns (es: seq<Entry>)
      ensures Holds(es, FileRows(path, ps))
      ensures forall j :: 0 <= j < |es| ==> fresh(es[j]) && es[j].repo == this && es[j].mark == None
    {
      es := [];
      var k := 0;
      while k < |ps|
        invariant 0 <= k <= |ps| && |es| == k
        invariant forall j :: 0 <= j < k ==>
          es[j].source == path && es[j].payload == Bibtex(ps[j].0, ps[j].1)
        invariant forall j :: 0 <= j < |es| ==> fresh(es[j]) && es[j].repo == this && es[j].mark == None
      {
        var e := new Entry(path, Bibtex(ps[k].0, ps[k].1), this);
        es := es + [e];
        k := k + 1;
      }
    }

    /** The searching thread after `loading_done`: a repo whose glob matched nothing never
        searches. */
    method StartSearcher()
      requires Valid() && searcher == AwaitLoad && loadingDone
      modifies this
      ensures Valid()
      ensures searcher == if status == "no file" then Exited else Idle
      ensures status == old(status) && loader == old(loader) && Found() == old(Found())
      ensures Requests() == old(Requests()) && Wiring() == old(Wiring())
    {
      if status == "no file" {
        searcher := Exited;
      } else {
        searcher := Idle;
      }
    }

    /** The start of a pass over a local repo: capture the serial, show "searching", and
        collect the results. */
    method BeginLocalSearch()
      requires Valid() && kind == Local && searcher == Idle && pending
      modifies this
      ensures Valid()
      ensures searcher == Passing(old(serial), Filter(bibEntries, searchText, TitleOf, AuthorsOf), 0)
      ensures status == "searching" && loader == old(loader) && Found() == old(Found())
      ensures Requests() == old(Requests()) && Wiring() == old(Wiring())
    {
      var captured := serial;
      var _ := SetStatus("searching");
      var found := SearchEntries(bibEntries, searchText, TitleOf, AuthorsOf);
      searcher := Passing(captured, found, 0);
    }

    /** The start of a pass over DBLP; each hit of the response becomes a new entry. */
    method BeginRemoteSearch(response: Option<seq<Payload>>)
      requires Valid() && kind == Remote && searcher == Idle && pending
      modifies this
      ensures Valid()
      ensures searcher.Passing? && searcher.captured == old(serial) && searcher.next == 0
      ensures var hits := RemoteResults(old(searchText), response);
        && |searcher.stream| == |hits|
        && forall j :: 0 <= j < |hits| ==>
             && searcher.stream[j].payload == hits[j] && searcher.stream[j].source == "dblp.org"
             && searcher.stream[j].repo == this && fresh(searcher.stream[j])
      ensures status == "searching" && loader == old(loader) && Found() == old(Found())
      ensures Requests() == old(Requests()) && Wiring() == old(Wiring())
    {
      var stream := RemoteEntries(RemoteResults(searchText, response));
      status := "searching";
      searcher := Passing(serial, stream, 0);
    }

    /** The DBLP generator: one new entry per hit. */
    method RemoteEntries(hits: seq<Payload>) returns (stream: seq<Entry>)
      ensures |stream| == |hits|
      ensures forall j :: 0 <= j < |hits| ==>
        && stream[j].payload == hits[j] && stream[j].source == "dblp.org"
        && stream[j].repo == this && fresh(stream[j])
    {
      stream := [];
      var i := 0;
      while i < |hits|
        invariant 0 <= i <= |hits|
        invariant |stream| == i
        invariant forall j :: 0 <= j < i ==>
          && stream[j].payload == hits[j] && stream[j].source == "dblp.org"
          && stream[j].repo == this && fresh(stream[j])
      {
        var e := new Entry("dblp.org", hits[i], this);
        stream := stream + [e];
        i := i + 1;
      }
    }

    /** One item of the pass: mark it by looking its bibkey up among the selection's keys,
        then hand it to the result panel under the captured serial. */
    method Deliver()
      requires Valid() && searcher.Passing? && searcher.next < |searcher.stream|
      modifies this, searcher.stream[searcher.next], searchResultsPanel
      ensures Valid()
      ensures var item := old(searcher.stream[searcher.next]);
        && searcher == old(searcher).(next := old(searcher.next) + 1)
        && item.mark == (if old(selectedEntriesPanel) != null
                            && item.BibKey() in old(selectedEntriesPanel.entries.m)
                         then Some(SelectedMark) else None)
        && var p := old(searchResultsPanel);
        (p != null ==>
           && p.serial == old(p.serial)
           && p.items == old(p.items) + (if searcher.captured == old(p.serial) then [item] else []))
      ensures status == old(status) && loader == old(loader) && Found() == old(Found())
      ensures Requests() == old(Requests()) && Wiring() == old(Wiring())
    {
      var item := searcher.stream[searcher.next];
      if selectedEntriesPanel != null && item.BibKey() in selectedEntriesPanel.entries.m {
        var _ := item.SetMark(Some(SelectedMark));
      } else {
        var _ := item.SetMark(None);
      }
      if searchResultsPanel != null {
        searchResultsPanel.Add(item, searcher.captured);
      }
      searcher := searcher.(next := searcher.next + 1);
    }

    /** The end of a pass: back to "ready"; the request counts as served only if no newer
        serial was posted meanwhile. A DBLP pass may also end early, when the request raises. */
    method EndSearch()
      requires Valid() && searcher.Passing?
      requires kind == Remote || searcher.next == |searcher.stream|
      modifies this
      ensures Valid()
      ensures searcher == Idle && status == "ready"
      ensures pending == (old(pending) && old(serial) != old(searcher.captured))
      ensures serial == old(serial) && searchText == old(searchText)
      ensures loader == old(loader) && Found() == old(Found()) && Wiring() == old(Wiring())
    {
      var captured := searcher.captured;
      var _ := SetStatus("ready");
      if serial == captured {
        pending := false;
      }
      searcher := Idle;
    }

    /** `OutputBibtexRepo.__init__` after the load: the selection panel is cleared, then a glob
        matching more than one file is refused; otherwise the repo is read-write and writes to
        its one file, or, when it matched nothing, to the glob text as configured. */
    method BecomeOutput() returns (ok: bool)
      requires Valid() && kind == Local && loadingDone
      modifies this
      ensures Valid()
      ensures ok <==> |bibFiles| <= 1
      ensures !ok ==> Wiring() == old(Wiring()).(selectedKeys := null)
      ensures ok ==> Wiring() == old(Wiring()).(
        access := ReadWrite, isOutput := true, selectedKeys := null,
        outputFile := OutputFileOr(glob, bibFiles))
      ensures Protocol() == old(Protocol()) && Requests() == old(Requests())
    {
      selectedKeysPanel := null;
      if |bibFiles| > 1 {
        return false;
      }
      var _ := SetAccessType("rw");
      outputFile := OutputFileOr(glob, bibFiles);
      isOutput := true;
      ok := true;
    }

    /** Where the output repo evidently means to write: its one file or, when the glob matched
        nothing, the expanded path that the loader looked for. */
    function IntendedOutputFile(): (f: string)
      reads this
      ensures f in bibFiles || f == source
      ensures bibFiles == [] ==> f == source
    {
      OutputFileOr(source, bibFiles)
    }

    /** `OutputBibtexRepo.Write`: nothing without a selection panel; otherwise the repo's own
        entries by bibkey, overridden by the selected entries by bibkey, written out unless
        one of the merged records is missing. */
    method Write() returns (o: Outcome)
      requires isOutput && loadingDone
      requires selectedKeysPanel != null ==> selectedKeysPanel.Valid()
      ensures selectedKeysPanel == null <==> o == NotAttached
      ensures selectedKeysPanel != null ==>
        var m := Assoc(Pairs(bibEntries)) + Assoc(Pairs(Values(selectedKeysPanel.entries)));
        && (o.Aborted? <==> HasNone(m))
        && (o.Aborted? ==> o.key in m && m[o.key] == None)
        && (o.Written? ==> o.file == outputFile && o.data.Keys == m.Keys
                           && forall k :: k in m ==> m[k] == Some(o.data[k]))
    {
      if selectedKeysPanel == null {
        return NotAttached;
      }
      var merged := Merge(Pairs(bibEntries), Pairs(Values(selectedKeysPanel.entries)));
      var missing := FirstNone(merged);
      if missing.Some? {
        return Aborted(missing.value);
      }
      return Written(outputFile, Unwrap(merged.m));
    }
  }

  /** An output repo whose glob matched nothing and changes under expansion (a glob starting
      with "~", say) is set to write to the glob text as configured, which is not the expanded
      path it intends. Handed to pybtex, that relative path normally names no existing
      directory, so the write fails. */
  method UnexpandedOutputFile(repo: BibRepo) returns (ok: bool)
    requires repo.Valid() && repo.kind == Local && repo.loadingDone
    requires repo.bibFiles == [] && repo.glob != repo.source
    modifies repo
    ensures ok && repo.outputFile == repo.glob
    ensures repo.IntendedOutputFile() == repo.source && repo.outputFile != repo.IntendedOutputFile()
  {
    ok := repo.BecomeOutput();
  }

  /** A request posted while a pass is running survives the end of that pass. */
  method MidPassRequestStaysPending(repo: BibRepo, text: string)
    requires repo.Valid() && repo.searcher.Passing?
    requires repo.kind == Remote || repo.searcher.next == |repo.searcher.stream|
    modifies repo
    ensures repo.Valid() && repo.searcher == Idle
    ensures repo.pending && repo.serial == old(repo.searcher.captured) + 1
  {
    var newer := repo.searcher.captured + 1;
    repo.Search(text, newer);
    repo.EndSearch();
  }

  /** A repo whose glob matched nothing ends at "no file" and its searcher leaves without
      ever reaching "searching". */
  method EmptyGlobNeverSearches(glob: string, source: string, enabled: bool) returns (repo: BibRepo)
    ensures repo.status == "no file" && repo.searcher == Exited
  {
    repo := new BibRepo(glob, source, Local, enabled);
    repo.StartLoading();
    repo.FinishLocalLoading([], []);
    repo.StartSearcher();
  }

  /** A local repo loads its files, its searcher starts, a query arrives and a pass begins: the
      pass holds exactly the loaded entries that match the query, in file order. */
  method LoadedEntriesReachSearch(glob: string, source: string, enabled: bool, files: seq<string>,
                                  parsed: seq<Option<seq<(string, PybEntry)>>>, text: string, s: int)
    returns (repo: BibRepo)
    requires files != [] && |parsed| == |files|
    ensures repo.Valid() && Holds(repo.bibEntries, Rows(files, parsed))
    ensures repo.searcher == Passing(s, Filter(repo.bibEntries, text, TitleOf, AuthorsOf), 0)
  {
    repo := new BibRepo(glob, source, Local, enabled);
    repo.StartLoading();
    repo.FinishLocalLoading(files, parsed);
    repo.StartSearcher();
    repo.Search(text, s);
    repo.BeginLocalSearch();
  }

  /** A keystroke during a pass resets the result panel to a new serial; the hit the pass
      delivers next is dropped, and the keystroke's request waits for the next pass. */
  method StaleDeliveryDropped(bar: SearchBar, repo: BibRepo, text: string)
    requires bar.panel != null && repo in bar.repos && repo.searchResultsPanel == bar.panel
    requires repo.Valid() && repo.searcher.Passing? && repo.searcher.next < |repo.searcher.stream|
    requires repo.searcher.captured != bar.counter
    modifies bar, bar.panel, bar.repos, repo.searcher.stream[repo.searcher.next]
    ensures bar.panel == old(bar.panel) && bar.panel.items == []
    ensures repo.searchText == text && repo.pending && repo.serial == old(bar.counter)
  {
    bar.TextChangeHandler(text);
    repo.Deliver();
  }

  /** A request posted while a local pass runs is served by the next pass, over the same
      entries and with the newer text. */
  method NextPassServesNewerText(repo: BibRepo, text: string)
    requires repo.Valid() && repo.kind == Local && repo.searcher.Passing?
    requires repo.searcher.next == |repo.searcher.stream|
    modifies repo
    ensures repo.bibEntries == old(repo.bibEntries)
    ensures repo.searcher ==
      Passing(old(repo.searcher.captured) + 1, Filter(repo.bibEntries, text, TitleOf, AuthorsOf), 0)
  {
    repo.Search(text, repo.searcher.captured + 1);
    repo.EndSearch();
    repo.BeginLocalSearch();
  }

  /** `SearchBar`: every change of the text starts a new generation. */
  class SearchBar {
    var panel: SearchResultsPanel?
    var counter: int
    var repos: seq<BibRepo>

    constructor ()
      ensures panel == null && counter == 0 && repos == []
    {
      panel := null;
      counter := 0;
      repos := [];
    }

    /** `TextChangeHandler`: without a result panel nothing happens; otherwise the panel moves
        to the current serial, every repo receives the text under that serial, and the
        counter moves on by one. */
    method TextChangeHandler(text: string)
      modifies this, panel, repos
      ensures panel == old(panel) && repos == old(repos)
      ensures old(panel) == null ==> counter == old(counter)
      ensures old(panel) == null ==> forall i :: 0 <= i < |repos| ==>
        repos[i].Requests() == old(repos[i].Requests())
      ensures old(panel) != null ==>
        && counter == old(counter) + 1
        && panel.serial == old(counter) && panel.items == []
        && forall i :: 0 <= i < |repos| ==>
             repos[i].serial == old(counter) && repos[i].searchText == text && repos[i].pending
      ensures forall i :: 0 <= i < |repos| ==>
        repos[i].Protocol() == old(repos[i].Protocol()) && repos[i].Wiring() == old(repos[i].Wiring())
    {
      if panel == null {
        return;
      }
      panel.SetSerial(counter);
      var i := 0;
      while i < |repos|
        invariant 0 <= i <= |repos|
        invariant panel == old(panel) && repos == old(repos) && panel != null
        invariant panel.serial == counter == old(counter) && panel.items == []
        invariant forall j :: 0 <= j < i ==>
          repos[j].serial == counter && repos[j].searchText == text && repos[j].pending
        invariant forall j :: 0 <= j < |repos| ==>
          repos[j].Protocol() == old(repos[j].Protocol()) && repos[j].Wiring() == old(repos[j].Wiring())
      {
        repos[i].Search(text, counter);
        i := i + 1;
      }
      counter := counter + 1;
    }
  }

  function Flags(rs: seq<BibRepo>): (r: seq<bool>)
    reads rs
    ensures |r| == |rs| && forall i :: 0 <= i < |rs| ==> r[i] == rs[i].enabled
  {
    seq(|rs|, i reads rs requires 0 <= i < |rs| => rs[i].enabled)
  }

  predicate DistinctRepos(rs: seq<BibRepo>) {
    forall i, j :: 0 <= i < j < |rs| ==> rs[i] != rs[j]
  }

  /** `InputFilter`, holding the repos it masks and the focus it swaps. */
  class InputFilter {
    var repos: seq<BibRepo>
    var focus: int

    constructor (repos: seq<BibRepo>)
      ensures this.repos == repos && focus == 0
    {
      this.repos := repos;
      focus := 0;
    }

    /** `MaskDatabases`: "meta ~" enables every repo, "meta )" disables every repo, "meta " and
        the symbol of n in 1..9 flips repo n-1 when there is one; "enter" swaps the focus. */
    method MaskDatabases(key: string) returns (r: Option<bool>)
      modifies this, repos
      ensures r == Verdict(key)
      ensures repos == old(repos)
      ensures focus == if r.None? then 1 - old(focus) else old(focus)
      ensures DistinctRepos(repos) ==> Flags(repos) == MaskFlags(key, old(Flags(repos)))
      ensures forall i :: 0 <= i < |repos| ==>
        repos[i].enabled == match ActionOf(key, |repos|)
          case EnableAll => true
          case DisableAll => false
          case Flip(t) => if repos[i] == repos[t] then !old(repos[t].enabled) else old(repos[i].enabled)
          case Keep => old(repos[i].enabled)
      ensures forall i :: 0 <= i < |repos| ==>
        && repos[i].Protocol() == old(repos[i].Protocol()) && repos[i].Requests() == old(repos[i].Requests())
        && repos[i].Wiring() == old(repos[i].Wiring()).(enabled := repos[i].enabled)
    {
      var action := ActionOf(key, |repos|);
      match action {
        case EnableAll => SetAll(true);
        case DisableAll => SetAll(false);
        case Flip(t) =>
          var target := repos[t];
          target.enabled := !target.enabled;
        case Keep =>
      }
      if !IsMetaKey(key) && key == "enter" {
        focus := 1 - focus;
      }
      r := Verdict(key);
    }

    method SetAll(value: bool)
      modifies repos
      ensures forall i :: 0 <= i < |repos| ==> repos[i].enabled == value
      ensures forall i :: 0 <= i < |repos| ==>
        && repos[i].Protocol() == old(repos[i].Protocol()) && repos[i].Requests() == old(repos[i].Requests())
        && repos[i].Wiring() == old(repos[i].Wiring()).(enabled := value)
    {
      var targets := repos;
      var i := 0;
      while i < |targets|
        invariant 0 <= i <= |targets|
        invariant forall j :: 0 <= j < i ==> targets[j].enabled == value
        invariant forall j :: 0 <= j < |targets| ==>
          && targets[j].Protocol() == old(targets[j].Protocol()) && targets[j].Requests() == old(targets[j].Requests())
          && targets[j].Wiring() == old(targets[j].Wiring()).(enabled := targets[j].enabled)
      {
        targets[i].enabled := value;
        i := i + 1;
      }
    }
  }
}
