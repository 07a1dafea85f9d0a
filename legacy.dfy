/** The search core of the older snapshot (`Bibrarian.py`). It differs from the current one in
    these ways: a mark is only drawn, never stored; there is no "no file" status and the loader
    always ends at "ready"; each repo fans its results out to a list of attached sinks; a missing
    selection panel makes the searcher's lookup raise, which ends the pass; the search bar and
    `Write` use the module-level panels. The module stands on its own, so a few definitions
    repeat those of `Bibrarian` over this snapshot's own entry and repo classes (`Shown`,
    `Toggled`, `Pairs`, `Flags`): the two snapshots share no class. */
module LegacyBibrarian {
  import opened Text
  import opened Dicts
  import opened Records
  import opened Matching
  import opened WriteBack
  import opened KeyInput
  import opened Loading

  datatype Kind = Local | Remote

  datatype Loader = NotStarted | Reading | Loaded

  /** No `Exited`: this searcher never leaves its loop. */
  datatype Searcher =
    | AwaitLoad
    | Idle
    | Passing(captured: int, stream: seq<Entry>, next: nat)

  /** What the mark widget of an entry shows: the initial "[M]", "[ ]" or "[X]". */
  datatype MarkShown = Placeholder | Cleared | Ticked

  class Entry {
    const repo: BibRepo
    const source: string
    const payload: Payload
    var shown: MarkShown

    constructor (source: string, payload: Payload, repo: BibRepo)
      ensures this.source == source && this.payload == payload && this.repo == repo
      ensures shown == Placeholder
    {
      this.source := source;
      this.payload := payload;
      this.repo := repo;
      shown := Placeholder;
    }

    function Title(): string {
      Records.Title(payload)
    }

    function Authors(): seq<string> {
      Records.Authors(payload)
    }

    function BibKey(): string {
      Records.BibKey(payload)
    }

    function UniqueKey(): string {
      Records.UniqueKey(source, BibKey())
    }

    /** `Mark`: draws "[ ]" for `None` and "[X]" for "selected"; anything else raises before
        drawing anything. */
    method Mark(value: Option<string>) returns (ok: bool)
      modifies this
      ensures ok <==> ValidMark(value)
      ensures shown == if value == None then Cleared else if ok then Ticked else old(shown)
    {
      if value == None {
        shown := Cleared;
        ok := true;
      } else if value == Some(SelectedMark) {
        shown := Ticked;
        ok := true;
      } else {
        ok := false;
      }
    }
  }

  /** The entries of `es` are the rows, one for one and in order. */
  predicate Holds(es: seq<Entry>, rows: seq<Row>) {
    && |es| == |rows|
    && forall j :: 0 <= j < |es| ==>
         es[j].source == rows[j].path && es[j].payload == Bibtex(rows[j].key, rows[j].pyb)
  }

  lemma HoldsAppend(es: seq<Entry>, rows: seq<Row>, more: seq<Entry>, moreRows: seq<Row>)
    requires Holds(es, rows) && Holds(more, moreRows)
    ensures Holds(es + more, rows + moreRows)
  {
  }

  function TitleOf(e: Entry): string {
    e.Title()
  }

  function AuthorsOf(e: Entry): seq<string> {
    e.Authors()
  }

  /** `n` copies of `x`. */
  function Copies(x: Entry, n: nat): (r: seq<Entry>)
    ensures |r| == n && forall i :: 0 <= i < n ==> r[i] == x
  {
    seq(n, _ => x)
  }

  /** How many times `s` appears among the sinks: the number of times it was attached. */
  function Attached(sinks: seq<SearchResultsPanel>, s: SearchResultsPanel): nat {
    if sinks == [] then 0
    else Attached(sinks[..|sinks| - 1], s) + (if sinks[|sinks| - 1] == s then 1 else 0)
  }

  /** One more sink looked at: the count of `s` grows by one iff that sink is `s`. */
  lemma AttachedStep(sinks: seq<SearchResultsPanel>, i: nat)
    requires i < |sinks|
    ensures forall s :: Attached(sinks[..i + 1], s) == Attached(sinks[..i], s) + (if sinks[i] == s then 1 else 0)
  {
    assert sinks[..i + 1][..i] == sinks[..i];
  }

  lemma CopiesOneMore(x: Entry, n: nat)
    ensures Copies(x, n + 1) == Copies(x, n) + [x]
  {
  }

  class SearchResultsPanel {
    var serial: int
    var items: seq<Entry>

    constructor ()
      ensures serial == 0 && items == []
    {
      serial := 0;
      items := [];
    }

    method Clear()
      modifies this
      ensures items == [] && serial == old(serial)
    {
      items := [];
    }

    method SetSerial(value: int)
      modifies this
      ensures serial == value && items == []
    {
      serial := value;
      Clear();
    }

    method Add(entry: Entry, s: int)
      modifies this
      ensures serial == old(serial)
      ensures items == if s == old(serial) then old(items) + [entry] else old(items)
    {
      if serial == s {
        items := items + [entry];
      }
    }

    /** `SyncDisplay`: the results whose repo is enabled, in arrival order. */
    function View(): (r: seq<Entry>)
      reads this, set e | e in items :: e.repo
      ensures forall i :: 0 <= i < |r| ==> r[i] in items && r[i].repo.enabled
      ensures forall i :: 0 <= i < |items| && items[i].repo.enabled ==> items[i] in r
      ensures Subsequence(r, items)
      ensures forall x :: x in items ==> multiset(r)[x] == if x.repo.enabled then multiset(items)[x] else 0
    {
      ShownCounts(items);
      Shown(items)
    }
  }

  function Shown(s: seq<Entry>): (r: seq<Entry>)
    reads set e | e in s :: e.repo
    ensures forall i :: 0 <= i < |r| ==> r[i] in s && r[i].repo.enabled
    ensures forall i :: 0 <= i < |s| && s[i].repo.enabled ==> s[i] in r
    ensures Subsequence(r, s)
  {
    if s == [] then []
    else
      var rest := Shown(s[1..]);
      if s[0].repo.enabled then
        assert ([s[0]] + rest)[1..] == rest;
        [s[0]] + rest
      else rest
  }

  /** Every copy of an item from an enabled repo is shown, and no copy of one from a disabled
      repo. */
  lemma {:induction false} ShownCounts(s: seq<Entry>)
    ensures forall x :: x in s ==> multiset(Shown(s))[x] == if x.repo.enabled then multiset(s)[x] else 0
  {
    if s != [] {
      ShownCounts(s[1..]);
      var rest := Shown(s[1..]);
      assert s == [s[0]] + s[1..];
      assert multiset(s) == multiset{s[0]} + multiset(s[1..]);
      assert multiset(Shown(s)) == (if s[0].repo.enabled then multiset{s[0]} else multiset{}) + multiset(rest);
      forall x | x in s
        ensures multiset(Shown(s))[x] == if x.repo.enabled then multiset(s)[x] else 0
      {
        if x !in s[1..] {
          assert x !in rest;
        }
      }
    }
  }

  class SelectedKeysPanel {
    var entries: Dict<Entry>

    ghost predicate Valid()
      reads this
    {
      && entries.Valid()
      && forall k :: k in entries.m ==> entries.m[k].UniqueKey() == k
    }

    constructor ()
      ensures Valid() && entries == Empty()
    {
      entries := Empty();
    }

    method Toggle(entry: Entry)
      requires Valid()
      modifies this, entry
      ensures Valid()
      ensures entries == Toggled(old(entries), entry)
      ensures entry.shown == if entry.UniqueKey() in old(entries.m) then Cleared else Ticked
      ensures entry.shown == Ticked <==> entry.UniqueKey() in entries.m
    {
      var key := entry.UniqueKey();
      if key in entries.m {
        entries := Delete(entries, key);
        var _ := entry.Mark(None);
      } else {
        entries := Put(entries, key, entry);
        var _ := entry.Mark(Some(SelectedMark));
      }
    }

    method Add(entry: Entry)
      requires Valid()
      modifies this
      ensures Valid()
      ensures entries == Put(old(entries), entry.UniqueKey(), entry)
    {
      entries := Put(entries, entry.UniqueKey(), entry);
    }
  }

  function Toggled(d: Dict<Entry>, e: Entry): (r: Dict<Entry>)
    requires d.Valid()
    ensures r.Valid()
  {
    if e.UniqueKey() in d.m then Delete(d, e.UniqueKey()) else Put(d, e.UniqueKey(), e)
  }

  /** A double toggle is the identity on the selection when the entry was not selected. */
  lemma ToggleTwice(d: Dict<Entry>, e: Entry)
    requires d.Valid()
    ensures Toggled(Toggled(d, e), e).m.Keys == d.m.Keys
    ensures e.UniqueKey() !in d.m ==> Toggled(Toggled(d, e), e) == d
    ensures e.UniqueKey() in d.m ==> Toggled(Toggled(d, e), e).m == d.m[e.UniqueKey() := e]
  {
    var k := e.UniqueKey();
    if k !in d.m {
      DeleteAfterInsert(d, k, e);
    } else {
      InsertAfterDelete(d, k, e);
    }
  }

  function Pairs(es: seq<Entry>): (r: seq<Pair>)
    ensures |r| == |es|
    ensures forall i :: 0 <= i < |es| ==> r[i] == (es[i].BibKey(), PybOf(es[i].payload))
  {
    seq(|es|, i requires 0 <= i < |es| => (es[i].BibKey(), PybOf(es[i].payload)))
  }

  /** The check at the start of `BibtexRepo.LoadingThreadMain` as written: it tests the entry
      list, not the list of matched files. */
  function NoTargetWarningAsWritten(entries: seq<Entry>, files: seq<string>): (warn: bool)
    ensures warn <==> |entries| == 0
  {
    entries == []
  }

  /** The entry list was reset to empty on the line before the check, so with one matched file
      the written check warns and the intended one does not. */
  lemma NoTargetWarningAlwaysFires()
    ensures NoTargetWarningAsWritten([], ["refs.bib"]) && !NoTargetWarning(["refs.bib"])
  {
  }

  /** The check as meant: warn when the glob matched no file. */
  function NoTargetWarning(files: seq<string>): (warn: bool)
    ensures warn <==> |files| == 0
  {
    files == []
  }

  /** What a repo is set to and attached to: its enabled flag, its sinks, its two panels and
      its output file. Neither thread changes it. */
  datatype Wires = Wires(
    enabled: bool, sinks: seq<SearchResultsPanel>, picked: SelectedKeysPanel?,
    selectedKeys: SelectedKeysPanel?, outputFile: string)

  class BibRepo {
    const source: string
    const kind: Kind
    const isOutput: bool
    var enabled: bool
    var status: string
    var serial: int
    var searchText: string
    var pending: bool
    var loadingDone: bool
    var loader: Loader
    var searcher: Searcher
    var sinks: seq<SearchResultsPanel>
    var selectedEntriesPanel: SelectedKeysPanel?
    var selectedKeysPanel: SelectedKeysPanel?
    var bibFiles: seq<string>
    var bibEntries: seq<Entry>
    var outputFile: string

    function Threads(): (Loader, Searcher, bool, seq<string>, seq<Entry>)
      reads this
    {
      (loader, searcher, loadingDone, bibFiles, bibEntries)
    }

    function Requests(): (int, string, bool)
      reads this
    {
      (serial, searchText, pending)
    }

    /** What the loader found. */
    function Found(): (seq<string>, seq<Entry>)
      reads this
    {
      (bibFiles, bibEntries)
    }

    function Wiring(): Wires
      reads this
    {
      Wires(enabled, sinks, selectedEntriesPanel, selectedKeysPanel, outputFile)
    }

    function Protocol(): (string, (Loader, Searcher, bool, seq<string>, seq<Entry>))
      reads this
    {
      (status, Threads())
    }

    ghost predicate Valid()
      reads this
    {
      && ParseLegacyStatus(status).Some?
      && (loader == NotStarted ==> status == "initialized")
      && (loader == Reading ==> status == "loading")
      && (loader != Loaded ==> bibEntries == [])
      && (loadingDone <==> loader == Loaded)
      && (!loadingDone ==> searcher == AwaitLoad)
      && (loadingDone && searcher == AwaitLoad ==> status == "ready")
      && (searcher == Idle ==> status == "ready")
      && (searcher.Passing? ==> status == "searching" && searcher.next <= |searcher.stream|)
    }

    /** `BibRepo.__init__`; an `OutputBibtexRepo` writes to its glob. */
    constructor (source: string, kind: Kind, isOutput: bool)
      ensures Valid()
      ensures this.source == source && this.kind == kind && this.isOutput == isOutput
      ensures enabled && serial == 0 && status == "initialized" && sinks == []
      ensures loader == NotStarted && searcher == AwaitLoad && !pending
      ensures selectedEntriesPanel == null && selectedKeysPanel == null
      ensures outputFile == source
    {
      this.source := source;
      this.kind := kind;
      this.isOutput := isOutput;
      enabled := true;
      status := "initialized";
      serial := 0;
      searchText := "";
      pending := false;
      loadingDone := false;
      loader := NotStarted;
      searcher := AwaitLoad;
      sinks := [];
      selectedEntriesPanel := null;
      selectedKeysPanel := null;
      bibFiles := [];
      bibEntries := [];
      outputFile := source;
    }

    /** `SetStatus`: the name is stored, then `UpdateStatus` raises for anything but four. */
    method SetStatus(value: string) returns (ok: bool)
      modifies this
      ensures status == value
      ensures ok <==> ParseLegacyStatus(value).Some?
      ensures Threads() == old(Threads()) && Requests() == old(Requests()) && Wiring() == old(Wiring())
    {
      status := value;
      ok := ParseLegacyStatus(value).Some?;
    }

    method SetEnabled(value: bool)
      modifies this
      ensures enabled == value && Protocol() == old(Protocol()) && Requests() == old(Requests())
      ensures Wiring() == old(Wiring()).(enabled := value)
    {
      enabled := value;
    }

    method ToggleEnabled()
      modifies this
      ensures enabled == !old(enabled) && Protocol() == old(Protocol()) && Requests() == old(Requests())
      ensures Wiring() == old(Wiring()).(enabled := enabled)
    {
      SetEnabled(!enabled);
    }

    method Search(text: string, s: int)
      modifies this
      ensures searchText == text && serial == s && pending
      ensures Protocol() == old(Protocol()) && Wiring() == old(Wiring())
    {
      searchText := text;
      serial := s;
      pending := true;
    }

    method AttachSink(sink: SearchResultsPanel)
      modifies this
      ensures sinks == old(sinks) + [sink]
      ensures Protocol() == old(Protocol()) && Requests() == old(Requests())
      ensures Wiring() == old(Wiring()).(sinks := sinks)
    {
      sinks := sinks + [sink];
    }

    method AttachPickedEntries(panel: SelectedKeysPanel)
      modifies this
      ensures selectedEntriesPanel == panel
      ensures Protocol() == old(Protocol()) && Requests() == old(Requests())
      ensures Wiring() == old(Wiring()).(picked := panel)
    {
      selectedEntriesPanel := panel;
    }

    method AttachSelectedKeys(panel: SelectedKeysPanel)
      modifies this
      ensures selectedKeysPanel == panel
      ensures Protocol() == old(Protocol()) && Requests() == old(Requests())
      ensures Wiring() == old(Wiring()).(selectedKeys := panel)
    {
      selectedKeysPanel := panel;
    }

    method StartLoading()
      requires Valid() && loader == NotStarted
      modifies this
      ensures Valid()
      ensures loader == Reading && status == "loading"
      ensures searcher == old(searcher) && Requests() == old(Requests()) && Wiring() == old(Wiring())
    {
      var _ := SetStatus("loading");
      loader := Reading;
    }

    method FinishRemoteLoading()
      requires Valid() && kind == Remote && loader == Reading
      modifies this
      ensures Valid()
      ensures loader == Loaded && loadingDone && status == "ready" && bibEntries == []
      ensures searcher == old(searcher) && Requests() == old(Requests()) && Wiring() == old(Wiring())
    {
      var _ := SetStatus("ready");
      loader := Loaded;
      loadingDone := true;
    }

    /** `BibtexRepo`'s load, given what the glob matched and, per file, the parsed entries or
        `None` where parsing raised. The status ends at "ready" whatever the glob matched;
        `warned` is whether the "matches no target" warning is logged, which, as written, it
        is on every load. */
    method FinishLocalLoading(files: seq<string>, parsed: seq<Option<seq<(string, PybEntry)>>>)
      returns (warned: bool)
      requires Valid() && kind == Local && loader == Reading && |parsed| == |files|
      modifies this
      ensures Valid()
      ensures loader == Loaded && loadingDone && status == "ready"
      ensures bibFiles == files && warned
      ensures Holds(bibEntries, Rows(files, parsed))
      ensures forall j :: 0 <= j < |bibEntries| ==>
        fresh(bibEntries[j]) && bibEntries[j].repo == this && bibEntries[j].shown == Placeholder
      ensures searcher == old(searcher) && Requests() == old(Requests()) && Wiring() == old(Wiring())
    {
      bibEntries := [];
      bibFiles := files;
      warned := NoTargetWarningAsWritten(bibEntries, bibFiles);
      var loaded := BuildEntries(files, parsed);
      bibEntries := loaded;
      var _ := SetStatus("ready");
      loader := Loaded;
      loadingDone := true;
    }

    /** The loop over the files the glob matched; a file whose parse raised is skipped. */
    method BuildEntries(files: seq<string>, parsed: seq<Option<seq<(string, PybEntry)>>>)
      returns (es: seq<Entry>)
      requires |parsed| == |files|
      ensures Holds(es, Rows(files, parsed))
      ensures forall j :: 0 <= j < |es| ==> fresh(es[j]) && es[j].repo == this && es[j].shown == Placeholder
    {
      es := [];
      var i := 0;
      while i < |files|
        invariant 0 <= i <= |files|
        invariant Holds(es, Rows(files[..i], parsed[..i]))
        invariant forall j :: 0 <= j < |es| ==> fresh(es[j]) && es[j].repo == this && es[j].shown == Placeholder
      {
        assert files[..i + 1][..i] == files[..i] && parsed[..i + 1][..i] == parsed[..i];
        var before := Rows(files[..i], parsed[..i]);
        if parsed[i].Some? {
          var added := FileEntries(files[i], parsed[i].value);
          HoldsAppend(es, before, added, FileRows(files[i], parsed[i].value));
          es := es + added;
        }
        assert Rows(files[..i + 1], parsed[..i + 1])
          == before + (if parsed[i].Some? then FileRows(files[i], parsed[i].value) else []);
        i := i + 1;
      }
      assert files[..i] == files && parsed[..i] == parsed;
    }

    /** The loop over the entries of one parsed file. */
    method FileEntries(path: string, ps: seq<(string, PybEntry)>) returns (es: seq<Entry>)
      ensures Holds(es, FileRows(path, ps))
      ensures forall j :: 0 <= j < |es| ==> fresh(es[j]) && es[j].repo == this && es[j].shown == Placeholder
    {
      es := [];
      var k := 0;
      while k < |ps|
        invariant 0 <= k <= |ps| && |es| == k
        invariant forall j :: 0 <= j < k ==>
          es[j].source == path && es[j].payload == Bibtex(ps[j].0, ps[j].1)
        invariant forall j :: 0 <= j < |es| ==> fresh(es[j]) && es[j].repo == this && es[j].shown == Placeholder
      {
        var e := new Entry(path, Bibtex(ps[k].0, ps[k].1), this);
        es := es + [e];
        k := k + 1;
      }
    }

    method StartSearcher()
      requires Valid() && searcher == AwaitLoad && loadingDone
      modifies this
      ensures Valid() && searcher == Idle
      ensures status == old(status) && loader == old(loader) && Found() == old(Found())
      ensures Requests() == old(Requests()) && Wiring() == old(Wiring())
    {
      searcher := Idle;
    }

    method BeginLocalSearch()
      requires Valid() && kind == Local && searcher == Idle && pending
      modifies this
      ensures Valid()
      ensures searcher == Passing(old(serial), Filter(bibEntries, searchText, TitleOf, AuthorsOf), 0)
      ensures status == "searching" && loader == old(loader) && Found() == old(Found())
      ensures Requests() == old(Requests()) && Wiring() == old(Wiring())
    {
      var captured := serial;
      var _ := SetStatus("searching");
      var found := SearchEntries(bibEntries, searchText, TitleOf, AuthorsOf);
      searcher := Passing(captured, found, 0);
    }

    method BeginRemoteSearch(response: Option<seq<Payload>>)
      requires Valid() && kind == Remote && searcher == Idle && pending
      modifies this
      ensures Valid()
      ensures searcher.Passing? && searcher.captured == old(serial) && searcher.next == 0
      ensures var hits := RemoteResults(old(searchText), response);
        && |searcher.stream| == |hits|
        && forall j :: 0 <= j < |hits| ==>
             && searcher.stream[j].payload == hits[j] && searcher.stream[j].source == "dblp.org"
             && searcher.stream[j].repo == this && fresh(searcher.stream[j])
      ensures status == "searching" && loader == old(loader) && Found() == old(Found())
      ensures Requests() == old(Requests()) && Wiring() == old(Wiring())
    {
      var stream := RemoteEntries(RemoteResults(searchText, response));
      status := "searching";
      searcher := Passing(serial, stream, 0);
    }

    method RemoteEntries(hits: seq<Payload>) returns (stream: seq<Entry>)
      ensures |stream| == |hits|
      ensures forall j :: 0 <= j < |hits| ==>
        && stream[j].payload == hits[j] && stream[j].source == "dblp.org"
        && stream[j].repo == this && fresh(stream[j])
    {
      stream := [];
      var i := 0;
      while i < |hits|
        invariant 0 <= i <= |hits|
        invariant |stream| == i
        invariant forall j :: 0 <= j < i ==>
          && stream[j].payload == hits[j] && stream[j].source == "dblp.org"
          && stream[j].repo == this && fresh(stream[j])
      {
        var e := new Entry("dblp.org", hits[i], this);
        stream := stream + [e];
        i := i + 1;
      }
    }

    /** One item of the pass. Without a selection panel the lookup raises and the rest of the
        pass is dropped. Otherwise the item is marked by its bibkey and every attached sink
        receives it under the captured serial, once per time it was attached. */
    method Deliver()
      requires Valid() && searcher.Passing? && searcher.next < |searcher.stream|
      modifies this, searcher.stream[searcher.next], sinks
      ensures Valid()
      ensures status == old(status) && loader == old(loader) && Found() == old(Found())
      ensures Requests() == old(Requests()) && Wiring() == old(Wiring())
      ensures var item := old(searcher.stream[searcher.next]);
        var c := old(searcher.captured);
        if selectedEntriesPanel == null then
          && searcher == Passing(c, old(searcher.stream[..searcher.next]), old(searcher.next))
          && item.shown == old(item.shown)
          && forall s :: s in sinks ==> s.items == old(s.items) && s.serial == old(s.serial)
        else
          && searcher == old(searcher).(next := old(searcher.next) + 1)
          && item.shown == (if item.BibKey() in old(selectedEntriesPanel.entries.m) then Ticked else Cleared)
          && forall s :: s in sinks ==>
               && s.serial == old(s.serial)
               && s.items == old(s.items) + Copies(item, if old(s.serial) == c then Attached(sinks, s) else 0)
    {
      var item := searcher.stream[searcher.next];
      if selectedEntriesPanel == null {
        searcher := Passing(searcher.captured, searcher.stream[..searcher.next], searcher.next);
        return;
      }
      if item.BibKey() in selectedEntriesPanel.entries.m {
        var _ := item.Mark(Some(SelectedMark));
      } else {
        var _ := item.Mark(None);
      }
      FanOut(item, searcher.captured);
      searcher := searcher.(next := searcher.next + 1);
    }

    /** `for sink in self.search_result_sinks: sink.Add(item, serial)`. */
    method FanOut(item: Entry, c: int)
      modifies sinks
      ensures forall s :: s in sinks ==>
        && s.serial == old(s.serial)
        && s.items == old(s.items) + Copies(item, if old(s.serial) == c then Attached(sinks, s) else 0)
    {
      var targets := sinks;
      var i := 0;
      while i < |targets|
        invariant 0 <= i <= |targets|
        invariant forall s :: s in targets ==>
          && s.serial == old(s.serial)
          && s.items == old(s.items) + Copies(item, if old(s.serial) == c then Attached(targets[..i], s) else 0)
      {
        var sink := targets[i];
        AttachedStep(targets, i);
        CopiesOneMore(item, Attached(targets[..i], sink));
        sink.Add(item, c);
        i := i + 1;
      }
      assert targets[..i] == targets;
    }

    method EndSearch()
      requires Valid() && searcher.Passing?
      requires kind == Remote || searcher.next == |searcher.stream|
      modifies this
      ensures Valid()
      ensures searcher == Idle && status == "ready"
      ensures pending == (old(pending) && old(serial) != old(searcher.captured))
      ensures serial == old(serial) && searchText == old(searchText)
      ensures loader == old(loader) && Found() == old(Found()) && Wiring() == old(Wiring())
    {
      var captured := searcher.captured;
      var _ := SetStatus("ready");
      if serial == captured {
        pending := false;
      }
      searcher := Idle;
    }

    /** `OutputBibtexRepo.Write`: the null test is on the repo's own attachment, but the merge
        reads the module-level selection panel `selected`. */
    method Write(selected: SelectedKeysPanel) returns (o: Outcome)
      requires isOutput && loadingDone && selected.Valid()
      ensures selectedKeysPanel == null <==> o == NotAttached
      ensures selectedKeysPanel != null ==>
        var m := Assoc(Pairs(bibEntries)) + Assoc(Pairs(Values(selected.entries)));
        && (o.Aborted? <==> HasNone(m))
        && (o.Aborted? ==> o.key in m && m[o.key] == None)
        && (o.Written? ==> o.file == outputFile && o.data.Keys == m.Keys
                           && forall k :: k in m ==> m[k] == Some(o.data[k]))
    {
      if selectedKeysPanel == null {
        return NotAttached;
      }
      var merged := Merge(Pairs(bibEntries), Pairs(Values(selected.entries)));
      var missing := FirstNone(merged);
      if missing.Some? {
        return Aborted(missing.value);
      }
      return Written(outputFile, Unwrap(merged.m));
    }
  }

  /** `SearchBar`; the handler resets the module-level result panel `results`. */
  class SearchBar {
    var counter: int
    var repos: seq<BibRepo>

    constructor ()
      ensures counter == 0 && repos == []
    {
      counter := 0;
      repos := [];
    }

    method SetActiveRepos(rs: seq<BibRepo>)
      modifies this
      ensures repos == rs && counter == old(counter)
    {
      repos := rs;
    }

    method TextChangeHandler(results: SearchResultsPanel, text: string)
      modifies this, results, repos
      ensures repos == old(repos) && counter == old(counter) + 1
      ensures results.serial == old(counter) && results.items == []
      ensures forall i :: 0 <= i < |repos| ==>
        && repos[i].serial == old(counter) && repos[i].searchText == text && repos[i].pending
        && repos[i].Protocol() == old(repos[i].Protocol()) && repos[i].Wiring() == old(repos[i].Wiring())
    {
      results.SetSerial(counter);
      var i := 0;
      while i < |repos|
        invariant 0 <= i <= |repos|
        invariant repos == old(repos) && counter == old(counter)
        invariant results.serial == counter && results.items == []
        invariant forall j :: 0 <= j < i ==>
          repos[j].serial == counter && repos[j].searchText == text && repos[j].pending
        invariant forall j :: 0 <= j < |repos| ==>
          repos[j].Protocol() == old(repos[j].Protocol()) && repos[j].Wiring() == old(repos[j].Wiring())
      {
        repos[i].Search(text, counter);
        i := i + 1;
      }
      counter := counter + 1;
    }
  }

  function Flags(rs: seq<BibRepo>): (r: seq<bool>)
    reads rs
    ensures |r| == |rs| && forall i :: 0 <= i < |rs| ==> r[i] == rs[i].enabled
  {
    seq(|rs|, i reads rs requires 0 <= i < |rs| => rs[i].enabled)
  }

  predicate DistinctRepos(rs: seq<BibRepo>) {
    forall i, j :: 0 <= i < j < |rs| ==> rs[i] != rs[j]
  }

  /** `InputFilter`, over the module-level `bib_repos` and the top widget's focus. */
  class InputFilter {
    var repos: seq<BibRepo>
    var focus: int

    constructor (repos: seq<BibRepo>)
      ensures this.repos == repos && focus == 0
    {
      this.repos := repos;
      focus := 0;
    }

    method MaskDatabases(key: string) returns (r: Option<bool>)
      modifies this, repos
      ensures r == Verdict(key)
      ensures repos == old(repos)
      ensures focus == if r.None? then 1 - old(focus) else old(focus)
      ensures DistinctRepos(repos) ==> Flags(repos) == MaskFlags(key, old(Flags(repos)))
      ensures forall i :: 0 <= i < |repos| ==>
        repos[i].enabled == match ActionOf(key, |repos|)
          case EnableAll => true
          case DisableAll => false
          case Flip(t) => if repos[i] == repos[t] then !old(repos[t].enabled) else old(repos[i].enabled)
          case Keep => old(repos[i].enabled)
      ensures forall i :: 0 <= i < |repos| ==>
        && repos[i].Protocol() == old(repos[i].Protocol()) && repos[i].Requests() == old(repos[i].Requests())
        && repos[i].Wiring() == old(repos[i].Wiring()).(enabled := repos[i].enabled)
    {
      var action := ActionOf(key, |repos|);
      match action {
        case EnableAll => SetAll(true);
        case DisableAll => SetAll(false);
        case Flip(t) => repos[t].ToggleEnabled();
        case Keep =>
      }
      if !IsMetaKey(key) && key == "enter" {
        focus := 1 - focus;
      }
      r := Verdict(key);
    }

    method SetAll(value: bool)
      modifies repos
      ensures forall i :: 0 <= i < |repos| ==> repos[i].enabled == value
      ensures forall i :: 0 <= i < |repos| ==>
        && repos[i].Protocol() == old(repos[i].Protocol()) && repos[i].Requests() == old(repos[i].Requests())
        && repos[i].Wiring() == old(repos[i].Wiring()).(enabled := value)
    {
      var targets := repos;
      var i := 0;
      while i < |targets|
        invariant 0 <= i <= |targets|
        invariant forall j :: 0 <= j < i ==> targets[j].enabled == value
        invariant forall j :: 0 <= j < |targets| ==>
          && targets[j].Protocol() == old(targets[j].Protocol()) && targets[j].Requests() == old(targets[j].Requests())
          && targets[j].Wiring() == old(targets[j].Wiring()).(enabled := targets[j].enabled)
      {
        targets[i].SetEnabled(value);
        i := i + 1;
      }
    }
  }

  /** A local repo loads its files, its searcher starts, a query arrives and a pass begins: the
      pass holds exactly the loaded entries that match the query, in file order. */
  method LoadedEntriesReachSearch(source: string, files: seq<string>,
                                  parsed: seq<Option<seq<(string, PybEntry)>>>, text: string, s: int)
    returns (repo: BibRepo)
    requires |parsed| == |files|
    ensures repo.Valid() && Holds(repo.bibEntries, Rows(files, parsed))
    ensures repo.searcher == Passing(s, Filter(repo.bibEntries, text, TitleOf, AuthorsOf), 0)
  {
    repo := new BibRepo(source, Local, false);
    repo.StartLoading();
    var _ := repo.FinishLocalLoading(files, parsed);
    repo.StartSearcher();
    repo.Search(text, s);
    repo.BeginLocalSearch();
  }

  /** A keystroke during a pass resets the module-level result panel to a new serial; the hit
      the pass delivers next does not reach it, and the keystroke's request waits for the next
      pass. */
  method StaleDeliveryDropped(bar: SearchBar, results: SearchResultsPanel, repo: BibRepo, text: string)
    requires repo in bar.repos && results in repo.sinks
    requires repo.Valid() && repo.searcher.Passing? && repo.searcher.next < |repo.searcher.stream|
    requires repo.searcher.captured != bar.counter
    modifies bar, results, bar.repos, repo.sinks, repo.searcher.stream[repo.searcher.next]
    ensures results.items == []
    ensures repo.searchText == text && repo.pending && repo.serial == old(bar.counter)
  {
    bar.TextChangeHandler(results, text);
    repo.Deliver();
  }

  /** The wiring attaches the result panel to a repo once; each result of a current search then
      reaches that panel exactly once. */
  method OneSinkDeliversOnce(repo: BibRepo, panel: SearchResultsPanel, picked: SelectedKeysPanel)
    requires repo.Valid() && repo.searcher.Passing? && repo.searcher.next < |repo.searcher.stream|
    requires repo.sinks == [] && panel.serial == repo.searcher.captured
    modifies repo, panel, repo.searcher.stream[repo.searcher.next]
    ensures panel.items == old(panel.items) + [old(repo.searcher.stream[repo.searcher.next])]
  {
    repo.AttachSink(panel);
    repo.AttachPickedEntries(picked);
    assert repo.sinks == [panel] && repo.sinks[..0] == [];
    assert Attached(repo.sinks, panel) == 1;
    repo.Deliver();
  }
}
