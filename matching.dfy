/** `BibEntry.Match` and the local search filter built on it. */
module Matching {
  import opened Text
  import opened Records

  /** Keywords shorter than three characters take no part in matching. */
  predicate Significant(k: string) {
    |k| >= 3
  }

  /** A query with no significant keyword is "trivial". */
  predicate Trivial(keywords: seq<string>) {
    forall i :: 0 <= i < |keywords| ==> !Significant(keywords[i])
  }

  predicate AuthorHit(k: string, authors: seq<string>) {
    exists j :: 0 <= j < |authors| && Contains(Upper(authors[j]), Upper(k))
  }

  /** The keyword occurs, ignoring case, in the title or in at least one author. */
  predicate KeywordHit(k: string, title: string, authors: seq<string>) {
    Contains(Upper(title), Upper(k)) || AuthorHit(k, authors)
  }

  /** What `Match` decides: the query is not trivial and every significant keyword hits. */
  predicate Matches(title: string, authors: seq<string>, keywords: seq<string>) {
    && !Trivial(keywords)
    && forall i :: 0 <= i < |keywords| && Significant(keywords[i]) ==> KeywordHit(keywords[i], title, authors)
  }

  /** `Match`: scan the significant keywords, give up at the first one that hits neither the
      title nor any author, and answer "no" when no keyword was significant. */
  method Match(title: string, authors: seq<string>, keywords: seq<string>) returns (r: bool)
    ensures r <==> Matches(title, authors, keywords)
    ensures Trivial(keywords) ==> !r
  {
    var trivial := true;
    var i := 0;
    while i < |keywords|
      invariant 0 <= i <= |keywords|
      invariant trivial <==> forall n :: 0 <= n < i ==> !Significant(keywords[n])
      invariant forall n :: 0 <= n < i && Significant(keywords[n]) ==> KeywordHit(keywords[n], title, authors)
    {
      var keyword := keywords[i];
      if |keyword| >= 3 {
        trivial := false;
        if !Contains(Upper(title), Upper(keyword)) {
          var matched := false;
          var j := 0;
          while j < |authors|
            invariant 0 <= j <= |authors|
            invariant !matched
            invariant forall n :: 0 <= n < j ==> !Contains(Upper(authors[n]), Upper(keyword))
          {
            if Contains(Upper(authors[j]), Upper(keyword)) {
              matched := true;
              break;
            }
            j := j + 1;
          }
          if !matched {
            assert !KeywordHit(keyword, title, authors);
            return false;
          }
        }
      }
      i := i + 1;
    }
    return !trivial;
  }

  function UpperAll(s: seq<string>): (r: seq<string>)
    ensures |r| == |s| && forall i :: 0 <= i < |s| ==> r[i] == Upper(s[i])
  {
    if s == [] then [] else [Upper(s[0])] + UpperAll(s[1..])
  }

  lemma KeywordHitIgnoresCase(k: string, title: string, authors: seq<string>)
    ensures KeywordHit(Upper(k), Upper(title), UpperAll(authors)) <==> KeywordHit(k, title, authors)
  {
    var ua := UpperAll(authors);
    UpperIdempotent(title);
    UpperIdempotent(k);
    if AuthorHit(k, authors) {
      var j :| 0 <= j < |authors| && Contains(Upper(authors[j]), Upper(k));
      UpperIdempotent(authors[j]);
      assert Contains(Upper(ua[j]), Upper(Upper(k)));
    }
    if AuthorHit(Upper(k), ua) {
      var j :| 0 <= j < |ua| && Contains(Upper(ua[j]), Upper(Upper(k)));
      UpperIdempotent(authors[j]);
      assert Contains(Upper(authors[j]), Upper(k));
    }
  }

  /** Matching ignores case in the title, the authors and the keywords alike. */
  lemma MatchesIgnoresCase(title: string, authors: seq<string>, keywords: seq<string>)
    ensures Matches(Upper(title), UpperAll(authors), UpperAll(keywords)) <==> Matches(title, authors, keywords)
  {
    var uk := UpperAll(keywords);
    forall i | 0 <= i < |keywords|
      ensures Significant(uk[i]) == Significant(keywords[i])
      ensures KeywordHit(uk[i], Upper(title), UpperAll(authors)) <==> KeywordHit(keywords[i], title, authors)
    {
      KeywordHitIgnoresCase(keywords[i], title, authors);
    }
  }

  /** The entries of `s` that `keep` accepts, in their original order. */
  function Select<E>(s: seq<E>, keep: E -> bool): seq<E> {
    if s == [] then [] else (if keep(s[0]) then [s[0]] else []) + Select(s[1..], keep)
  }

  lemma {:induction false} SelectAppend<E>(a: seq<E>, b: seq<E>, keep: E -> bool)
    ensures Select(a + b, keep) == Select(a, keep) + Select(b, keep)
  {
    if a == [] {
      assert a + b == b;
    } else {
      var head := if keep(a[0]) then [a[0]] else [];
      assert (a + b)[0] == a[0] && (a + b)[1..] == a[1..] + b;
      SelectAppend(a[1..], b, keep);
      assert Select(a + b, keep) == head + Select(a[1..] + b, keep);
      assert Select(a, keep) == head + Select(a[1..], keep);
    }
  }

  lemma SelectSnoc<E>(s: seq<E>, x: E, keep: E -> bool)
    ensures Select(s + [x], keep) == Select(s, keep) + (if keep(x) then [x] else [])
  {
    SelectAppend(s, [x], keep);
    assert Select([x], keep) == (if keep(x) then [x] else []) + Select([], keep);
  }

  /** One more element of the scan: it is kept exactly when `keep` accepts it. */
  lemma SelectStep<E>(s: seq<E>, i: nat, keep: E -> bool)
    requires i < |s|
    ensures Select(s[..i + 1], keep) == Select(s[..i], keep) + (if keep(s[i]) then [s[i]] else [])
  {
    assert s[..i + 1] == s[..i] + [s[i]];
    SelectSnoc(s[..i], s[i], keep);
  }

  lemma {:induction false} SelectMembers<E>(s: seq<E>, keep: E -> bool, x: E)
    ensures x in Select(s, keep) <==> x in s && keep(x)
  {
    if s != [] {
      SelectMembers(s[1..], keep, x);
      assert s == [s[0]] + s[1..];
    }
  }

  /** `a` is `b` with some elements left out, the rest kept in order. */
  predicate Subsequence<E(==)>(a: seq<E>, b: seq<E>)
    decreases |b|
  {
    || a == []
    || (b != [] && ((a[0] == b[0] && Subsequence(a[1..], b[1..])) || Subsequence(a, b[1..])))
  }

  lemma {:induction false} SelectKeepsOrder<E>(s: seq<E>, keep: E -> bool)
    ensures Subsequence(Select(s, keep), s)
  {
    if s != [] {
      SelectKeepsOrder(s[1..], keep);
      var sel := Select(s, keep);
      if keep(s[0]) {
        assert sel == [s[0]] + Select(s[1..], keep);
        assert sel[0] == s[0] && sel[1..] == Select(s[1..], keep);
      } else {
        assert sel == Select(s[1..], keep);
      }
    }
  }

  /** `SearchingThreadMain` of a local repo: nothing for blank text, otherwise the entries
      `Match` accepts for the whitespace-separated words of the text, in their order. */
  function Filter<E>(entries: seq<E>, text: string, title: E -> string, authors: E -> seq<string>): seq<E> {
    if Blank(text) then []
    else Select(entries, e => Matches(title(e), authors(e), Split(text)))
  }

  lemma FilterExactly<E>(entries: seq<E>, text: string, title: E -> string, authors: E -> seq<string>, e: E)
    ensures Split(text) == [] ==> Filter(entries, text, title, authors) == []
    ensures Split(text) != [] ==>
      (e in Filter(entries, text, title, authors) <==> e in entries && Matches(title(e), authors(e), Split(text)))
    ensures Subsequence(Filter(entries, text, title, authors), entries)
  {
    var keep := e => Matches(title(e), authors(e), Split(text));
    BlankIffStripEmpty(text);
    SelectMembers(entries, keep, e);
    SelectKeepsOrder(entries, keep);
  }

  /** `DblpRepo.SearchingThreadMain`: the hits a DBLP search yields, with the response (`None`
      when it carries no "hit" list) passed in: nothing for blank text, for which no request is
      made, otherwise the listed hits in response order. */
  function RemoteResults<P>(text: string, response: Option<seq<P>>): seq<P> {
    if Blank(text) || response.None? then [] else response.value
  }

  /** Text with no keyword in it yields no hits, whatever the response; otherwise the hits are
      those the response lists, or none when it lists none. */
  lemma RemoteResultsCases<P>(text: string, response: Option<seq<P>>)
    ensures Split(text) == [] ==> RemoteResults(text, response) == []
    ensures Split(text) != [] && response.Some? ==> RemoteResults(text, response) == response.value
    ensures response.None? ==> RemoteResults(text, response) == []
  {
    BlankIffStripEmpty(text);
  }

  /** The generator run to the end: `Match` on each entry in turn. */
  method SearchEntries<E>(entries: seq<E>, text: string, title: E -> string, authors: E -> seq<string>)
    returns (found: seq<E>)
    ensures found == Filter(entries, text, title, authors)
  {
    if Blank(text) {
      return [];
    }
    var keywords := Split(text);
    var keep := e => Matches(title(e), authors(e), keywords);
    found := [];
    var i := 0;
    while i < |entries|
      invariant 0 <= i <= |entries|
      invariant found == Select(entries[..i], keep)
    {
      var e := entries[i];
      var hit := Match(title(e), authors(e), keywords);
      SelectStep(entries, i, keep);
      if hit {
        found := found + [e];
      }
      i := i + 1;
    }
    assert entries[..i] == entries;
  }
}
