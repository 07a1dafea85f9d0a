/** The few Python `str` operations the search core relies on:
    whitespace (`str.isspace`), `str.upper` on ASCII letters, the substring
    test `a in b`, `str.strip()`, `str.split()`, `sep.join(parts)` and
    `s.split(sep)` for a one-character separator. */
module Text {

  /** The code points Python's `str.isspace` (and hence `split()`/`strip()`) treats as whitespace. */
  predicate IsSpace(c: char) {
    var n := c as int;
    || (0x09 <= n <= 0x0D) || (0x1C <= n <= 0x20)
    || n == 0x85 || n == 0xA0 || n == 0x1680
    || (0x2000 <= n <= 0x200A)
    || n == 0x2028 || n == 0x2029 || n == 0x202F || n == 0x205F || n == 0x3000
  }

  predicate NoSpace(s: string) {
    forall i :: 0 <= i < |s| ==> !IsSpace(s[i])
  }

  predicate AllSpace(s: string) {
    forall i :: 0 <= i < |s| ==> IsSpace(s[i])
  }

  /** `str.upper` restricted to ASCII: lower-case letters map to upper case, everything else is kept. */
  function UpperChar(c: char): (u: char)
    ensures 'a' <= c <= 'z' ==> 'A' <= u <= 'Z' && u as int == c as int - 32
    ensures !('a' <= c <= 'z') ==> u == c
    ensures !('a' <= u <= 'z')
  {
    if 'a' <= c <= 'z' then (c as int - 32) as char else c
  }

  function Upper(s: string): (r: string)
    ensures |r| == |s|
    ensures forall i :: 0 <= i < |s| ==> r[i] == UpperChar(s[i])
  {
    if s == [] then [] else [UpperChar(s[0])] + Upper(s[1..])
  }

  lemma UpperIdempotent(s: string)
    ensures Upper(Upper(s)) == Upper(s)
  {
  }

  /** Python's `needle in hay` for strings. */
  predicate Contains(hay: string, needle: string) {
    exists i :: 0 <= i <= |hay| && OccursAt(hay, needle, i)
  }

  predicate OccursAt(hay: string, needle: string, i: int) {
    0 <= i && i + |needle| <= |hay| && hay[i..i + |needle|] == needle
  }

  /** Leading whitespace removed (the left half of `strip()`). */
  function DropSpace(s: string): (r: string)
    ensures |r| <= |s| && r == s[|s| - |r|..]
    ensures r != [] ==> !IsSpace(r[0])
  {
    if s != [] && IsSpace(s[0]) then DropSpace(s[1..]) else s
  }

  /** What `DropSpace` removes is all whitespace. */
  lemma {:induction false} DropsOnlySpace(s: string)
    ensures forall i :: 0 <= i < |s| - |DropSpace(s)| ==> IsSpace(s[i])
  {
    if s != [] && IsSpace(s[0]) {
      var tail := s[1..];
      DropsOnlySpace(tail);
      assert DropSpace(s) == DropSpace(tail);
      assert forall i :: 0 < i < |s| ==> s[i] == tail[i - 1];
    }
  }

  /** Trailing whitespace removed (the right half of `strip()`). */
  function DropSpaceRight(s: string): (r: string)
    ensures |r| <= |s| && r == s[..|r|]
    ensures r != [] ==> !IsSpace(r[|r| - 1])
  {
    if s != [] && IsSpace(s[|s| - 1]) then DropSpaceRight(s[..|s| - 1]) else s
  }

  /** What `DropSpaceRight` removes is all whitespace. */
  lemma {:induction false} DropsOnlyTrailingSpace(s: string)
    ensures forall i :: |DropSpaceRight(s)| <= i < |s| ==> IsSpace(s[i])
  {
    if s != [] && IsSpace(s[|s| - 1]) {
      var init := s[..|s| - 1];
      DropsOnlyTrailingSpace(init);
      assert DropSpaceRight(s) == DropSpaceRight(init);
      assert forall i :: 0 <= i < |init| ==> s[i] == init[i];
    }
  }

  /** `str.strip()` with no argument. */
  function Strip(s: string): string {
    DropSpaceRight(DropSpace(s))
  }

  /** The longest whitespace-free prefix. */
  function Word(s: string): (w: string)
    ensures |w| <= |s| && w == s[..|w|]
    ensures NoSpace(w)
    ensures |w| < |s| ==> IsSpace(s[|w|])
  {
    if s == [] || IsSpace(s[0]) then [] else [s[0]] + Word(s[1..])
  }

  /** `str.split()` with no argument: the maximal runs of non-whitespace, in order. */
  function Split(s: string): seq<string>
    decreases |s|
  {
    var t := DropSpace(s);
    if t == [] then []
    else
      var w := Word(t);
      assert |t[|w|..]| < |s|;
      [w] + Split(t[|w|..])
  }

  /** Every token `split()` yields is non-empty and free of whitespace. */
  lemma {:induction false} SplitTokens(s: string)
    ensures Tokens(Split(s))
    decreases |s|
  {
    var t := DropSpace(s);
    if t == [] {
      assert Split(s) == [];
    } else {
      var w := Word(t);
      var rest := t[|w|..];
      SplitTokens(rest);
      assert w != [] && NoSpace(w);
      ConsTokens(w, Split(rest));
      assert Split(s) == [w] + Split(rest);
    }
  }

  /** Non-empty whitespace-free words, the shape of what `split()` yields. */
  predicate Tokens(parts: seq<string>) {
    forall k :: 0 <= k < |parts| ==> parts[k] != [] && NoSpace(parts[k])
  }

  lemma ConsTokens(w: string, parts: seq<string>)
    requires w != [] && NoSpace(w) && Tokens(parts)
    ensures Tokens([w] + parts)
  {
    assert forall k :: 0 < k <= |parts| ==> ([w] + parts)[k] == parts[k - 1];
  }

  /** The text `strip()` leaves empty is exactly the text `split()` finds no token in. */
  lemma StripEmptyIffNoTokens(s: string)
    ensures Strip(s) == [] <==> Split(s) == []
    ensures Strip(s) == [] <==> AllSpace(s)
  {
    var t := DropSpace(s);
    DropsOnlySpace(s);
    if t == [] {
      assert s[..|s|] == s;
      assert Strip(s) == [] && Split(s) == [] && AllSpace(s);
    } else {
      KeepsFirstWord(t);
      assert Split(s) != [];
      assert s[|s| - |t|] == t[0] && !IsSpace(t[0]);
      assert !AllSpace(s);
    }
  }

  lemma {:induction false} KeepsFirstWord(t: string)
    requires t != [] && !IsSpace(t[0])
    ensures DropSpaceRight(t) != []
    decreases |t|
  {
    if IsSpace(t[|t| - 1]) {
      assert |t| > 1;
      KeepsFirstWord(t[..|t| - 1]);
    }
  }

  /** `not s.strip()`: the text is nothing but whitespace, decided one character at a time. */
  predicate Blank(s: string) {
    s == [] || (IsSpace(s[0]) && Blank(s[1..]))
  }

  lemma {:induction false} BlankIsAllSpace(s: string)
    ensures Blank(s) <==> AllSpace(s)
  {
    if s != [] {
      BlankIsAllSpace(s[1..]);
      assert forall i :: 0 < i < |s| ==> s[i] == s[1..][i - 1];
    }
  }

  /** The character-by-character test agrees with `strip()` and with `split()`. */
  lemma BlankIffStripEmpty(s: string)
    ensures Blank(s) <==> Strip(s) == []
    ensures Blank(s) <==> Split(s) == []
  {
    BlankIsAllSpace(s);
    StripEmptyIffNoTokens(s);
  }

  /** `' '.join(parts)`. */
  function JoinSpace(parts: seq<string>): string {
    if parts == [] then ""
    else if |parts| == 1 then parts[0]
    else parts[0] + " " + JoinSpace(parts[1..])
  }

  lemma {:induction false} WordOfPrefix(w: string, rest: string)
    requires NoSpace(w)
    requires rest == [] || IsSpace(rest[0])
    ensures Word(w + rest) == w
  {
    if w == [] {
      assert w + rest == rest;
    } else {
      var s := w + rest;
      assert s[0] == w[0] && !IsSpace(w[0]);
      assert s[1..] == w[1..] + rest;
      WordOfPrefix(w[1..], rest);
      assert Word(s) == [w[0]] + w[1..];
    }
  }

  lemma DropSpaceOfWordFirst(s: string)
    requires s == [] || !IsSpace(s[0])
    ensures DropSpace(s) == s
  {
  }

  /** A leading word followed by whitespace (or nothing) is the first token. */
  lemma SplitWordFirst(w: string, rest: string)
    requires w != [] && NoSpace(w)
    requires rest == [] || IsSpace(rest[0])
    ensures Split(w + rest) == [w] + Split(rest)
  {
    var s := w + rest;
    assert s[0] == w[0];
    DropSpaceOfWordFirst(s);
    WordOfPrefix(w, rest);
    assert s[|w|..] == rest;
  }

  lemma SplitSpaceFirst(c: char, rest: string)
    requires IsSpace(c)
    ensures Split([c] + rest) == Split(rest)
  {
    assert ([c] + rest)[1..] == rest;
  }

  /** Splitting the space-joined tokens gives the tokens back, as long as every token is a
      non-empty whitespace-free word (which is what `split()` produces). */
  lemma {:induction false} SplitJoinSpace(parts: seq<string>)
    requires Tokens(parts)
    ensures Split(JoinSpace(parts)) == parts
  {
    if |parts| <= 1 {
      SplitJoinShort(parts);
    } else {
      var tail := parts[1..];
      assert forall k :: 0 <= k < |tail| ==> tail[k] == parts[k + 1];
      SplitJoinSpace(tail);
      SplitJoinStep(parts);
    }
  }

  /** The base cases: no word, or a single word. */
  lemma SplitJoinShort(parts: seq<string>)
    requires |parts| <= 1
    requires parts != [] ==> parts[0] != [] && NoSpace(parts[0])
    ensures Split(JoinSpace(parts)) == parts
  {
    if parts == [] {
      assert JoinSpace(parts) == "";
      SplitNothing();
    } else {
      assert JoinSpace(parts) == parts[0];
      SplitOneWord(parts[0]);
      assert [parts[0]] == parts;
    }
  }

  lemma SplitNothing()
    ensures Split("") == []
  {
    assert DropSpace("") == "";
  }

  lemma SplitOneWord(w: string)
    requires w != [] && NoSpace(w)
    ensures Split(w) == [w]
  {
    SplitWordFirst(w, []);
    SplitNothing();
    assert w + [] == w;
  }

  /** One step of the induction: the first word, a space, and the joined rest. */
  lemma SplitJoinStep(parts: seq<string>)
    requires |parts| > 1 && parts[0] != [] && NoSpace(parts[0])
    requires Split(JoinSpace(parts[1..])) == parts[1..]
    ensures Split(JoinSpace(parts)) == parts
  {
    var w, tail := parts[0], parts[1..];
    var rest := JoinSpace(tail);
    JoinSpaceCons(parts);
    SplitWordSpace(w, rest);
    HeadTail(parts);
  }

  lemma HeadTail<T>(s: seq<T>)
    requires s != []
    ensures [s[0]] + s[1..] == s
  {
  }

  lemma JoinSpaceCons(parts: seq<string>)
    requires |parts| > 1
    ensures JoinSpace(parts) == parts[0] + ([' '] + JoinSpace(parts[1..]))
  {
    assert " " == [' '];
  }

  lemma SplitWordSpace(w: string, rest: string)
    requires w != [] && NoSpace(w)
    ensures Split(w + ([' '] + rest)) == [w] + Split(rest)
  {
    SplitWordFirst(w, [' '] + rest);
    SplitSpaceFirst(' ', rest);
  }

  /** `sep.join(parts)` for a one-character separator. */
  function Join(sep: char, parts: seq<string>): string {
    if parts == [] then ""
    else if |parts| == 1 then parts[0]
    else parts[0] + [sep] + Join(sep, parts[1..])
  }

  /** `s.split(sep)` for a one-character separator: never empty, `"".split(",") == [""]`. */
  function SplitOn(sep: char, s: string): (r: seq<string>)
    ensures |r| >= 1
    decreases |s|
  {
    if sep !in s then [s]
    else
      var i := IndexOf(sep, s);
      [s[..i]] + SplitOn(sep, s[i + 1..])
  }

  function IndexOf(c: char, s: string): (i: nat)
    requires c in s
    ensures i < |s| && s[i] == c && c !in s[..i]
  {
    if s[0] == c then 0 else 1 + IndexOf(c, s[1..])
  }

  /** Joining with a separator no part contains, then splitting on it, gives the parts back,
      except for the empty list: `",".join([])` and `",".join([""])` are both `""`. */
  lemma {:induction false} SplitOnJoin(sep: char, parts: seq<string>)
    requires parts != []
    requires forall k :: 0 <= k < |parts| ==> sep !in parts[k]
    ensures SplitOn(sep, Join(sep, parts)) == parts
  {
    if |parts| == 1 {
    } else {
      var p := parts[0];
      var rest := Join(sep, parts[1..]);
      var s := p + [sep] + rest;
      IndexOfAfter(p, sep, rest);
      var i := IndexOf(sep, s);
      assert s[..i] == p;
      assert s[i + 1..] == rest;
      SplitOnJoin(sep, parts[1..]);
    }
  }

  /** The first separator after a separator-free prefix sits right after the prefix. */
  lemma {:induction false} IndexOfAfter(p: string, sep: char, rest: string)
    requires sep !in p
    ensures sep in p + [sep] + rest && IndexOf(sep, p + [sep] + rest) == |p|
  {
    var s := p + [sep] + rest;
    if p == [] {
      assert s[0] == sep;
    } else {
      assert s[0] == p[0] && s[1..] == p[1..] + [sep] + rest;
      IndexOfAfter(p[1..], sep, rest);
    }
  }

  lemma JoinEmptyCollides(sep: char)
    ensures Join(sep, []) == Join(sep, [""])
  {
  }
}
