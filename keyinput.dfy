/** What `InputFilter.MaskDatabases` does to the repos' `enabled` flags for one key name. */
module KeyInput {
  import opened Text
  import opened Records

  /** The symbols that alt+shift+digit produces, in digit order: ')' is 0, '!' is 1, ... */
  const Symbols := ")!@#$%^&*("

  /** `symbol_number_map.get(symbol)`: the digit of a one-symbol string, or `None`. */
  function SymbolNumber(symbol: string): (r: Option<nat>)
    ensures r.Some? <==> |symbol| == 1 && symbol[0] in Symbols
    ensures r.Some? ==> r.value < 10 && Symbols[r.value] == symbol[0]
  {
    if |symbol| == 1 && symbol[0] in Symbols then Some(IndexOf(symbol[0], Symbols)) else None
  }

  /** `'meta ' in key`. */
  predicate IsMetaKey(key: string) {
    Contains(key, "meta ")
  }

  /** Python's `key[5:]`, which is empty for a key shorter than five characters. */
  function SymbolOf(key: string): string {
    if |key| >= 5 then key[5..] else ""
  }

  /** What happens to the flags of the repos, listed in the order of `bib_repos`. */
  datatype Action = EnableAll | DisableAll | Flip(index: nat) | Keep

  /** The decision the chain of tests reaches. `number - 1` is at least 0 here, so Python's
      negative indexing never comes into play; an index past the end raises `IndexError` and a
      symbol outside the map gives `None - 1`, a `TypeError`; the bare `except` swallows both. */
  function ActionOf(key: string, count: nat): Action {
    if !IsMetaKey(key) then Keep
    else
      var symbol := SymbolOf(key);
      if symbol == "~" then EnableAll
      else match SymbolNumber(symbol)
        case None => Keep
        case Some(n) =>
          if n == 0 then DisableAll
          else if n - 1 < count then Flip(n - 1)
          else Keep
  }

  /** The flags after the key. */
  function MaskFlags(key: string, flags: seq<bool>): (r: seq<bool>)
    ensures |r| == |flags|
  {
    match ActionOf(key, |flags|)
    case EnableAll => seq(|flags|, _ => true)
    case DisableAll => seq(|flags|, _ => false)
    case Flip(i) => flags[i := !flags[i]]
    case Keep => flags
  }

  /** The return value: `True` for any key containing "meta ", nothing (`None`) for "enter",
      which instead swaps the focus, and `False` otherwise. */
  function Verdict(key: string): (r: Option<bool>)
    ensures r == Some(true) <==> IsMetaKey(key)
    ensures r == None <==> !IsMetaKey(key) && key == "enter"
  {
    if IsMetaKey(key) then Some(true) else if key == "enter" then None else Some(false)
  }

  lemma MetaPrefix(symbol: string)
    ensures IsMetaKey("meta " + symbol) && SymbolOf("meta " + symbol) == symbol
  {
    assert OccursAt("meta " + symbol, "meta ", 0);
  }

  /** "meta ~" enables every repo. */
  lemma TildeEnablesAll(flags: seq<bool>)
    ensures forall i :: 0 <= i < |flags| ==> MaskFlags("meta ~", flags)[i]
  {
    MetaPrefix("~");
    assert "meta " + "~" == "meta ~";
    assert ActionOf("meta ~", |flags|) == EnableAll;
  }

  /** "meta )" (alt+shift+0) disables every repo. */
  lemma ZeroDisablesAll(flags: seq<bool>)
    ensures forall i :: 0 <= i < |flags| ==> !MaskFlags("meta )", flags)[i]
  {
    MetaPrefix(")");
    assert "meta " + ")" == "meta )";
    assert SymbolNumber(")") == Some(0);
    assert ActionOf("meta )", |flags|) == DisableAll;
  }

  /** "meta <symbol of n>" for 1 <= n <= 9 flips repo n-1 and no other, and only when there is
      such a repo. */
  lemma DigitFlipsOne(n: nat, flags: seq<bool>)
    requires 1 <= n <= 9
    ensures var r := MaskFlags("meta " + [Symbols[n]], flags);
      && (n - 1 < |flags| ==> r[n - 1] == !flags[n - 1])
      && forall i :: 0 <= i < |flags| && i != n - 1 ==> r[i] == flags[i]
  {
    var symbol := [Symbols[n]];
    MetaPrefix(symbol);
    SymbolsDistinct();
    var i := IndexOf(Symbols[n], Symbols);
    assert i == n;
    assert SymbolNumber(symbol) == Some(n);
  }

  /** No symbol stands for two digits. */
  lemma SymbolsDistinct()
    ensures forall i, j :: 0 <= i < j < |Symbols| ==> Symbols[i] != Symbols[j]
  {
    assert Symbols == [')', '!', '@', '#', '$', '%', '^', '&', '*', '('];
  }

  /** Pressing the same key twice restores the flags when it flips one repo, and changes nothing
      more the second time when it enables or disables them all. */
  lemma SecondPress(key: string, flags: seq<bool>)
    ensures ActionOf(key, |flags|).Flip? ==> MaskFlags(key, MaskFlags(key, flags)) == flags
    ensures !ActionOf(key, |flags|).Flip? ==>
      MaskFlags(key, MaskFlags(key, flags)) == MaskFlags(key, flags)
  {
  }

  /** A key without "meta " in it leaves every flag alone. */
  lemma OtherKeysKeepFlags(key: string, flags: seq<bool>)
    requires !IsMetaKey(key)
    ensures MaskFlags(key, flags) == flags && Verdict(key) != Some(true)
  {
  }
}
