/** The extended regular expressions of section 9.4 of IEEE Std 1003.1, as far as the glob translator emits them,
    and the two engines the library can be built with. */
module Regex {
  import opened Options

  datatype Atom = Lit(c: char) | Any

  datatype Item = One(atom: Atom) | Star(atom: Atom) | Plus(atom: Atom) | LineStart | LineEnd

  predicate Fits(a: Atom, c: char) {
    a.Any? || a.c == c
  }

  // ----- syntax

  /** Characters that need a construct outside the subset when they stand unescaped. */
  predicate Outside(c: char) {
    c in "*+?|()[{"
  }

  /** The atom at the front of `re` and what follows it. */
  function ParseAtom(re: string): (r: Option<(Atom, string)>)
    ensures r.Some? ==> |r.value.1| < |re|
  {
    if re == "" || Outside(re[0]) then None
    else if re[0] == '.' then Some((Any, re[1..]))
    else if re[0] != '\\' then Some((Lit(re[0]), re[1..]))
    else if |re| == 1 then None
    else Some((Lit(re[1]), re[2..]))
  }

  function Parse(re: string): Option<seq<Item>>
    decreases |re|
  {
    if re == "" then Some([])
    else if re[0] == '^' then Prepend(LineStart, Parse(re[1..]))
    else if re[0] == '$' then Prepend(LineEnd, Parse(re[1..]))
    else
      match ParseAtom(re)
      case None => None
      case Some((a, rest)) =>
        if rest != "" && rest[0] == '*' then Prepend(Star(a), Parse(rest[1..]))
        else if rest != "" && rest[0] == '+' then Prepend(Plus(a), Parse(rest[1..]))
        else Prepend(One(a), Parse(rest))
  }

  function Prepend(item: Item, items: Option<seq<Item>>): Option<seq<Item>> {
    if items.None? then None else Some([item] + items.value)
  }

  // ----- semantics

  /** The items match `s` from position `i` on, all of it if `whole` is set. Anchors look at positions only. */
  predicate MatchAt(items: seq<Item>, s: string, i: nat, whole: bool)
    requires i <= |s|
    decreases |items|, |s| - i
  {
    if items == [] then !whole || i == |s|
    else
      match items[0]
      case One(a) => i < |s| && Fits(a, s[i]) && MatchAt(items[1..], s, i + 1, whole)
      case Star(a) => MatchAt(items[1..], s, i, whole) || (i < |s| && Fits(a, s[i]) && MatchAt(items, s, i + 1, whole))
      case Plus(a) => i < |s| && Fits(a, s[i]) && MatchAt([Star(a)] + items[1..], s, i + 1, whole)
      case LineStart => i == 0 && MatchAt(items[1..], s, i, whole)
      case LineEnd => i == |s| && MatchAt(items[1..], s, i, whole)
  }

  /** The engine: std::regex_match takes the whole string; POSIX regexec searches and the wrapper around it
      refuses regular expressions longer than 2040 characters. What a regular expression outside the subset
      matches is left open. */
  datatype Engine = Engine(posix: bool, other: (string, string) -> bool)

  function Unbracketed(re: string): string {
    if |re| > 1 && re[0] == '/' && re[|re| - 1] == '/' then re[1..|re| - 1] else re
  }

  /** Whether uvm_re_match reports success. */
  predicate Accepts(engine: Engine, re: string, s: string) {
    if engine.posix && |re| > 2040 then false
    else
      match Parse(Unbracketed(re))
      case None => engine.other(Unbracketed(re), s)
      case Some(items) =>
        if engine.posix then FoundIn(items, s) else MatchAt(items, s, 0, true)
  }

  /** Somewhere in `s` a match starts. */
  predicate FoundIn(items: seq<Item>, s: string) {
    exists i :: 0 <= i <= |s| && MatchAt(items, s, i, false)
  }
}
