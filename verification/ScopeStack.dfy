/** The stack of scope names kept by the packer, and the leaf of a joined scope name. */
module ScopeStack {

  predicate Bracketed(s: string) {
    s != "" && s[0] in "[({"
  }

  // ----- integers as text

  function Digits(n: nat): (s: string)
    ensures s != "" && forall c :: c in s ==> '0' <= c <= '9'
  {
    var d := [('0' as int + n % 10) as char];
    if n < 10 then d else Digits(n / 10) + d
  }

  /** What a text of digits stands for. */
  function Numeral(s: string): nat
    requires forall c :: c in s ==> '0' <= c <= '9'
  {
    if s == "" then 0
    else
      var front, last := s[..|s| - 1], s[|s| - 1];
      assert last in s && forall c :: c in front ==> c in s;
      10 * Numeral(front) + (last as int - '0' as int)
  }

  /** The digits are those of the number, without leading zeros. */
  lemma {:induction false} DigitsExact(n: nat)
    ensures Numeral(Digits(n)) == n && (|Digits(n)| > 1 ==> Digits(n)[0] != '0')
  {
    var d := [('0' as int + n % 10) as char];
    if n < 10 {
      assert d[..0] == "";
    } else {
      DigitsExact(n / 10);
      assert (Digits(n / 10) + d)[..|Digits(n / 10)|] == Digits(n / 10);
      if |Digits(n / 10)| == 1 {
        assert Digits(n / 10)[..0] == "";
        assert n / 10 == Numeral(Digits(n / 10)) == Digits(n / 10)[0] as int - '0' as int;
      }
    }
  }

  function ElementName(i: int): string {
    "[" + (if i < 0 then "-" + Digits(-i) else Digits(i)) + "]"
  }

  /** An element is its number in decimal, between square brackets. */
  lemma ElementNameExact(i: int)
    ensures var s := ElementName(i);
            && |s| > 2 && s[0] == '[' && s[|s| - 1] == ']'
            && var inner := if i < 0 then s[2..|s| - 1] else s[1..|s| - 1];
            && (i < 0 ==> s[1] == '-') && (forall c :: c in inner ==> '0' <= c <= '9')
            && Numeral(inner) == if i < 0 then -i else i
  {
    hide Numeral;
    var s, digits := ElementName(i), Digits(if i < 0 then -i else i);
    DigitsExact(if i < 0 then -i else i);
    assert digits == if i < 0 then s[2..|s| - 1] else s[1..|s| - 1];
  }

  // ----- what the operations do to the stack

  /** The stack after up(separator): everything down to and including the nearest matching entry is popped. */
  function AfterUp(stack: seq<string>, separator: char): (r: seq<string>)
    ensures r <= stack
  {
    if stack == [] then []
    else
      var s, below := stack[|stack| - 1], stack[..|stack| - 1];
      if (if separator == '.' then !Bracketed(s) else s != "" && s[0] == separator) then below
      else AfterUp(below, separator)
  }

  function AfterUpElement(stack: seq<string>): seq<string>
  {
    if stack == [] then []
    else
      var s := stack[|stack| - 1];
      if s != "" && s[0] != '[' then stack else stack[..|stack| - 1]
  }

  /** How get() joins the stack: elements follow directly, names after a dot. */
  function Joined(stack: seq<string>): string
    requires stack != []
  {
    if |stack| == 1 then stack[0]
    else
      var v := stack[|stack| - 1];
      Joined(stack[..|stack| - 1]) + (if Bracketed(v) then v else "." + v)
  }

  function FullScope(stack: seq<string>, arg: string): string
  {
    if stack == [] then arg
    else
      var g := Joined(stack);
      if arg == "" then g else if g == "" then arg else g + "." + arg
  }

  class ScopeStack {
    var stack: seq<string>
    var arg: string

    constructor ()
      ensures stack == [] && arg == ""
    {
      stack, arg := [], "";
    }

    method Get() returns (g: string)
      ensures g == FullScope(stack, arg)
    {
      if |stack| == 0 {
        return arg;
      }
      g := stack[0];
      var i := 1;
      while i < |stack|
        invariant 1 <= i <= |stack|
        invariant g == Joined(stack[..i])
      {
        var v := stack[i];
        assert stack[..i + 1][..i] == stack[..i];
        if v != "" && v[0] in "[({" {
          g := g + v;
        } else {
          g := g + "." + v;
        }
        i := i + 1;
      }
      assert stack[..i] == stack;
      if arg != "" {
        g := if g != "" then g + "." + arg else arg;
      }
    }

    method Set(s: string)
      modifies this
      ensures stack == [s] && arg == ""
    {
      stack := [s];
      arg := "";
    }

    method Down(s: string)
      modifies this
      ensures stack == old(stack) + [s] && arg == ""
    {
      stack := stack + [s];
      arg := "";
    }

    method DownElement(element: int)
      modifies this
      ensures stack == old(stack) + [ElementName(element)] && arg == ""
    {
      stack := stack + [ElementName(element)];
      arg := "";
    }

    method UpElement()
      modifies this
      ensures stack == AfterUpElement(old(stack)) && arg == old(arg)
    {
      if |stack| == 0 {
        return;
      }
      var s := stack[|stack| - 1];
      stack := stack[..|stack| - 1];
      if s != "" && s[0] != '[' {
        stack := stack + [s];
        assert stack == old(stack);
      }
    }

    method Up(separator: char)
      modifies this
      ensures stack == AfterUp(old(stack), separator) && arg == ""
    {
      var found := false;
      while |stack| != 0 && !found
        invariant AfterUp(old(stack), separator) == if found then stack else AfterUp(stack, separator)
        decreases |stack|
      {
        var s := stack[|stack| - 1];
        stack := stack[..|stack| - 1];
        if separator == '.' {
          if s == "" || (s[0] != '[' && s[0] != '(' && s[0] != '{') {
            found := true;
          }
        } else if s != "" && s[0] == separator {
          found := true;
        }
      }
      arg := "";
    }
  }

  /** up() undoes down(name) exactly when the separator closes the name or nothing lies beneath it: the dot closes every
      name that opens no bracket, any other separator the names that start with it. Otherwise it goes on below. */
  lemma DownUpExact(stack: seq<string>, name: string, separator: char)
    ensures var closed := if separator == '.' then name == "" || name[0] !in "[({" else name != "" && name[0] == separator;
            && (AfterUp(stack + [name], separator) == stack <==> closed || stack == [])
            && (!closed ==> AfterUp(stack + [name], separator) == AfterUp(stack, separator))
  {
    assert (stack + [name])[..|stack|] == stack;
    if stack != [] {
      UpPops(stack, separator);
    }
  }

  lemma {:induction false} UpPops(stack: seq<string>, separator: char)
    requires stack != []
    ensures |AfterUp(stack, separator)| < |stack|
  {
  }

  /** up_element() undoes down(name) exactly when the name is empty or an element; any other name it leaves alone. */
  lemma ElementUpExact(stack: seq<string>, name: string)
    ensures AfterUpElement(stack + [name]) == if name == "" || name[0] == '[' then stack else stack + [name]
    ensures AfterUpElement([]) == []
  {
    assert (stack + [name])[..|stack|] == stack;
  }

  /** The argument comes last, behind a dot if anything precedes it; a name that opens a bracket follows directly. */
  lemma JoinedExact(stack: seq<string>, v: string, arg: string)
    ensures FullScope([], arg) == arg && FullScope([v], "") == v
    ensures stack != [] ==> FullScope(stack + [v], "") == FullScope(stack, "") + if Bracketed(v) then v else "." + v
    ensures arg != "" ==> var g := FullScope(stack, ""); FullScope(stack, arg) == if g == "" then arg else g + "." + arg
  {
    assert (stack + [v])[..|stack|] == stack;
  }

  // ----- well-nested use

  datatype Nest = InName(name: string, inside: seq<Nest>) | InElement(index: int, inside: seq<Nest>)

  /** The stack after performing the nests one after the other, each leaving with the matching operation. */
  function Perform(nests: seq<Nest>, stack: seq<string>): seq<string>
    decreases nests
  {
    if nests == [] then stack
    else
      var s := match nests[0]
               case InName(name, inside) => AfterUp(Perform(inside, stack + [name]), '.')
               case InElement(i, inside) => AfterUpElement(Perform(inside, stack + [ElementName(i)]));
      Perform(nests[1..], s)
  }

  predicate PlainNames(nests: seq<Nest>)
    decreases nests
  {
    forall n :: n in nests ==> PlainNames(n.inside) && (n.InName? ==> !Bracketed(n.name))
  }

  /** Any well-nested use whose names open no bracket leaves the stack as it found it. */
  lemma {:induction false} WellNestedRestores(nests: seq<Nest>, stack: seq<string>)
    requires PlainNames(nests)
    ensures Perform(nests, stack) == stack
    decreases nests
  {
    if nests != [] {
      assert nests[0] in nests;
      match nests[0] {
        case InName(name, inside) =>
          WellNestedRestores(inside, stack + [name]);
          DownUpExact(stack, name, '.');
        case InElement(i, inside) =>
          WellNestedRestores(inside, stack + [ElementName(i)]);
          assert (stack + [ElementName(i)])[..|stack|] == stack;
      }
      WellNestedRestores(nests[1..], stack);
    }
  }

  // ----- the leaf of a scope name

  function Closer(separator: char): (c: char) {
    match separator
    case '[' => ']'
    case '(' => ')'
    case '<' => '>'
    case '{' => '}'
    case _ => '\0'
  }

  /** Closing minus opening brackets in `s`. */
  function Balance(s: string, open: char, close: char): int
  {
    if s == "" then 0
    else (if s[0] == close then 1 else if s[0] == open then -1 else 0) + Balance(s[1..], open, close)
  }

  /** Where the backward scan may stop. */
  predicate Stop(s: string, separator: char, close: char, p: nat)
    requires p < |s|
  {
    s[p] == separator && s[p] != close && (close == '\0' || Balance(s[p..], separator, close) == 0)
  }

  /** The closer takes part only when the text ends in it. */
  function EffectiveCloser(s: string, separator: char): char
    requires s != ""
  {
    if Closer(separator) == s[|s| - 1] then Closer(separator) else '\0'
  }

  /** `p` is the last position, the first one excepted, where the scan may stop. */
  predicate LeafStart(s: string, separator: char, p: nat)
    requires s != ""
  {
    var close := EffectiveCloser(s, separator);
    && 0 < p < |s| && Stop(s, separator, close, p)
    && forall q :: p < q < |s| ==> !Stop(s, separator, close, q)
  }

  function Suffix(s: string, separator: char, p: nat): string
    requires p < |s|
  {
    if separator == '.' then s[p + 1..] else s[p..]
  }

  ghost predicate IsLeaf(s: string, separator: char, leaf: string)
    requires s != ""
  {
    || (exists p: nat :: LeafStart(s, separator, p) && leaf == Suffix(s, separator, p))
    || (leaf == s && forall p: nat :: !LeafStart(s, separator, p))
  }

  method LeafScope(fullName: string, separator: char) returns (ret: string)
    requires fullName != ""
    ensures IsLeaf(fullName, separator, ret)
  {
    var close := Closer(separator);
    if close != '\0' && close != fullName[|fullName| - 1] {
      close := '\0';
    }
    var pos := |fullName| - 1;
    var matches := 0;
    while pos != 0
      invariant 0 <= pos < |fullName|
      invariant close != '\0' ==> matches == Balance(fullName[pos + 1..], separator, close)
      invariant forall q :: pos < q < |fullName| ==> !Stop(fullName, separator, close, q)
    {
      assert fullName[pos..][1..] == fullName[pos + 1..];
      if close == fullName[pos] {
        matches := matches + 1;
      } else if separator == fullName[pos] {
        matches := matches - 1;
        if matches == 0 || close == '\0' {
          break;
        }
      }
      pos := pos - 1;
    }
    if pos != 0 {
      assert LeafStart(fullName, separator, pos);
      if separator != '.' {
        pos := pos - 1;
      }
      ret := fullName[pos + 1..];
    } else {
      ret := fullName;
    }
  }

  lemma LeafUnique(s: string, separator: char, a: string, b: string)
    requires s != "" && IsLeaf(s, separator, a) && IsLeaf(s, separator, b)
    ensures a == b
  {
    if p: nat :| LeafStart(s, separator, p) {
      forall q: nat | LeafStart(s, separator, q)
        ensures q == p
      {
      }
    }
  }

  predicate DotFree(s: string) {
    '.' !in s
  }

  /** Over a dot, the leaf of the joined stack is the last name exactly when that name is dot-free and
      something non-empty precedes it. */
  lemma NameRecovered(below: seq<string>, name: string)
    requires below != [] && !Bracketed(name)
    ensures Joined(below + [name]) == Joined(below) + "." + name
    ensures IsLeaf(Joined(below + [name]), '.', name) <==> DotFree(name) && Joined(below) != ""
  {
    assert (below + [name])[..|below|] == below;
    var g := Joined(below);
    var s := g + "." + name;
    if DotFree(name) {
      assert forall q: nat :: |g| < q < |s| ==> s[q] == name[q - |g| - 1];
      if g != "" {
        assert LeafStart(s, '.', |g|);
        assert Suffix(s, '.', |g|) == name;
      } else {
        assert forall p: nat :: !LeafStart(s, '.', p);
      }
    } else {
      var k :| 0 <= k < |name| && name[k] == '.';
      assert s[|g| + 1 + k] == '.';
      assert Stop(s, '.', EffectiveCloser(s, '.'), |g| + 1 + k);
      assert |s| > |name|;
      forall p: nat | LeafStart(s, '.', p)
        ensures Suffix(s, '.', p) != name
      {
        assert p >= |g| + 1 + k;
      }
    }
  }

  lemma {:induction false} BalanceConcat(a: string, b: string, open: char, close: char)
    ensures Balance(a + b, open, close) == Balance(a, open, close) + Balance(b, open, close)
  {
    if a == "" {
      assert a + b == b;
    } else {
      BalanceConcat(a[1..], b, open, close);
      assert (a + b)[0] == a[0] && (a + b)[1..] == a[1..] + b;
    }
  }

  /** No more brackets are opened than closed from any position to the end, and as many on the whole. */
  ghost predicate Balanced(s: string, open: char, close: char) {
    && Balance(s, open, close) == 0
    && forall q :: 0 <= q <= |s| ==> Balance(s[q..], open, close) >= 0
  }

  lemma {:induction false} BracketFree(s: string, open: char, close: char)
    requires open !in s && close !in s
    ensures Balanced(s, open, close)
  {
    if s != "" {
      BracketFree(s[1..], open, close);
      forall q | 1 <= q <= |s|
        ensures Balance(s[q..], open, close) >= 0
      {
        assert s[q..] == s[1..][q - 1..];
      }
      assert s[0..] == s;
    }
  }

  /** The leaf of a text that ends in a bracketed part is that part, brackets nested inside it included. */
  lemma BracketRecovered(g: string, open: char, inner: string)
    requires Closer(open) != '\0' && Balanced(inner, open, Closer(open))
    ensures IsLeaf(g + [open] + inner + [Closer(open)], open, [open] + inner + [Closer(open)])
  {
    hide Balance, Balanced;
    var close := Closer(open);
    var s := g + [open] + inner + [close];
    BracketStop(g, open, inner);
    assert EffectiveCloser(s, open) == close;
    if g != "" {
      assert LeafStart(s, open, |g|);
    } else {
      assert s == [open] + inner + [close];
    }
  }

  /** The scan from the end stops at the opening bracket and no earlier. */
  lemma BracketStop(g: string, open: char, inner: string)
    requires Closer(open) != '\0' && Balanced(inner, open, Closer(open))
    ensures var s := g + [open] + inner + [Closer(open)];
            && Stop(s, open, Closer(open), |g|) && s[|g|..] == [open] + inner + [Closer(open)]
            && forall q: nat :: |g| < q < |s| ==> !Stop(s, open, Closer(open), q)
  {
    hide Balance;
    var close := Closer(open);
    var s := g + [open] + inner + [close];
    BalanceOne(open, close);
    forall q: nat | |g| < q < |s|
      ensures !Stop(s, open, close, q)
    {
      assert s[q..] == inner[q - |g| - 1..] + [close];
      BalanceConcat(inner[q - |g| - 1..], [close], open, close);
    }
    assert s[|g|..] == [open] + inner + [close] == [open] + (inner + [close]);
    BalanceConcat([open], inner + [close], open, close);
    BalanceConcat(inner, [close], open, close);
  }

  lemma BalanceOne(open: char, close: char)
    requires open != close
    ensures Balance([open], open, close) == -1 && Balance([close], open, close) == 1
  {
    assert [open][1..] == "" && [close][1..] == "";
  }

  /** Over a bracket, the leaf of the joined stack is always the last element pushed. */
  lemma ElementRecovered(below: seq<string>, i: int)
    ensures Joined(below + [ElementName(i)]) == (if below == [] then "" else Joined(below)) + ElementName(i)
    ensures IsLeaf(Joined(below + [ElementName(i)]), '[', ElementName(i))
  {
    assert (below + [ElementName(i)])[..|below|] == below;
    var g := if below == [] then "" else Joined(below);
    var inner := if i < 0 then "-" + Digits(-i) else Digits(i);
    assert ElementName(i) == ['['] + inner + [']'] && g + ['['] + inner + [']'] == g + ElementName(i);
    BracketFree(inner, '[', ']');
    BracketRecovered(g, '[', inner);
  }
}
