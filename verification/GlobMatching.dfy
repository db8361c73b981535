/** When the translation of a glob means what the glob means. */
module GlobMatching {
  import opened Options
  import opened Regex
  import opened Glob

  /** Globs whose translation stays inside the modelled regular expressions. */
  predicate Modelled(glob: string) {
    && glob != "" && !Bracketed(glob)
    && |glob| <= MAX_LENGTH && |GlobToRe(glob)| < BUFFER_SIZE
    && forall c :: c in glob ==> c !in "\\|{}"
  }

  predicate AnchorFree(glob: string) {
    '^' !in glob && '$' !in glob
  }

  function ItemOf(c: char): Item {
    match c
    case '*' => Star(Any)
    case '+' => Plus(Any)
    case '?' => One(Any)
    case '^' => LineStart
    case '$' => LineEnd
    case _ => One(Lit(c))
  }

  function Items(glob: string): (r: seq<Item>)
    ensures |r| == |glob|
  {
    if glob == "" then [] else [ItemOf(glob[0])] + Items(glob[1..])
  }

  function AllItems(glob: string): seq<Item>
    requires glob != ""
  {
    (if glob[0] == '^' then [] else [LineStart]) + Items(glob) + (if glob[|glob| - 1] == '$' then [] else [LineEnd])
  }

  // ----- parsing the translation

  lemma {:induction false} ParseChars(glob: string, tail: string)
    requires forall c :: c in glob ==> c !in "\\|{}"
    requires tail == "" || tail == "$"
    ensures Parse(TranslateChars(glob) + tail) == Some(Items(glob) + (if tail == "" then [] else [LineEnd]))
    decreases |glob|
  {
    var last := if tail == "" then [] else [LineEnd];
    if glob == "" {
      assert TranslateChars(glob) + tail == tail;
      assert tail[|tail|..] == "";
      assert Items(glob) + last == last;
      if tail == "$" {
        assert tail[1..] == "" && Parse("") == Some([]);
        assert Parse("$") == Some([LineEnd] + []) && [LineEnd] + [] == [LineEnd];
      }
    } else {
      var c, rest := glob[0], TranslateChars(glob[1..]) + tail;
      assert c in glob;
      ParseChars(glob[1..], tail);
      assert TranslateChars(glob) + tail == TranslateChar(c) + rest;
      NoPostfix(glob[1..], tail);
      ParseFirst(c, rest);
      assert Items(glob) + last == [ItemOf(c)] + (Items(glob[1..]) + last);
    }
  }

  lemma NoPostfix(glob: string, tail: string)
    requires tail == "" || tail == "$"
    ensures NoPostfixAhead(TranslateChars(glob) + tail)
  {
  }

  predicate NoPostfixAhead(rest: string) {
    rest == "" || rest[0] !in "*+"
  }

  lemma ParseEscaped(e: char, rest: string)
    requires NoPostfixAhead(rest)
    ensures Parse(['\\', e] + rest) == Prepend(One(Lit(e)), Parse(rest))
  {
    var t := ['\\', e] + rest;
    assert t[0] == '\\' && t[1] == e && t[2..] == rest;
  }

  lemma ParseAny(rest: string)
    requires NoPostfixAhead(rest)
    ensures Parse("." + rest) == Prepend(One(Any), Parse(rest))
    ensures Parse(".*" + rest) == Prepend(Star(Any), Parse(rest))
    ensures Parse(".+" + rest) == Prepend(Plus(Any), Parse(rest))
  {
    assert ("." + rest)[1..] == rest;
    assert (".*" + rest)[1..] == "*" + rest && ("*" + rest)[1..] == rest;
    assert (".+" + rest)[1..] == "+" + rest && ("+" + rest)[1..] == rest;
  }

  lemma ParseFirst(c: char, rest: string)
    requires c !in "\\|{}" && NoPostfixAhead(rest)
    ensures Parse(TranslateChar(c) + rest) == Prepend(ItemOf(c), Parse(rest))
  {
    hide Parse;
    if c in "*+?" {
      ParseAny(rest);
    } else if c in ".[]()" {
      ParseEscaped(c, rest);
    } else {
      ParseSingle(c, rest);
    }
  }

  lemma ParseSingle(c: char, rest: string)
    requires c !in "\\|{}*+?.[]()" && NoPostfixAhead(rest)
    ensures Parse([c] + rest) == Prepend(ItemOf(c), Parse(rest))
  {
    assert ([c] + rest)[1..] == rest;
  }

  lemma ParseTranslation(glob: string)
    requires Modelled(glob)
    ensures Parse(Anchored(glob)) == Some(AllItems(glob))
  {
    hide Parse, TranslateChars, Items, GlobToRe;
    var t := TranslateChars(glob) + Tail(glob);
    var items := Items(glob) + if Tail(glob) == "" then [] else [LineEnd];
    ParseChars(glob, Tail(glob));
    assert Anchored(glob) == Head(glob) + t;
    if glob[0] != '^' {
      ParseStart(t);
      assert AllItems(glob) == [LineStart] + items;
    } else {
      assert Head(glob) + t == t;
      assert AllItems(glob) == items;
    }
  }

  lemma TranslationUnbracketed(glob: string)
    requires Modelled(glob)
    ensures Unbracketed(GlobToRe(glob)) == Anchored(glob)
  {
    hide TranslateChars;
    var re := GlobToRe(glob);
    assert re == ['/'] + Anchored(glob) + ['/'];
    assert re[1..|re| - 1] == Anchored(glob);
  }

  lemma ParseStart(t: string)
    ensures Parse("^" + t) == Prepend(LineStart, Parse(t))
  {
    assert ("^" + t)[1..] == t;
  }

  // ----- meaning

  lemma UnfoldItem(item: Item, rest: seq<Item>, s: string, i: nat, whole: bool)
    requires i <= |s|
    ensures MatchAt([item] + rest, s, i, whole)
         == match item
            case One(a) => i < |s| && Fits(a, s[i]) && MatchAt(rest, s, i + 1, whole)
            case Star(a) => MatchAt(rest, s, i, whole) || (i < |s| && Fits(a, s[i]) && MatchAt([item] + rest, s, i + 1, whole))
            case Plus(a) => i < |s| && Fits(a, s[i]) && MatchAt([Star(a)] + rest, s, i + 1, whole)
            case LineStart => i == 0 && MatchAt(rest, s, i, whole)
            case LineEnd => i == |s| && MatchAt(rest, s, i, whole)
  {
    assert ([item] + rest)[1..] == rest;
  }

  lemma {:induction false} StarAnyMatches(rest: seq<Item>, s: string, i: nat, whole: bool)
    requires i <= |s|
    ensures MatchAt([Star(Any)] + rest, s, i, whole) <==> exists k :: i <= k <= |s| && MatchAt(rest, s, k, whole)
    decreases |s| - i
  {
    hide MatchAt;
    UnfoldItem(Star(Any), rest, s, i, whole);
    if i < |s| {
      StarAnyMatches(rest, s, i + 1, whole);
    }
  }

  lemma {:induction false} StarAnyIntro(rest: seq<Item>, s: string, i: nat, k: nat, whole: bool)
    requires i <= k <= |s| && MatchAt(rest, s, k, whole)
    ensures MatchAt([Star(Any)] + rest, s, i, whole)
    decreases k - i
  {
    UnfoldItem(Star(Any), rest, s, i, whole);
    if i < k {
      StarAnyIntro(rest, s, i + 1, k, whole);
    }
  }

  /** Without anchors of its own, the translated body followed by `$` means the glob. */
  lemma {:induction false} ItemsMatch(glob: string, s: string, i: nat, whole: bool)
    requires AnchorFree(glob) && i <= |s|
    ensures MatchAt(Items(glob) + [LineEnd], s, i, whole) <==> GlobMatches(glob, s[i..])
    decreases |glob|, 0
  {
    if glob == "" {
      assert Items(glob) + [LineEnd] == [LineEnd] && [LineEnd][1..] == [];
    } else {
      var c, rest := glob[0], Items(glob[1..]) + [LineEnd];
      assert Items(glob) + [LineEnd] == [ItemOf(c)] + rest;
      if c == '*' || c == '+' {
        UnfoldItem(ItemOf(c), rest, s, i, whole);
        RunMatches(glob[1..], s, i, whole);
        if c == '+' && i < |s| {
          RunMatches(glob[1..], s, i + 1, whole);
          NonEmptyRun(glob[1..], s[i..]);
          assert s[i..][1..] == s[i + 1..];
        }
      } else {
        UnfoldItem(ItemOf(c), rest, s, i, whole);
        if i < |s| {
          assert s[i..][1..] == s[i + 1..];
          ItemsMatch(glob[1..], s, i + 1, whole);
        }
      }
    }
  }

  lemma NonEmptyRun(glob: string, s: string)
    requires s != ""
    ensures (exists k :: 1 <= k <= |s| && GlobMatches(glob, s[k..]))
        <==> exists k :: 0 <= k <= |s[1..]| && GlobMatches(glob, s[1..][k..])
  {
    forall k | 1 <= k <= |s|
      ensures s[k..] == s[1..][k - 1..]
    {
    }
    if k :| 0 <= k <= |s[1..]| && GlobMatches(glob, s[1..][k..]) {
      assert s[1..][k..] == s[k + 1..];
    }
  }

  lemma {:induction false} RunMatches(glob: string, s: string, i: nat, whole: bool)
    requires AnchorFree(glob) && i <= |s|
    ensures MatchAt([Star(Any)] + (Items(glob) + [LineEnd]), s, i, whole)
        <==> exists k :: 0 <= k <= |s[i..]| && GlobMatches(glob, s[i..][k..])
    decreases |glob|, 1
  {
    hide MatchAt, GlobMatches;
    var rest := Items(glob) + [LineEnd];
    StarAnyMatches(rest, s, i, whole);
    forall k | i <= k <= |s|
      ensures s[k..] == s[i..][k - i..]
      ensures MatchAt(rest, s, k, whole) <==> GlobMatches(glob, s[i..][k - i..])
    {
      ItemsMatch(glob, s, k, whole);
    }
    if MatchAt([Star(Any)] + rest, s, i, whole) {
      var k :| i <= k <= |s| && MatchAt(rest, s, k, whole);
      var j := k - i;
      assert 0 <= j <= |s[i..]| && GlobMatches(glob, s[i..][j..]);
    }
    if exists k :: 0 <= k <= |s[i..]| && GlobMatches(glob, s[i..][k..]) {
      var k :| 0 <= k <= |s[i..]| && GlobMatches(glob, s[i..][k..]);
      var j := i + k;
      assert s[j..] == s[i..][k..];
      StarAnyIntro(rest, s, i, j, whole);
    }
  }

  /** The limits of the search engine: longer regular expressions never match. */
  predicate ShortEnough(engine: Engine, glob: string) {
    engine.posix ==> |GlobToRe(glob)| <= 2040
  }

  /** Globs whose translation means what they mean. */
  predicate Faithful(engine: Engine, glob: string) {
    Modelled(glob) && AnchorFree(glob) && ShortEnough(engine, glob)
  }

  lemma AcceptsItems(engine: Engine, glob: string, s: string)
    requires Modelled(glob)
    ensures Accepts(engine, GlobToRe(glob), s) <==>
              ShortEnough(engine, glob) &&
              if engine.posix then FoundIn(AllItems(glob), s) else MatchAt(AllItems(glob), s, 0, true)
  {
    hide GlobToRe, Parse, MatchAt, FoundIn;
    ParseTranslation(glob);
    TranslationUnbracketed(glob);
  }

  /** Without `^` and `$` the translation accepts exactly what the glob matches, under either engine. */
  lemma TranslationSound(engine: Engine, glob: string, s: string)
    requires Faithful(engine, glob)
    ensures Accepts(engine, GlobToRe(glob), s) <==> GlobMatches(glob, s)
  {
    hide GlobToRe, Accepts, MatchAt, FoundIn, GlobMatches;
    AcceptsItems(engine, glob, s);
    var rest := Items(glob) + [LineEnd];
    assert glob[0] in glob && glob[|glob| - 1] in glob;
    assert AllItems(glob) == [LineStart] + rest;
    assert s[0..] == s;
    FoundAtStart(rest, s);
    ItemsMatch(glob, s, 0, false);
    UnfoldItem(LineStart, rest, s, 0, true);
    ItemsMatch(glob, s, 0, true);
  }

  /** A leading anchor reduces the search to the first position. */
  lemma FoundAtStart(rest: seq<Item>, s: string)
    ensures FoundIn([LineStart] + rest, s) <==> MatchAt(rest, s, 0, false)
  {
    if i :| 0 <= i <= |s| && MatchAt([LineStart] + rest, s, i, false) {
      UnfoldItem(LineStart, rest, s, i, false);
    }
    UnfoldItem(LineStart, rest, s, 0, false);
  }

  // ----- globs with anchors

  function ScrubChar(c: char): char {
    if c == '^' || c == '$' then 'a' else c
  }

  function Scrub(s: string): (r: string)
    ensures |r| == |s| && forall i :: 0 <= i < |s| ==> r[i] == ScrubChar(s[i])
  {
    seq(|s|, i requires 0 <= i < |s| => ScrubChar(s[i]))
  }

  predicate AsksForAnchor(item: Item) {
    (item.One? || item.Star? || item.Plus?) && item.atom in {Lit('^'), Lit('$')}
  }

  /** No translated item asks for an anchor character, so replacing those characters keeps every match. */
  lemma {:induction false} ScrubKeepsMatch(items: seq<Item>, s: string, i: nat, whole: bool)
    requires i <= |s| && MatchAt(items, s, i, whole)
    requires forall x :: x in items ==> !AsksForAnchor(x)
    ensures MatchAt(items, Scrub(s), i, whole)
    decreases |items|, |s| - i
  {
    if items != [] {
      var rest := items[1..];
      assert items == [items[0]] + rest && items[0] in items;
      UnfoldItem(items[0], rest, s, i, whole);
      UnfoldItem(items[0], rest, Scrub(s), i, whole);
      match items[0]
      case One(_) => ScrubKeepsMatch(rest, s, i + 1, whole);
      case Star(_) =>
        if MatchAt(rest, s, i, whole) {
          ScrubKeepsMatch(rest, s, i, whole);
        } else {
          ScrubKeepsMatch(items, s, i + 1, whole);
        }
      case Plus(a) =>
        assert !AsksForAnchor(Star(a));
        ScrubKeepsMatch([Star(a)] + rest, s, i + 1, whole);
      case _ => ScrubKeepsMatch(rest, s, i, whole);
    }
  }

  lemma ScrubKeepsFind(items: seq<Item>, s: string)
    requires FoundIn(items, s) && forall x :: x in items ==> !AsksForAnchor(x)
    ensures FoundIn(items, Scrub(s))
  {
    var i :| 0 <= i <= |s| && MatchAt(items, s, i, false);
    ScrubKeepsMatch(items, s, i, false);
  }

  lemma {:induction false} ItemsAskNoAnchor(glob: string)
    ensures forall x :: x in Items(glob) ==> !AsksForAnchor(x)
  {
    if glob != "" {
      ItemsAskNoAnchor(glob[1..]);
    }
  }

  /** Every character of a glob that is no wildcard occurs in whatever the glob matches. */
  lemma {:induction false} LiteralsOccur(glob: string, s: string, c: char)
    requires GlobMatches(glob, s) && c in glob && !Wild(c)
    ensures c in s
    decreases |glob|
  {
    if glob[0] == '*' || glob[0] == '+' {
      var k :| 0 <= k <= |s| && GlobMatches(glob[1..], s[k..]);
      LiteralsOccur(glob[1..], s[k..], c);
    } else if glob[0] != c {
      LiteralsOccur(glob[1..], s[1..], c);
    }
  }

  /** A string the glob matches: each wildcard stands for one character. */
  function Instance(glob: string, fill: char): (s: string)
    ensures |s| == |glob| && forall i :: 0 <= i < |glob| ==> s[i] == if Wild(glob[i]) then fill else glob[i]
  {
    seq(|glob|, i requires 0 <= i < |glob| => if Wild(glob[i]) then fill else glob[i])
  }

  lemma {:induction false} InstanceMatches(glob: string, fill: char)
    ensures GlobMatches(glob, Instance(glob, fill))
    decreases |glob|
  {
    if glob != "" {
      InstanceMatches(glob[1..], fill);
      assert Instance(glob, fill)[1..] == Instance(glob[1..], fill);
    }
  }

  /** A glob holding `^` or `$` is never translated faithfully: either its own instance is refused, or an accepted
      string stays accepted when the anchor characters the glob asks for are taken out of it. */
  lemma AnchorsBreak(engine: Engine, glob: string) returns (s: string)
    requires Modelled(glob) && !AnchorFree(glob)
    ensures Accepts(engine, GlobToRe(glob), s) <==> !GlobMatches(glob, s)
  {
    hide GlobToRe, Accepts, MatchAt, FoundIn, GlobMatches;
    var w := Instance(glob, 'a');
    InstanceMatches(glob, 'a');
    if !Accepts(engine, GlobToRe(glob), w) {
      return w;
    }
    s := Scrub(w);
    AcceptsItems(engine, glob, w);
    AcceptsItems(engine, glob, s);
    ItemsAskNoAnchor(glob);
    assert forall x :: x in AllItems(glob) ==> x in Items(glob) || x.LineStart? || x.LineEnd?;
    if engine.posix {
      ScrubKeepsFind(AllItems(glob), w);
    } else {
      ScrubKeepsMatch(AllItems(glob), w, 0, true);
    }
    var c := if '^' in glob then '^' else '$';
    if GlobMatches(glob, s) {
      LiteralsOccur(glob, s, c);
    }
  }

  /** Among the modelled globs, exactly those without `^` and `$` (and, for the search engine, with a regular
      expression of at most 2040 characters) are translated into a regular expression of the same meaning. */
  lemma TranslationExact(engine: Engine, glob: string)
    requires Modelled(glob)
    ensures (forall s :: Accepts(engine, GlobToRe(glob), s) <==> GlobMatches(glob, s))
        <==> AnchorFree(glob) && ShortEnough(engine, glob)
  {
    hide GlobToRe, Accepts, Modelled, GlobMatches;
    if !AnchorFree(glob) {
      var s := AnchorsBreak(engine, glob);
    } else if !ShortEnough(engine, glob) {
      AcceptsItems(engine, glob, Instance(glob, 'a'));
      InstanceMatches(glob, 'a');
    } else {
      forall s
        ensures Accepts(engine, GlobToRe(glob), s) <==> GlobMatches(glob, s)
      {
        TranslationSound(engine, glob, s);
      }
    }
  }

  /** The empty glob means the empty string, but the search engine finds its empty regular expression everywhere. */
  lemma EmptyGlob(engine: Engine, s: string)
    ensures Accepts(engine, GlobToRe(""), s) <==> engine.posix || GlobMatches("", s)
  {
    assert Parse("") == Some([]);
    assert MatchAt([], s, 0, false);
  }

  /** A name is taken for a glob just when it is a `/` expression or matches something other than itself. */
  lemma WildcardExact(glob: string)
    ensures HasWildcard(glob) <==> (glob != "" && glob[0] == '/') || exists s :: s != glob && GlobMatches(glob, s)
  {
    hide GlobMatches;
    if c :| c in glob && Wild(c) {
      var i :| 0 <= i < |glob| && glob[i] == c;
      InstanceMatches(glob, 'a');
      InstanceMatches(glob, 'b');
      assert Instance(glob, 'a')[i] == 'a' && Instance(glob, 'b')[i] == 'b';
      var s := if Instance(glob, 'a') != glob then Instance(glob, 'a') else Instance(glob, 'b');
      assert s != glob && GlobMatches(glob, s);
    } else {
      forall s | GlobMatches(glob, s)
        ensures s == glob
      {
        LiteralGlob(glob, s);
      }
    }
  }

  /** A name without wildcards means itself. */
  lemma {:induction false} LiteralGlob(name: string, s: string)
    requires forall c :: c in name ==> !Wild(c)
    ensures GlobMatches(name, s) <==> s == name
    decreases |name|
  {
    if name != "" {
      assert name[0] in name;
    }
    if name != "" && s != "" {
      LiteralGlob(name[1..], s[1..]);
      assert name == [name[0]] + name[1..] && s == [s[0]] + s[1..];
    }
  }
}
