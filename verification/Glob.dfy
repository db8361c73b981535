/** Translating globs to regular expressions, and matching the result.

    Regular expressions follow the extended syntax of section 9.4 of IEEE Std 1003.1, restricted to what the
    translator can emit: literals, escapes, `.`, `*` and `+` after one atom, and the two anchors. */
module Glob {

  const BRACKET: char := '/'
  const BUFFER_SIZE: nat := 2048
  const MAX_LENGTH: nat := 2040

  // ----- globs

  /** What a glob means: `*` any run, `+` a non-empty run, `?` one character, anything else itself. */
  ghost predicate GlobMatches(glob: string, s: string)
    decreases |glob|
  {
    if glob == "" then s == ""
    else
      match glob[0]
      case '*' => exists k :: 0 <= k <= |s| && GlobMatches(glob[1..], s[k..])
      case '+' => exists k :: 1 <= k <= |s| && GlobMatches(glob[1..], s[k..])
      case '?' => s != "" && GlobMatches(glob[1..], s[1..])
      case c => s != "" && s[0] == c && GlobMatches(glob[1..], s[1..])
  }

  predicate Wild(c: char) {
    c in "*+?"
  }

  predicate HasWildcard(arg: string) {
    '*' in arg || '?' in arg || '+' in arg || (arg != "" && arg[0] == BRACKET)
  }

  // ----- the translation

  function TranslateChar(c: char): (r: string)
    ensures 1 <= |r| <= 2
    ensures r[|r| - 1] == '$' <==> c == '$'
  {
    match c
    case '*' => ".*"
    case '+' => ".+"
    case '?' => "."
    case '.' => "\\."
    case '[' => "\\["
    case ']' => "\\]"
    case '(' => "\\("
    case ')' => "\\)"
    case _ => [c]
  }

  function TranslateChars(glob: string): (r: string)
    ensures |glob| <= |r| <= 2 * |glob|
  {
    if glob == "" then "" else TranslateChar(glob[0]) + TranslateChars(glob[1..])
  }

  function Head(glob: string): (r: string)
    requires glob != ""
  {
    if glob[0] == '^' then "" else "^"
  }

  function Tail(glob: string): (r: string)
    requires glob != ""
  {
    if glob[|glob| - 1] == '$' then "" else "$"
  }

  /** The regular expression between the brackets. */
  function Anchored(glob: string): (r: string)
    requires glob != ""
    ensures |r| <= 2 * |glob| + 2
  {
    Head(glob) + TranslateChars(glob) + Tail(glob)
  }

  lemma Assembled(glob: string)
    requires glob != ""
    ensures [BRACKET] + Head(glob) + TranslateChars(glob) + Tail(glob) + [BRACKET] == [BRACKET] + Anchored(glob) + [BRACKET]
  {
    hide TranslateChars, Head, Tail;
  }

  predicate Bracketed(re: string) {
    re != "" && re[0] == BRACKET && re[|re| - 1] == BRACKET
  }

  function GlobToRe(glob: string): string {
    if |glob| > MAX_LENGTH then glob
    else if glob == "" || glob == [BRACKET] then ""
    else if Bracketed(glob) then glob
    else [BRACKET] + Anchored(glob) + [BRACKET]
  }

  /** Translating a second time changes nothing. */
  lemma TranslateTwice(glob: string)
    ensures GlobToRe(GlobToRe(glob)) == GlobToRe(glob)
  {
  }

  lemma {:induction false} TranslateLast(glob: string, c: char)
    ensures TranslateChars(glob + [c]) == TranslateChars(glob) + TranslateChar(c)
  {
    hide TranslateChar;
    if glob == "" {
      assert glob + [c] == [c] && [c][1..] == "";
    } else {
      TranslateLast(glob[1..], c);
      assert (glob + [c])[1..] == glob[1..] + [c];
    }
  }

  /** The text up to the terminating NUL of a C buffer. */
  ghost predicate Holds(buffer: array<char>, text: string)
    reads buffer
  {
    |text| < buffer.Length && buffer[..|text|] == text && buffer[|text|] == '\0'
  }

  /** Fills the static buffer in place. The text returned is the buffer's up to its NUL, or the glob itself when
      it is too long. Every glob of at most 1021 characters fits, in at most 2 * |glob| + 5 characters. */
  method GlobToReChar(buffer: array<char>, glob: string) returns (inBuffer: bool)
    requires buffer.Length == BUFFER_SIZE
    requires |glob| <= MAX_LENGTH ==> |GlobToRe(glob)| < BUFFER_SIZE
    modifies buffer
    ensures inBuffer <==> |glob| <= MAX_LENGTH
    ensures inBuffer ==> Holds(buffer, GlobToRe(glob))
    ensures !inBuffer ==> GlobToRe(glob) == glob && buffer[..] == old(buffer[..])
    ensures inBuffer && (glob == "" || glob == "/") ==> Holds(buffer, "")
    ensures inBuffer && |glob| > 1 && glob[0] == '/' && glob[|glob| - 1] == '/' ==> Holds(buffer, glob)
  {
    var len := |glob|;
    if len > MAX_LENGTH {
      return false;
    }
    if len == 0 || (len == 1 && glob[0] == BRACKET) {
      buffer[0] := '\0';
      return true;
    }
    hide TranslateChars;
    if glob[0] == BRACKET && glob[len - 1] == BRACKET {
      forall i | 0 <= i < len {
        buffer[i] := glob[i];
      }
      buffer[len] := '\0';
      return true;
    }
    PutRegex(buffer, glob);
    return true;
  }

  /** The branch that converts a proper glob. */
  method PutRegex(buffer: array<char>, glob: string)
    requires glob != "" && |Anchored(glob)| + 2 < buffer.Length
    modifies buffer
    ensures Holds(buffer, [BRACKET] + Anchored(glob) + [BRACKET])
  {
    hide TranslateChars;
    Assembled(glob);
    EndsInAnchor(glob);
    var len := Put(buffer, 0, [BRACKET]);
    if glob[0] != '^' {
      len := Put(buffer, len, "^");
    }
    assert buffer[..len] == [BRACKET] + Head(glob);
    len := PutTranslated(buffer, len, glob);
    len := PutEnd(buffer, len, glob);
    buffer[len] := '\0';
  }

  /** `$` unless the translation ends in it already, then the closing bracket. */
  method PutEnd(buffer: array<char>, at: nat, glob: string) returns (len: nat)
    requires glob != "" && 0 < |TranslateChars(glob)| <= at && at + |Tail(glob)| + 1 <= buffer.Length
    requires TranslateChars(glob) == buffer[at - |TranslateChars(glob)|..at]
    modifies buffer
    ensures len == at + |Tail(glob)| + 1
    ensures buffer[..len] == old(buffer[..at]) + Tail(glob) + [BRACKET]
  {
    hide TranslateChars;
    EndsInAnchor(glob);
    len := at;
    if buffer[len - 1] != '$' {
      len := Put(buffer, len, "$");
    }
    assert buffer[..len] == old(buffer[..at]) + Tail(glob);
    len := Put(buffer, len, [BRACKET]);
  }

  /** The translation loop. */
  method PutTranslated(buffer: array<char>, at: nat, glob: string) returns (len: nat)
    requires at + |TranslateChars(glob)| <= buffer.Length
    modifies buffer
    ensures len == at + |TranslateChars(glob)|
    ensures buffer[..len] == old(buffer[..at]) + TranslateChars(glob)
    ensures buffer[at..len] == TranslateChars(glob)
  {
    hide TranslateChar;
    len := at;
    for p := 0 to |glob|
      invariant len == at + |TranslateChars(glob[..p])| <= buffer.Length
      invariant buffer[..len] == old(buffer[..at]) + TranslateChars(glob[..p])
    {
      TranslateLast(glob[..p], glob[p]);
      assert glob[..p + 1] == glob[..p] + [glob[p]];
      PrefixFits(glob, p);
      len := Put(buffer, len, TranslateChar(glob[p]));
    }
    assert glob[..|glob|] == glob;
    assert buffer[at..len] == buffer[..len][at..];
  }

  lemma EndsInAnchor(glob: string)
    requires glob != ""
    ensures var t := TranslateChars(glob); t[|t| - 1] == '$' <==> glob[|glob| - 1] == '$'
  {
    var n := |glob| - 1;
    assert glob == glob[..n] + [glob[n]];
    TranslateLast(glob[..n], glob[n]);
  }

  method Put(buffer: array<char>, len: nat, text: string) returns (newLen: nat)
    requires len + |text| <= buffer.Length
    modifies buffer
    ensures newLen == len + |text|
    ensures buffer[..newLen] == old(buffer[..len]) + text
  {
    forall i | 0 <= i < |text| {
      buffer[len + i] := text[i];
    }
    newLen := len + |text|;
  }

  lemma {:induction false} PrefixFits(glob: string, p: nat)
    requires p < |glob|
    ensures |TranslateChars(glob[..p + 1])| <= |TranslateChars(glob)|
  {
    TranslateSplit(glob[..p + 1], glob[p + 1..]);
    assert glob == glob[..p + 1] + glob[p + 1..];
  }

  lemma {:induction false} TranslateSplit(a: string, b: string)
    ensures TranslateChars(a + b) == TranslateChars(a) + TranslateChars(b)
  {
    if a == "" {
      assert a + b == b;
    } else {
      assert (a + b)[1..] == a[1..] + b;
      TranslateSplit(a[1..], b);
    }
  }

  lemma TranslationFits(glob: string)
    requires |glob| <= 1021
    ensures |GlobToRe(glob)| + 1 <= 2 * |glob| + 5 && |GlobToRe(glob)| < BUFFER_SIZE
  {
  }

  /** How many characters of a glob are translated into two. */
  function Doubled(glob: string): nat {
    if glob == "" then 0 else (if glob[0] in "*+.[]()" then 1 else 0) + Doubled(glob[1..])
  }

  lemma {:induction false} TranslatedLength(glob: string)
    ensures |TranslateChars(glob)| == |glob| + Doubled(glob)
  {
    if glob != "" {
      TranslatedLength(glob[1..]);
    }
  }

  /** What a proper glob needs in the buffer: its length, one more for every doubled character, the anchors it does
      not bring along, two brackets and the NUL. The buffer overflows just when that exceeds its size. */
  lemma OverflowExact(glob: string)
    requires glob != "" && !Bracketed(glob) && |glob| <= MAX_LENGTH
    ensures |GlobToRe(glob)| >= BUFFER_SIZE <==>
            |glob| + Doubled(glob) + (if glob[0] == '^' then 0 else 1) + (if glob[|glob| - 1] == '$' then 0 else 1) + 3
            > BUFFER_SIZE
  {
    TranslatedLength(glob);
  }

  lemma {:induction false} StarsDoubled(glob: string)
    requires forall c :: c in glob ==> c == '*'
    ensures Doubled(glob) == |glob|
  {
    if glob != "" {
      assert forall c :: c in glob[1..] ==> c in glob;
      assert glob[0] in glob;
      StarsDoubled(glob[1..]);
    }
  }

  /** So 1021 stars are the most that fit, although 2040 characters are allowed. */
  lemma StarsOverflow(glob: string)
    requires 0 < |glob| <= MAX_LENGTH && forall c :: c in glob ==> c == '*'
    ensures |GlobToRe(glob)| >= BUFFER_SIZE <==> |glob| > 1021
  {
    assert glob[0] in glob && glob[|glob| - 1] in glob;
    StarsDoubled(glob);
    OverflowExact(glob);
  }
}
