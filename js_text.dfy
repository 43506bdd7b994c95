/** The JavaScript string and number operations the frontend helpers rely on:
    `toLowerCase`, `includes`, the `\s` character class, `padStart`, `String(n)`
    for whole numbers and the truncating `%` operator. */
module JsText {
  import opened Decimal

  /* ---------------- numbers ---------------- */

  /** `Math.max` and `Math.min` on whole numbers. */
  function Max(a: int, b: int): int { if a < b then b else a }
  function Min(a: int, b: int): int { if a < b then a else b }

  /** `String(n)` for a whole number: an optional minus sign, then the shortest
      decimal digits (negative zero prints as `0`, which a whole `int` cannot be). */
  function NumberToString(n: int): (r: string)
    ensures |r| >= 1
    ensures n >= 0 ==> AllDigits(r) && DecimalValue(r) == n
    ensures n < 0 ==> r[0] == '-' && AllDigits(r[1..]) && DecimalValue(r[1..]) == -n
  {
    if n < 0 then
      DecimalRoundTrip(-n);
      "-" + NatToDecimal(-n)
    else
      DecimalRoundTrip(n);
      NatToDecimal(n)
  }

  /** JavaScript's `a % b` on whole numbers with `b > 0`: the remainder takes the sign
      of the dividend (truncated division), unlike Dafny's Euclidean `%`. */
  function TruncRem(a: int, b: int): (r: int)
    requires b > 0
    ensures a >= 0 ==> r == a % b
    ensures a < 0 ==> -b < r <= 0
    ensures (if r < 0 then -r else r) == (if a < 0 then -a else a) % b
  {
    if a >= 0 then a % b else -((-a) % b)
  }

  /** `s.padStart(2, "0")`: strings shorter than two characters are left-padded with `0`. */
  function PadStart2(s: string): (r: string)
    ensures |s| >= 2 ==> r == s
    ensures |s| < 2 ==> |r| == 2
    ensures r[|r| - |s|..] == s
    ensures forall i :: 0 <= i < |r| - |s| ==> r[i] == '0'
  {
    if |s| >= 2 then s else if |s| == 1 then "0" + s else "00"
  }

  /* ---------------- strings ---------------- */

  predicate IsAsciiUpper(c: char) {
    'A' <= c <= 'Z'
  }

  /** The capitals whose lower case is one other code unit: ASCII, Latin-1 (`×` and
      `ß` excepted) and Cyrillic, the Uzbek letters Ў, Ғ, Қ and Ҳ among them. */
  predicate IsCapital(c: char) {
    || IsAsciiUpper(c)
    || ('\U{C0}' <= c <= '\U{DE}' && c != '\U{D7}')
    || ('\U{400}' <= c <= '\U{42F}')
    || (('\U{460}' <= c <= '\U{481}' || '\U{48A}' <= c <= '\U{4BF}' || '\U{4D0}' <= c <= '\U{52F}') && c as int % 2 == 0)
    || ('\U{4C1}' <= c <= '\U{4CD}' && c as int % 2 == 1)
    || c == '\U{4C0}'
  }

  /** The lower case of a capital: `+32` for ASCII, Latin-1 and А..Я, `+80` for Ѐ..Џ,
      the next code unit for the paired letters of the extended Cyrillic blocks, and
      U+04CF for the palochka U+04C0. */
  function Lower(c: char): (r: char)
    requires IsCapital(c)
    ensures !IsCapital(r) && r != '\U{130}' && r != '\U{212A}'
  {
    if c <= '\U{DE}' then (c as int + 32) as char
    else if c <= '\U{40F}' then (c as int + 80) as char
    else if c <= '\U{42F}' then (c as int + 32) as char
    else if c == '\U{4C0}' then '\U{4CF}'
    else (c as int + 1) as char
  }

  /** The lower-case mapping of one code unit: a capital maps to its lower case, U+0130
      to `i` and a combining dot U+0307, and the Kelvin sign U+212A to `k`; all other
      characters, those of scripts not listed in `IsCapital` included, are kept. */
  function LowerChar(c: char): (r: string)
    ensures |r| >= 1
    ensures forall i :: 0 <= i < |r| ==> !IsCapital(r[i]) && r[i] != '\U{130}' && r[i] != '\U{212A}'
  {
    if IsCapital(c) then [Lower(c)]
    else if c == '\U{130}' then "i\U{307}"
    else if c == '\U{212A}' then "k"
    else [c]
  }

  /** `s.toLowerCase()`, one code unit at a time. */
  function ToLowerCase(s: string): (r: string)
    ensures |r| >= |s|
    ensures forall i :: 0 <= i < |r| ==> !IsCapital(r[i])
  {
    if s == [] then [] else LowerChar(s[0]) + ToLowerCase(s[1..])
  }

  /** `toLowerCase` distributes over concatenation. */
  lemma {:induction false} ToLowerCaseAppend(a: string, b: string)
    ensures ToLowerCase(a + b) == ToLowerCase(a) + ToLowerCase(b)
  {
    if a != [] {
      assert (a + b)[0] == a[0] && (a + b)[1..] == a[1..] + b;
      ToLowerCaseAppend(a[1..], b);
      assert ToLowerCase(a + b) == LowerChar(a[0]) + (ToLowerCase(a[1..]) + ToLowerCase(b));
    } else {
      assert a + b == b;
    }
  }

  /** Lower-casing twice is lower-casing once. */
  lemma {:induction false} ToLowerCaseIdempotent(s: string)
    ensures ToLowerCase(ToLowerCase(s)) == ToLowerCase(s)
  {
    if s != [] {
      var head := LowerChar(s[0]);
      ToLowerCaseAppend(head, ToLowerCase(s[1..]));
      ToLowerCaseIdempotent(s[1..]);
      LowerCharFixed(head);
    }
  }

  /** A string of capitals is lower-cased letter by letter. */
  lemma {:induction false} LowerCapitals(s: string)
    requires forall i :: 0 <= i < |s| ==> IsCapital(s[i])
    ensures |ToLowerCase(s)| == |s|
    ensures forall i :: 0 <= i < |s| ==> ToLowerCase(s)[i] == Lower(s[i])
    decreases |s|
  {
    if s != [] {
      LowerCapitals(s[1..]);
    }
  }

  /** A string already produced by `LowerChar` is left unchanged by `toLowerCase`. */
  lemma LowerCharFixed(head: string)
    requires forall i :: 0 <= i < |head| ==> !IsCapital(head[i]) && head[i] != '\U{130}' && head[i] != '\U{212A}'
    ensures ToLowerCase(head) == head
    decreases |head|
  {
    if head != [] {
      LowerCharFixed(head[1..]);
      assert [head[0]] + head[1..] == head;
    }
  }

  /** `s.includes(sub)`: `sub` occurs in `s` at some position. */
  predicate Includes(s: string, sub: string) {
    exists i :: 0 <= i <= |s| && OccursAt(s, sub, i)
  }

  predicate OccursAt(s: string, sub: string, i: nat) {
    i + |sub| <= |s| && s[i..i + |sub|] == sub
  }

  /** Members of JavaScript's `\s` class. */
  predicate IsWhitespace(c: char) {
    c == ' ' || c == '\t' || c == '\n' || c == '\U{B}' || c == '\U{C}' || c == '\r'
    || c == '\U{A0}' || c == '\U{1680}' || ('\U{2000}' <= c <= '\U{200A}')
    || c == '\U{2028}' || c == '\U{2029}' || c == '\U{202F}' || c == '\U{205F}'
    || c == '\U{3000}' || c == '\U{FEFF}'
  }

  /** The string after its leading whitespace. */
  function DropWhitespace(s: string): (r: string)
    ensures |r| <= |s| && r == s[|s| - |r|..]
    ensures r == [] || !IsWhitespace(r[0])
    ensures s != [] && IsWhitespace(s[0]) ==> |r| < |s|
    ensures forall i :: 0 <= i < |s| - |r| ==> IsWhitespace(s[i])
  {
    if s != [] && IsWhitespace(s[0]) then DropWhitespace(s[1..]) else s
  }

  /** `s.replace(/\s+/g, rep)`: every maximal run of whitespace is replaced by one
      `rep`, everything else is kept in order. */
  function ReplaceWhitespaceRuns(s: string, rep: string): (r: string)
    ensures (forall i :: 0 <= i < |rep| ==> !IsWhitespace(rep[i])) ==>
      forall i :: 0 <= i < |r| ==> !IsWhitespace(r[i])
    decreases |s|
  {
    if s == [] then []
    else if IsWhitespace(s[0]) then rep + ReplaceWhitespaceRuns(DropWhitespace(s), rep)
    else [s[0]] + ReplaceWhitespaceRuns(s[1..], rep)
  }

  /** A string without whitespace is left as it is. */
  lemma {:induction false} ReplaceWhitespaceRunsNone(s: string, rep: string)
    requires forall i :: 0 <= i < |s| ==> !IsWhitespace(s[i])
    ensures ReplaceWhitespaceRuns(s, rep) == s
    decreases |s|
  {
    if s != [] {
      ReplaceWhitespaceRunsNone(s[1..], rep);
      assert [s[0]] + s[1..] == s;
    }
  }

  /** A whole run of whitespace, however long, turns into a single `rep`. */
  lemma ReplaceWhitespaceRunsRun(w: string, rest: string, rep: string)
    requires w != [] && forall i :: 0 <= i < |w| ==> IsWhitespace(w[i])
    requires rest == [] || !IsWhitespace(rest[0])
    ensures ReplaceWhitespaceRuns(w + rest, rep) == rep + ReplaceWhitespaceRuns(rest, rep)
  {
    DropWhitespaceRun(w, rest);
  }

  lemma {:induction false} DropWhitespaceRun(w: string, rest: string)
    requires forall i :: 0 <= i < |w| ==> IsWhitespace(w[i])
    requires rest == [] || !IsWhitespace(rest[0])
    ensures DropWhitespace(w + rest) == rest
    decreases |w|
  {
    if w == [] {
      assert w + rest == rest;
    } else {
      assert (w + rest)[0] == w[0] && (w + rest)[1..] == w[1..] + rest;
      DropWhitespaceRun(w[1..], rest);
    }
  }
}
