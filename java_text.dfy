/** The `java.lang.String` and `java.lang.Integer` operations the backend's importers
    rely on, with Java's exact semantics: `split` by one character, `replace` of a
    literal, `String.valueOf(int)`, `Integer.parseInt` and the `(int)` cast. */
module JavaText {
  import opened Wrappers
  import opened Decimal

  const MinInt32: int := -0x8000_0000
  const MaxInt32: int := 0x7FFF_FFFF

  predicate IsInt32(n: int) {
    MinInt32 <= n <= MaxInt32
  }

  /** Java's `(int)` cast applied to a double whose integral part is `v`: values
      outside the range of `int` saturate at its bounds. */
  function ToInt32(v: int): (r: int)
    ensures IsInt32(r)
    ensures IsInt32(v) ==> r == v
    ensures v < MinInt32 ==> r == MinInt32
    ensures v > MaxInt32 ==> r == MaxInt32
  {
    if v < MinInt32 then MinInt32 else if v > MaxInt32 then MaxInt32 else v
  }

  /* ---------------- split ---------------- */

  /** Every piece of `s` between occurrences of `sep`, empty pieces included: the
      list `String.split` builds before it drops trailing empty strings. */
  function Pieces(s: string, sep: char): (r: seq<string>)
    ensures |r| >= 1
    ensures forall i :: 0 <= i < |r| ==> sep !in r[i]
  {
    if s == [] then [""]
    else
      var rest := Pieces(s[1..], sep);
      if s[0] == sep then [""] + rest
      else [[s[0]] + rest[0]] + rest[1..]
  }

  /** The pieces glued back together with `sep` between them. */
  function Join(parts: seq<string>, sep: char): string {
    if |parts| == 0 then ""
    else if |parts| == 1 then parts[0]
    else parts[0] + [sep] + Join(parts[1..], sep)
  }

  /** The pieces of `s` are exactly `s` cut at every `sep`. */
  lemma {:induction false} JoinPieces(s: string, sep: char)
    ensures Join(Pieces(s, sep), sep) == s
  {
    if s != [] {
      var rest := Pieces(s[1..], sep);
      JoinPieces(s[1..], sep);
      if s[0] == sep {
        assert ([""] + rest)[1..] == rest;
      } else if |rest| > 1 {
        var r := [[s[0]] + rest[0]] + rest[1..];
        assert r[1..] == rest[1..];
        assert Join(rest, sep) == rest[0] + [sep] + Join(rest[1..], sep);
        assert [s[0]] + s[1..] == s;
      } else {
        assert [s[0]] + s[1..] == s;
      }
    }
  }

  function DropTrailingEmpty(r: seq<string>): (t: seq<string>)
    ensures t <= r
    ensures |t| == 0 || t[|t| - 1] != ""
    ensures forall i :: |t| <= i < |r| ==> r[i] == ""
  {
    if |r| > 0 && r[|r| - 1] == "" then DropTrailingEmpty(r[..|r| - 1]) else r
  }

  /** `s.split(String.valueOf(sep))` for a separator that is not a regular-expression
      metacharacter: no occurrence gives `[s]`; otherwise every piece, leading empty
      ones kept, with the trailing empty pieces dropped. */
  function Split(s: string, sep: char): (r: seq<string>)
    ensures sep !in s ==> r == [s]
    ensures forall i :: 0 <= i < |r| ==> sep !in r[i]
    ensures sep in s ==> r <= Pieces(s, sep) && (|r| == 0 || r[|r| - 1] != "")
    ensures sep in s ==> forall i :: |r| <= i < |Pieces(s, sep)| ==> Pieces(s, sep)[i] == ""
  {
    if sep !in s then [s] else DropTrailingEmpty(Pieces(s, sep))
  }

  lemma {:induction false} PiecesOfPlain(x: string, sep: char)
    requires sep !in x
    ensures Pieces(x, sep) == [x]
  {
    if x != [] {
      PiecesOfPlain(x[1..], sep);
      assert [x[0]] + x[1..] == x;
    }
  }

  lemma {:induction false} PiecesAfterPlain(x: string, sep: char, y: string)
    requires sep !in x
    ensures Pieces(x + [sep] + y, sep) == [x] + Pieces(y, sep)
  {
    var s := x + [sep] + y;
    if x == [] {
      assert s[1..] == y;
    } else {
      assert s[1..] == x[1..] + [sep] + y;
      PiecesAfterPlain(x[1..], sep, y);
      assert [x[0]] + x[1..] == x;
    }
  }

  /** Splitting four separator-free fields joined by `sep` gives the four fields back,
      provided the last one is not empty (a trailing empty field would be dropped). */
  lemma SplitFour(a: string, b: string, c: string, d: string, sep: char)
    requires sep !in a && sep !in b && sep !in c && sep !in d
    requires d != ""
    ensures Split(a + [sep] + b + [sep] + c + [sep] + d, sep) == [a, b, c, d]
  {
    var t2 := c + [sep] + d;
    var t1 := b + [sep] + t2;
    var s := a + [sep] + t1;
    assert a + [sep] + b + [sep] + c + [sep] + d == s;
    assert s[|a|] == sep;
    PiecesOfPlain(d, sep);
    PiecesAfterPlain(c, sep, d);
    PiecesAfterPlain(b, sep, t2);
    PiecesAfterPlain(a, sep, t1);
    assert Pieces(s, sep) == [a, b, c, d];
  }

  /* ---------------- replace ---------------- */

  /** `s.replace(target, "")`: every occurrence of `target`, found left to right
      without overlap, removed. */
  function RemoveAll(s: string, target: string): (r: string)
    requires target != ""
    ensures |r| <= |s|
    decreases |s|
  {
    if |s| < |target| then s
    else if s[..|target|] == target then RemoveAll(s[|target|..], target)
    else [s[0]] + RemoveAll(s[1..], target)
  }

  /** A prefix in which the target cannot start passes through untouched. */
  lemma {:induction false} RemoveAllSkipsPlain(x: string, y: string, target: string)
    requires target != "" && target[0] !in x
    ensures RemoveAll(x + y, target) == x + RemoveAll(y, target)
  {
    if x == [] {
      assert x + y == y;
    } else {
      var s := x + y;
      if |s| < |target| {
        assert RemoveAll(y, target) == y;
      } else {
        assert s[0] == x[0] && s[..|target|][0] == s[0];
        assert s[1..] == x[1..] + y;
        RemoveAllSkipsPlain(x[1..], y, target);
        assert [x[0]] + x[1..] == x;
      }
    }
  }

  lemma RemoveAllPlain(x: string, target: string)
    requires target != "" && target[0] !in x
    ensures RemoveAll(x, target) == x
  {
    RemoveAllSkipsPlain(x, "", target);
    assert x + "" == x;
  }

  /** An occurrence at the front is removed and scanning resumes right after it. */
  lemma RemoveAllAtTarget(y: string, target: string)
    requires target != ""
    ensures RemoveAll(target + y, target) == RemoveAll(y, target)
  {
    var s := target + y;
    assert s[..|target|] == target;
    assert s[|target|..] == y;
  }

  /* ---------------- integers ---------------- */

  /** `String.valueOf(int)`: optional minus sign, then the decimal digits. */
  function IntToString(n: int): (r: string)
    ensures |r| >= 1
  {
    if n < 0 then "-" + NatToDecimal(-n) else NatToDecimal(n)
  }

  /** `Integer.parseInt(s)`: an optional `+` or `-`, at least one digit, and a value
      that fits in an `int`; anything else raises `NumberFormatException` (`None`).
      Only ASCII digits are modelled. */
  function ParseInt(s: string): (r: Option<int>)
    ensures r.Some? ==> IsInt32(r.value) && s != []
  {
    if s == [] then None
    else
      var signed := s[0] == '-' || s[0] == '+';
      var digits := if signed then s[1..] else s;
      if digits == [] || !AllDigits(digits) then None
      else
        var magnitude: int := DecimalValue(digits);
        var v := if s[0] == '-' then -magnitude else magnitude;
        if IsInt32(v) then Some(v) else None
  }

  /** `Integer.parseInt(String.valueOf(n)) == n` for every `int`. */
  lemma ParseIntRoundTrip(n: int)
    requires IsInt32(n)
    ensures ParseInt(IntToString(n)) == Some(n)
  {
    if n < 0 {
      DecimalRoundTrip(-n);
      ParseIntNegative(NatToDecimal(-n));
    } else {
      DecimalRoundTrip(n);
      ParseIntUnsigned(NatToDecimal(n));
    }
  }

  /** A run of digits parses to its decimal value when that fits. */
  lemma ParseIntUnsigned(d: string)
    requires d != [] && AllDigits(d) && IsInt32(DecimalValue(d))
    ensures ParseInt(d) == Some(DecimalValue(d))
  {
    assert IsDigit(d[0]);
  }

  /** A minus sign before a run of digits negates its value when that fits. */
  lemma ParseIntNegative(d: string)
    requires d != [] && AllDigits(d) && IsInt32(-(DecimalValue(d) as int))
    ensures ParseInt("-" + d) == Some(-(DecimalValue(d) as int))
  {
    var s := "-" + d;
    assert s[0] == '-' && s[1..] == d;
  }

  /** Strings that are not an optionally signed run of digits never parse. */
  lemma ParseIntRejectsNonNumeric(s: string)
    requires s != [] && !IsDigit(s[0]) && s[0] != '-' && s[0] != '+'
    ensures ParseInt(s) == None
  {
  }
}
