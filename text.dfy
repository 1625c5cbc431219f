/**
 * The few pieces of `java.lang.String` and `java.lang.Integer` that the command handlers rely on:
 * `trim`, `contains`, `split` with a literal separator (with limit 2 and without a limit),
 * `Integer.parseInt` in radix 10, and 32-bit `int` subtraction.
 */
module Text {
  import opened Wrappers

  const MinInt32: int := -0x8000_0000
  const MaxInt32: int := 0x7fff_ffff
  const Modulus32: int := 0x1_0000_0000

  // ---------------------------------------------------------------- trim

  /** `String.trim` removes every leading and trailing character whose code is at most U+0020. */
  predicate IsTrimSpace(c: char) {
    c <= ' '
  }

  /** A string that `trim` leaves as it is. */
  predicate IsTrimmed(s: string) {
    s == [] || (!IsTrimSpace(s[0]) && !IsTrimSpace(s[|s| - 1]))
  }

  predicate AllTrimSpace(s: string) {
    forall k :: 0 <= k < |s| ==> IsTrimSpace(s[k])
  }

  function TrimStart(s: string): (r: string)
    decreases |s|
    ensures |r| <= |s|
    ensures r == [] || !IsTrimSpace(r[0])
  {
    if s != [] && IsTrimSpace(s[0]) then TrimStart(s[1..]) else s
  }

  function TrimEnd(s: string): (r: string)
    decreases |s|
    ensures |r| <= |s|
    ensures r == [] || !IsTrimSpace(r[|r| - 1])
  {
    if s != [] && IsTrimSpace(s[|s| - 1]) then TrimEnd(s[..|s| - 1]) else s
  }

  /** `TrimEnd` removes a suffix made only of trim-space. */
  lemma {:induction false} TrimEndRemoves(s: string)
    ensures TrimEnd(s) == s[..|TrimEnd(s)|]
    ensures AllTrimSpace(s[|TrimEnd(s)|..])
    decreases |s|
  {
    if s != [] && IsTrimSpace(s[|s| - 1]) {
      var p := s[..|s| - 1];
      TrimEndRemoves(p);
      var n := |TrimEnd(s)|;
      assert p[..n] == s[..n];
      assert s[n..] == p[n..] + [s[|s| - 1]];
    }
  }

  /** `s.trim()`: the result has no trim-space at either end, and text that has none is kept. */
  function Trim(s: string): (r: string)
    ensures IsTrimmed(r)
    ensures |r| <= |s|
    ensures IsTrimmed(s) ==> r == s
  {
    TrimEndRemoves(TrimStart(s));
    TrimEnd(TrimStart(s))
  }

  /** Padding made only of trim-space on either side of trimmed text is exactly what `trim` removes. */
  lemma {:induction false} TrimPadded(front: string, x: string, back: string)
    requires AllTrimSpace(front) && AllTrimSpace(back) && IsTrimmed(x)
    ensures Trim(front + x + back) == x
  {
    var s := front + x + back;
    if x == [] {
      assert s == (front + back) + [];
      assert AllTrimSpace(front + back);
      TrimStartPadded(front + back, []);
    } else {
      assert s == front + (x + back);
      TrimStartPadded(front, x + back);
      TrimEndPadded(x, back);
    }
  }

  /** `trim` drops single spaces put around trimmed text. */
  lemma TrimSpaced(x: string)
    requires IsTrimmed(x)
    ensures Trim(x + " ") == x && Trim(" " + x) == x && Trim(" " + x + " ") == x
  {
    TrimPadded([], x, " ");
    assert [] + x + " " == x + " ";
    TrimPadded(" ", x, []);
    assert " " + x + [] == " " + x;
    TrimPadded(" ", x, " ");
  }

  lemma {:induction false} TrimStartPadded(front: string, rest: string)
    requires AllTrimSpace(front) && (rest == [] || !IsTrimSpace(rest[0]))
    ensures TrimStart(front + rest) == rest
    decreases |front|
  {
    if front != [] {
      assert (front + rest)[1..] == front[1..] + rest;
      TrimStartPadded(front[1..], rest);
    } else {
      assert front + rest == rest;
    }
  }

  lemma {:induction false} TrimEndPadded(rest: string, back: string)
    requires AllTrimSpace(back) && (rest == [] || !IsTrimSpace(rest[|rest| - 1]))
    ensures TrimEnd(rest + back) == rest
    decreases |back|
  {
    if back != [] {
      assert (rest + back)[..|rest + back| - 1] == rest + back[..|back| - 1];
      TrimEndPadded(rest, back[..|back| - 1]);
    } else {
      assert rest + back == rest;
    }
  }

  // ---------------------------------------------------------------- indexOf / contains

  predicate OccursAt(s: string, pat: string, i: nat) {
    i + |pat| <= |s| && s[i..i + |pat|] == pat
  }

  function IndexOfFrom(s: string, pat: string, from: nat): (r: Option<nat>)
    requires from <= |s|
    decreases |s| - from
    ensures r.Some? ==> from <= r.value && OccursAt(s, pat, r.value)
    ensures r.Some? ==> forall j :: from <= j < r.value ==> !OccursAt(s, pat, j)
    ensures r.None? ==> forall j :: from <= j <= |s| ==> !OccursAt(s, pat, j)
  {
    if OccursAt(s, pat, from) then Some(from)
    else if from == |s| then None
    else IndexOfFrom(s, pat, from + 1)
  }

  /** `s.indexOf(pat)` as an option: the first position where `pat` occurs. */
  function IndexOf(s: string, pat: string): (r: Option<nat>)
    ensures r.Some? ==> OccursAt(s, pat, r.value) && forall j :: 0 <= j < r.value ==> !OccursAt(s, pat, j)
    ensures r.None? ==> forall j :: 0 <= j <= |s| ==> !OccursAt(s, pat, j)
  {
    IndexOfFrom(s, pat, 0)
  }

  /** `s.contains(pat)`. */
  predicate Contains(s: string, pat: string) {
    IndexOf(s, pat).Some?
  }

  /** `s.contains(pat)` holds exactly when `pat` occurs somewhere in `s`. */
  lemma ContainsOccurs(s: string, pat: string)
    ensures Contains(s, pat) <==> exists i :: 0 <= i <= |s| && OccursAt(s, pat, i)
  {
    if Contains(s, pat) {
      assert OccursAt(s, pat, IndexOf(s, pat).value);
    }
  }

  /** A marker whose first character does not occur in `a` is first found right after `a`. */
  lemma MarkerAfter(a: string, sep: string, b: string)
    requires sep != [] && sep[0] !in a
    ensures IndexOf(a + sep + b, sep) == Some(|a|)
  {
    var s := a + sep + b;
    assert s[|a|..|a| + |sep|] == sep;
    assert OccursAt(s, sep, |a|);
    forall j | 0 <= j < |a|
      ensures !OccursAt(s, sep, j)
    {
      if j + |sep| <= |s| {
        assert s[j..j + |sep|][0] == s[j] == a[j] != sep[0];
      }
    }
  }

  /** Text without the first character of a marker does not contain the marker. */
  lemma MarkerAbsent(s: string, sep: string)
    requires sep != [] && sep[0] !in s
    ensures !Contains(s, sep)
  {
    forall j | 0 <= j <= |s|
      ensures !OccursAt(s, sep, j)
    {
      if j + |sep| <= |s| {
        assert s[j..j + |sep|][0] == s[j] != sep[0];
      }
    }
  }

  /** A marker occurs in any text it is put into. */
  lemma ContainsMiddle(a: string, pat: string, b: string)
    ensures Contains(a + pat + b, pat)
  {
    var s := a + pat + b;
    assert s[|a|..|a| + |pat|] == pat;
    assert OccursAt(s, pat, |a|);
  }

  /** A marker does not occur where its first character is never followed by its second. */
  lemma NotFollowed(s: string, pat: string)
    requires |pat| >= 2
    requires forall j :: 0 <= j < |s| - 1 && s[j] == pat[0] ==> s[j + 1] != pat[1]
    ensures !Contains(s, pat)
  {
    forall j | 0 <= j <= |s|
      ensures !OccursAt(s, pat, j)
    {
      if j + |pat| <= |s| {
        assert s[j..j + |pat|][0] == s[j] && s[j..j + |pat|][1] == s[j + 1];
      }
    }
  }

  /** An occurrence is the first one when no earlier position starts with the marker's first two characters. */
  lemma FirstFollowed(s: string, pat: string, i: nat)
    requires |pat| >= 2 && OccursAt(s, pat, i)
    requires forall j :: 0 <= j < i && s[j] == pat[0] ==> s[j + 1] != pat[1]
    ensures IndexOf(s, pat) == Some(i)
  {
    forall j | 0 <= j < i
      ensures !OccursAt(s, pat, j)
    {
      if j + |pat| <= |s| {
        assert s[j..j + |pat|][0] == s[j] && s[j..j + |pat|][1] == s[j + 1];
      }
    }
  }

  lemma PrefixBeforeFirst(s: string, sep: string, i: nat)
    requires sep != [] && IndexOf(s, sep) == Some(i)
    ensures !Contains(s[..i], sep)
  {
    var p := s[..i];
    forall j | 0 <= j <= |p|
      ensures !OccursAt(p, sep, j)
    {
      if j + |sep| <= |p| {
        assert p[j..j + |sep|] == s[j..j + |sep|];
        assert !OccursAt(s, sep, j);
      }
    }
  }

  /** The text before the first occurrence of `sep`. */
  function Before(s: string, sep: string): (r: string)
    requires Contains(s, sep)
    ensures IndexOf(s, sep) == Some(|r|) && r == s[..|r|]
  {
    s[..IndexOf(s, sep).value]
  }

  /** The text after the first occurrence of `sep`. */
  function After(s: string, sep: string): (r: string)
    requires Contains(s, sep)
    ensures r == s[|Before(s, sep)| + |sep|..]
  {
    s[IndexOf(s, sep).value + |sep|..]
  }

  // ---------------------------------------------------------------- split

  /**
   * `s.split(sep, 2)` for a literal separator: the text before and after the first occurrence,
   * or `s` alone when the separator does not occur.
   */
  function SplitOnce(s: string, sep: string): (r: seq<string>)
    requires sep != []
    ensures |r| == 1 || |r| == 2
    ensures |r| == 1 <==> !Contains(s, sep)
    ensures |r| == 1 ==> r[0] == s
    ensures |r| == 2 ==> r[0] + sep + r[1] == s && !Contains(r[0], sep)
  {
    match IndexOf(s, sep)
    case None => [s]
    case Some(i) =>
      PrefixBeforeFirst(s, sep, i);
      assert s[..i] + sep + s[i + |sep|..] == s by {
        assert s[i..i + |sep|] == sep;
        assert s == s[..i] + s[i..i + |sep|] + s[i + |sep|..];
      }
      [s[..i], s[i + |sep|..]]
  }

  /** With the separator present, the two parts are the text before and after its first occurrence. */
  lemma SplitOnceParts(s: string, sep: string)
    requires sep != [] && Contains(s, sep)
    ensures SplitOnce(s, sep) == [Before(s, sep), After(s, sep)]
  {
  }

  /** Splitting rendered `a + sep + b` with limit 2 gives back `a` and `b`. */
  lemma SplitOnceRendered(a: string, sep: string, b: string)
    requires sep != [] && sep[0] !in a
    ensures SplitOnce(a + sep + b, sep) == [a, b]
  {
    MarkerAfter(a, sep, b);
    var s := a + sep + b;
    assert s[..|a|] == a;
    assert s[|a| + |sep|..] == b;
  }

  function Join(parts: seq<string>, sep: string): string
    requires parts != []
    decreases |parts|
  {
    if |parts| == 1 then parts[0] else parts[0] + sep + Join(parts[1..], sep)
  }

  /** The pieces between successive occurrences of `sep`, before Java drops trailing empty ones. */
  function Pieces(s: string, sep: string): (r: seq<string>)
    requires sep != []
    decreases |s|
    ensures r != [] && Join(r, sep) == s
    ensures r[0] == SplitOnce(s, sep)[0]
    ensures forall k :: 0 <= k < |r| ==> !Contains(r[k], sep)
  {
    match IndexOf(s, sep)
    case None => [s]
    case Some(i) =>
      var rest := Pieces(s[i + |sep|..], sep);
      var r := [s[..i]] + rest;
      assert r[1..] == rest;
      r
  }

  function DropTrailingEmpty(parts: seq<string>): (r: seq<string>)
    decreases |parts|
    ensures |r| <= |parts| && r == parts[..|r|]
    ensures forall k :: |r| <= k < |parts| ==> parts[k] == ""
    ensures r == [] || r[|r| - 1] != ""
  {
    if parts != [] && parts[|parts| - 1] == "" then DropTrailingEmpty(parts[..|parts| - 1]) else parts
  }

  /**
   * `s.split(sep)` for a literal separator: every piece between occurrences, with the trailing
   * empty pieces removed; text without the separator gives itself alone (even when empty).
   */
  function SplitAll(s: string, sep: string): (r: seq<string>)
    requires sep != []
    ensures !Contains(s, sep) ==> r == [s]
    ensures Contains(s, sep) ==> r == [] || r[|r| - 1] != ""
  {
    if !Contains(s, sep) then [s] else DropTrailingEmpty(Pieces(s, sep))
  }

  /**
   * The pieces `split` keeps hold no separator, are a prefix of all the pieces between
   * occurrences, and start with the text before the first occurrence.
   */
  lemma SplitAllParts(s: string, sep: string)
    requires sep != []
    ensures forall k :: 0 <= k < |SplitAll(s, sep)| ==> !Contains(SplitAll(s, sep)[k], sep)
    ensures SplitAll(s, sep) != [] ==> SplitAll(s, sep)[0] == SplitOnce(s, sep)[0]
    ensures |SplitAll(s, sep)| <= |Pieces(s, sep)| && SplitAll(s, sep) == Pieces(s, sep)[..|SplitAll(s, sep)|]
  {
  }

  /** `(a + sep + b).split(sep)` gives back `a` and `b` when neither holds the separator's first character. */
  lemma SplitAllRendered(a: string, sep: string, b: string)
    requires sep != [] && sep[0] !in a && sep[0] !in b && b != ""
    ensures SplitAll(a + sep + b, sep) == [a, b]
  {
    var s := a + sep + b;
    MarkerAfter(a, sep, b);
    MarkerAbsent(b, sep);
    assert s[..|a|] == a;
    assert s[|a| + |sep|..] == b;
    assert Pieces(b, sep) == [b];
    assert Pieces(s, sep) == [a, b];
  }

  // ---------------------------------------------------------------- parseInt

  predicate IsDigit(c: char) {
    '0' <= c <= '9'
  }

  predicate AllDigits(s: string) {
    forall k :: 0 <= k < |s| ==> IsDigit(s[k])
  }

  function DigitsValue(s: string): nat
    requires AllDigits(s)
    decreases |s|
  {
    if s == [] then 0 else DigitsValue(s[..|s| - 1]) * 10 + (s[|s| - 1] as int - '0' as int)
  }

  /**
   * `Integer.parseInt(s)`: an optional `-` or `+` followed by at least one decimal digit, whose
   * value fits in 32 bits; anything else is a `NumberFormatException` (here `None`).
   */
  function ParseInt(s: string): (r: Option<int>)
    ensures r.Some? ==> MinInt32 <= r.value <= MaxInt32
    ensures r.Some? ==> s != [] && (AllDigits(s) || ((s[0] == '-' || s[0] == '+') && |s| >= 2 && AllDigits(s[1..])))
  {
    if s == [] then None
    else
      var digits := if s[0] == '-' || s[0] == '+' then s[1..] else s;
      if digits == [] || !AllDigits(digits) then None
      else
        var v: int := if s[0] == '-' then -(DigitsValue(digits) as int) else DigitsValue(digits);
        if MinInt32 <= v <= MaxInt32 then Some(v) else None
  }

  /** The token `-1`, the quote number that stands for "no quote", is read as -1. */
  lemma ParseMinusOne()
    ensures ParseInt("-1") == Some(-1)
  {
    assert "-1"[1..] == "1";
    assert "1"[..0] == "";
  }

  function DigitChar(d: nat): char
    requires d < 10
  {
    ('0' as int + d) as char
  }

  /** The decimal digits of `n`, most significant first, without leading zeros. */
  function Decimal(n: nat): (r: string)
    decreases n
    ensures r != [] && AllDigits(r)
  {
    if n < 10 then [DigitChar(n)] else Decimal(n / 10) + [DigitChar(n % 10)]
  }

  /** `Integer.toString(n)`. */
  function IntToString(n: int): string {
    if n < 0 then "-" + Decimal(-n) else Decimal(n)
  }

  lemma {:induction false} DecimalValue(n: nat)
    ensures DigitsValue(Decimal(n)) == n
    decreases n
  {
    if n >= 10 {
      DecimalValue(n / 10);
      var d := Decimal(n);
      assert d[..|d| - 1] == Decimal(n / 10);
    }
  }

  /** `parseInt` reads back every 32-bit value that `Integer.toString` writes. */
  lemma ParseIntToString(n: int)
    requires MinInt32 <= n <= MaxInt32
    ensures ParseInt(IntToString(n)) == Some(n)
  {
    if n < 0 {
      var s := "-" + Decimal(-n);
      assert s[1..] == Decimal(-n);
      DecimalValue(-n);
    } else {
      DecimalValue(n);
      assert IsDigit(Decimal(n)[0]);
    }
  }

  // ---------------------------------------------------------------- int arithmetic

  /** Two's-complement wrap-around of a Java `int` expression. */
  function Wrap32(x: int): (r: int)
    ensures MinInt32 <= r <= MaxInt32
    ensures (r - x) % Modulus32 == 0
    ensures MinInt32 <= x <= MaxInt32 ==> r == x
  {
    (x - MinInt32) % Modulus32 + MinInt32
  }

  /**
   * A 1-based number `n` read by `parseInt` becomes the 0-based index `n - 1` in Java arithmetic;
   * for a list of at most `MaxInt32` elements that index is in range exactly when `1 <= n <= size`.
   */
  lemma OneBasedIndex(n: int, size: nat)
    requires MinInt32 <= n <= MaxInt32 && size <= MaxInt32
    ensures 0 <= Wrap32(n - 1) < size <==> 1 <= n <= size
    ensures 1 <= n <= size ==> Wrap32(n - 1) == n - 1
  {
    if n == MinInt32 {
      assert Wrap32(n - 1) == MaxInt32;
    }
  }
}
