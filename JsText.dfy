/** The two JavaScript built-ins the article store relies on for text:
    `Number.prototype.toString` (the id of a new article is the clock reading
    in decimal) and the default comparison of `Array.prototype.sort`
    (the topic list is sorted with no comparator). */
module JsText {

  // ---------------------------------------------------------------------------
  // Decimal rendering of an integer clock reading
  // ---------------------------------------------------------------------------

  predicate IsDigit(c: char) {
    '0' <= c <= '9'
  }

  function DigitChar(d: nat): (c: char)
    requires d < 10
    ensures IsDigit(c)
  {
    "0123456789"[d]
  }

  function DigitValue(c: char): (d: nat)
    requires IsDigit(c)
    ensures d < 10 && DigitChar(d) == c
  {
    (c as int - '0' as int) as nat
  }

  /** The decimal digits of `n`, most significant first, without leading zeros. */
  function NatDigits(n: nat): (r: string)
    ensures |r| >= 1
    ensures forall i | 0 <= i < |r| :: IsDigit(r[i])
    ensures r[0] == '0' ==> n == 0 && r == "0"
    decreases n
  {
    if n < 10 then [DigitChar(n)] else NatDigits(n / 10) + [DigitChar(n % 10)]
  }

  /** `n.toString()` for an integral number (no exponent form: clock values
      stay far below 10^21). */
  function IntToDecimal(n: int): (r: string)
    ensures |r| >= 1
    ensures n >= 0 <==> IsDigit(r[0])
    ensures n < 0 <==> r[0] == '-'
  {
    if n >= 0 then NatDigits(n) else "-" + NatDigits(-n)
  }

  /** Reads back a string of decimal digits. */
  function ParseDigits(s: string): nat
    requires forall i | 0 <= i < |s| :: IsDigit(s[i])
  {
    if |s| == 0 then 0 else ParseDigits(s[..|s| - 1]) * 10 + DigitValue(s[|s| - 1])
  }

  /** Reads back an optionally signed string of decimal digits. */
  function ParseDecimal(s: string): int
    requires |s| >= 1
    requires forall i | 1 <= i < |s| :: IsDigit(s[i])
    requires s[0] == '-' || IsDigit(s[0])
  {
    if s[0] == '-' then -(ParseDigits(s[1..]) as int) else ParseDigits(s)
  }

  lemma {:induction false} ParseNatDigits(n: nat)
    ensures ParseDigits(NatDigits(n)) == n
    decreases n
  {
    var r := NatDigits(n);
    if n >= 10 {
      ParseNatDigits(n / 10);
      assert r[..|r| - 1] == NatDigits(n / 10);
    }
  }

  /** The id rendering is lossless: parsing it gives back the clock reading. */
  lemma DecimalRoundTrip(n: int)
    ensures ParseDecimal(IntToDecimal(n)) == n
  {
    if n >= 0 {
      ParseNatDigits(n);
    } else {
      ParseNatDigits(-n);
      assert IntToDecimal(n)[1..] == NatDigits(-n);
    }
  }

  /** Different clock readings give different ids. */
  lemma DecimalInjective(m: int, n: int)
    ensures IntToDecimal(m) == IntToDecimal(n) <==> m == n
  {
    if IntToDecimal(m) == IntToDecimal(n) {
      DecimalRoundTrip(m);
      DecimalRoundTrip(n);
    }
  }

  // ---------------------------------------------------------------------------
  // Default string order of Array.prototype.sort
  // ---------------------------------------------------------------------------

  /** Lexicographic order on characters; a proper prefix comes first. */
  predicate StrLess(a: string, b: string)
    decreases |a|
  {
    if |a| == 0 then |b| > 0
    else if |b| == 0 then false
    else if a[0] != b[0] then a[0] < b[0]
    else StrLess(a[1..], b[1..])
  }

  predicate StrLessEq(a: string, b: string) {
    a == b || StrLess(a, b)
  }

  lemma {:induction false} StrLessTransitive(a: string, b: string, c: string)
    requires StrLess(a, b) && StrLess(b, c)
    ensures StrLess(a, c)
    decreases |a|
  {
    if |a| > 0 && a[0] == b[0] && b[0] == c[0] {
      StrLessTransitive(a[1..], b[1..], c[1..]);
    }
  }

  lemma {:induction false} StrLessTotal(a: string, b: string)
    ensures a == b || StrLess(a, b) || StrLess(b, a)
    decreases |a|
  {
    if |a| > 0 && |b| > 0 && a[0] == b[0] {
      StrLessTotal(a[1..], b[1..]);
      if a[1..] == b[1..] {
        assert a == [a[0]] + a[1..] && b == [b[0]] + b[1..];
      }
    }
  }

  /** Non-decreasing in the default sort order. */
  predicate Ascending(s: seq<string>) {
    forall i, j | 0 <= i < j < |s| :: StrLessEq(s[i], s[j])
  }

  /** Strictly increasing in the default sort order. */
  predicate StrictlyAscending(s: seq<string>) {
    forall i, j | 0 <= i < j < |s| :: StrLess(s[i], s[j])
  }

  /** Places `x` before the first element it does not follow. */
  function InsertString(x: string, t: seq<string>): (r: seq<string>)
    requires Ascending(t)
    ensures Ascending(r)
    ensures multiset(r) == multiset(t) + multiset{x}
  {
    if t == [] then [x]
    else if !StrLess(t[0], x) then
      StrLessTotal(x, t[0]);
      forall j | 0 <= j < |t| ensures StrLessEq(x, t[j]) {
        if j > 0 && x != t[0] && t[0] != t[j] {
          StrLessTransitive(x, t[0], t[j]);
        }
      }
      [x] + t
    else
      var rest := InsertString(x, t[1..]);
      assert t == [t[0]] + t[1..];
      forall y | y in rest ensures StrLessEq(t[0], y) {
        assert y in multiset(rest);
        if y != x {
          assert y in t[1..];
        }
      }
      [t[0]] + rest
  }

  /** The default `Array.prototype.sort()` on strings, as an insertion sort. */
  function SortStrings(s: seq<string>): (r: seq<string>)
    ensures Ascending(r)
    ensures multiset(r) == multiset(s)
  {
    if s == [] then []
    else
      assert s == [s[0]] + s[1..];
      InsertString(s[0], SortStrings(s[1..]))
  }

  /** Sorting a duplicate-free list yields a strictly ascending one. */
  lemma SortedDistinctIsStrict(r: seq<string>)
    requires Ascending(r)
    requires forall x :: multiset(r)[x] <= 1
    ensures StrictlyAscending(r)
  {
    forall i, j | 0 <= i < j < |r| ensures StrLess(r[i], r[j]) {
      if r[i] == r[j] {
        RepeatedElementCount(r, i, j);
        assert false;
      }
    }
  }

  lemma RepeatedElementCount<T>(r: seq<T>, i: nat, j: nat)
    requires i < j < |r| && r[i] == r[j]
    ensures multiset(r)[r[i]] >= 2
  {
    assert r == r[..j] + r[j..];
    assert r[i] in r[..j];
    assert r[j] in r[j..];
  }
}
