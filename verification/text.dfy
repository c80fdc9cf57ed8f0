/** File names: prefixes, suffixes and decimal numbers in them. */
module Text {

  predicate EndsWith(s: string, suffix: string) {
    |suffix| <= |s| && s[|s| - |suffix|..] == suffix
  }

  predicate StartsWith(s: string, prefix: string) {
    |prefix| <= |s| && s[..|prefix|] == prefix
  }

  predicate IsDigit(c: char) {
    '0' <= c <= '9'
  }

  predicate AllDigits(s: string) {
    forall c :: c in s ==> IsDigit(c)
  }

  function Value(d: string): nat
    requires AllDigits(d)
  {
    if d == [] then 0 else
      assert d[|d| - 1] in d;
      10 * Value(d[..|d| - 1]) + (d[|d| - 1] as int - '0' as int)
  }

  /** The digits without leading zeros. */
  function Trimmed(d: string): string {
    if d != [] && d[0] == '0' then Trimmed(d[1..]) else d
  }

  lemma {:induction false} LeadingZero(d: string)
    requires AllDigits(d) && d != [] && d[0] == '0'
    ensures Value(d[1..]) == Value(d)
    decreases |d|
  {
    var n := |d| - 1;
    if n > 0 {
      LeadingZero(d[..n]);
      assert d[..n][1..] == d[1..][..n - 1];
    }
  }

  lemma {:induction false} TrimmedValue(d: string)
    requires AllDigits(d)
    ensures AllDigits(Trimmed(d)) && Value(Trimmed(d)) == Value(d)
    ensures Trimmed(d) != [] ==> Trimmed(d)[0] != '0'
    decreases |d|
  {
    if d != [] && d[0] == '0' {
      LeadingZero(d);
      TrimmedValue(d[1..]);
    }
  }

  lemma {:induction false} PositiveValue(d: string)
    requires AllDigits(d) && d != [] && d[0] != '0'
    ensures Value(d) > 0
    decreases |d|
  {
    assert d[|d| - 1] in d;
    if |d| > 1 { PositiveValue(d[..|d| - 1]); }
  }

  lemma SameSplit(x: nat, a: nat, y: nat, b: nat)
    requires a < 10 && b < 10 && 10 * x + a == 10 * y + b
    ensures x == y && a == b
  {
  }

  lemma {:induction false} SameDigits(d: string, e: string)
    requires AllDigits(d) && AllDigits(e) && Value(d) == Value(e)
    requires (d != [] ==> d[0] != '0') && (e != [] ==> e[0] != '0')
    ensures d == e
    decreases |d|
  {
    if d == [] {
      if e != [] { PositiveValue(e); }
    } else if e == [] {
      PositiveValue(d);
    } else {
      var m, n := |d| - 1, |e| - 1;
      assert d[m] in d && e[n] in e;
      SameSplit(Value(d[..m]), d[m] as int - '0' as int, Value(e[..n]), e[n] as int - '0' as int);
      SameDigits(d[..m], e[..n]);
      assert d == d[..m] + [d[m]] && e == e[..n] + [e[n]];
    }
  }

  /** Two numbers print alike exactly when they are equal. */
  lemma SameNumber(d: string, e: string)
    requires AllDigits(d) && AllDigits(e)
    ensures Trimmed(d) == Trimmed(e) <==> Value(d) == Value(e)
  {
    TrimmedValue(d);
    TrimmedValue(e);
    if Value(d) == Value(e) { SameDigits(Trimmed(d), Trimmed(e)); }
  }

  function Power(n: nat): nat {
    if n == 0 then 1 else 10 * Power(n - 1)
  }

  lemma PowerSum(m: nat, n: nat)
    ensures Power(m + n) == Power(m) * Power(n)
    decreases n
  {
    if n > 0 { PowerSum(m, n - 1); }
  }

  lemma SixteenZeros()
    ensures Power(16) == 10_000_000_000_000_000
  {
    assert Power(2) == 100;
    PowerSum(2, 2);
    PowerSum(4, 4);
    PowerSum(8, 8);
  }

  lemma {:induction false} PowerGrows(m: nat, n: nat)
    requires m <= n
    ensures Power(m) <= Power(n)
    decreases n
  {
    if m < n { PowerGrows(m, n - 1); }
  }

  lemma {:induction false} AtLeastPower(d: string)
    requires AllDigits(d) && d != [] && d[0] != '0'
    ensures Power(|d| - 1) <= Value(d)
    decreases |d|
  {
    var n := |d| - 1;
    assert d[n] in d && Value(d) >= 10 * Value(d[..n]);
    if n > 0 {
      AtLeastPower(d[..n]);
    } else {
      PositiveValue(d);
    }
  }

  lemma SplitAt(s: string, a: string, b: string)
    requires StartsWith(s, a) && EndsWith(s, b) && |a| + |b| <= |s|
    ensures s == a + s[|a|..|s| - |b|] + b
  {
  }
}
