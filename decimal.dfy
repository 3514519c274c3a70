/**
 * Decimal notation of natural numbers: the rendering used for JSON integers,
 * for the positional keys of a converted series and for the zero-padded
 * fields of a timestamp, together with the reading back of such digits.
 */
module Decimal {
  import opened Wrappers

  predicate IsDigit(c: char) { '0' <= c <= '9' }

  predicate AllDigits(s: string) { forall i :: 0 <= i < |s| ==> IsDigit(s[i]) }

  function DigitChar(d: nat): (c: char)
    requires d < 10
    ensures IsDigit(c) && (c as int) - ('0' as int) == d
  {
    "0123456789"[d]
  }

  function DigitValue(c: char): nat
    requires IsDigit(c)
  {
    (c as int) - ('0' as int)
  }

  function Pow10(k: nat): (p: nat)
    ensures p >= 1
  {
    if k == 0 then 1 else 10 * Pow10(k - 1)
  }

  /** The shortest decimal notation of `n`: no leading zero unless `n` is 0. */
  function Show(n: nat): (s: string)
    ensures 1 <= |s| && AllDigits(s)
    ensures s[0] == '0' ==> n == 0
    ensures n < Pow10(|s|)
  {
    if n < 10 then [DigitChar(n)] else Show(n / 10) + [DigitChar(n % 10)]
  }

  /** The number a string of digits denotes (most significant digit first). */
  function Value(s: string): nat
    requires AllDigits(s)
  {
    if s == [] then 0 else 10 * Value(s[..|s| - 1]) + DigitValue(s[|s| - 1])
  }

  /** `n` written with at least `width` digits, zeros on the left ("%0<width>d"). */
  function Padded(n: nat, width: nat): (s: string)
    ensures AllDigits(s)
    ensures |s| == if |Show(n)| < width then width else |Show(n)|
  {
    var digits := Show(n);
    if |digits| < width then Zeros(width - |digits|) + digits else digits
  }

  function Zeros(k: nat): (s: string)
    ensures |s| == k && AllDigits(s) && Value(s) == 0
  {
    if k == 0 then [] else
      var z := Zeros(k - 1) + ['0'];
      assert z[..|z| - 1] == Zeros(k - 1);
      z
  }

  /** Number of leading digit characters of `s`. */
  function DigitRun(s: string): (k: nat)
    ensures k <= |s| && AllDigits(s[..k])
    ensures k < |s| ==> !IsDigit(s[k])
  {
    if s == [] || !IsDigit(s[0]) then 0 else
      var k := 1 + DigitRun(s[1..]);
      assert s[..k] == [s[0]] + s[1..][..k - 1];
      k
  }

  /** Reads the maximal run of digits at the start of `s`; fails if there is none. */
  function ReadNat(s: string): (r: Option<(nat, string)>)
    ensures r.Some? ==> |r.value.1| < |s|
  {
    var k := DigitRun(s);
    if k == 0 then None else Some((Value(s[..k]), s[k..]))
  }

  /** A string that cannot continue a run of digits. */
  predicate StopsDigits(rest: string) { rest == [] || !IsDigit(rest[0]) }

  lemma {:induction false} ValueOfShow(n: nat)
    ensures Value(Show(n)) == n
    decreases n
  {
    if n >= 10 {
      var s := Show(n / 10) + [DigitChar(n % 10)];
      assert s[..|s| - 1] == Show(n / 10);
      ValueOfShow(n / 10);
    }
  }

  lemma AllDigitsAppend(a: string, b: string)
    requires AllDigits(a) && AllDigits(b)
    ensures AllDigits(a + b)
  {
    forall i | 0 <= i < |a + b| ensures IsDigit((a + b)[i]) {
      if i < |a| { assert (a + b)[i] == a[i]; } else { assert (a + b)[i] == b[i - |a|]; }
    }
  }

  lemma Regroup(x: int, y: int, p: int, d: int)
    ensures 10 * (x * p + y) + d == x * (10 * p) + (10 * y + d)
  {
  }

  lemma {:induction false} ValueAppend(a: string, b: string)
    requires AllDigits(a) && AllDigits(b)
    ensures AllDigits(a + b)
    ensures Value(a + b) == Value(a) * Pow10(|b|) + Value(b)
    decreases |b|
  {
    AllDigitsAppend(a, b);
    if b == [] {
      assert a + b == a;
    } else {
      var b' := b[..|b| - 1];
      var d := DigitValue(b[|b| - 1]);
      assert (a + b)[..|a + b| - 1] == a + b';
      assert (a + b)[|a + b| - 1] == b[|b| - 1];
      ValueAppend(a, b');
      var va, vb', p' := Value(a), Value(b'), Pow10(|b'|);
      assert Value(b) == 10 * vb' + d;
      assert Value(a + b) == 10 * Value(a + b') + d;
      assert Value(a + b') == va * p' + vb';
      assert Pow10(|b|) == 10 * p';
      Regroup(va, vb', p', d);
    }
  }

  /** Reading a padded field back gives the number: padding only adds leading zeros. */
  lemma ValueOfPadded(n: nat, width: nat)
    ensures Value(Padded(n, width)) == n
  {
    ValueOfShow(n);
    var digits := Show(n);
    if |digits| < width {
      var zs := Zeros(width - |digits|);
      ValueAppend(zs, digits);
      assert Value(zs) * Pow10(|digits|) == 0;
    }
  }

  lemma {:induction false} ValueBound(s: string)
    requires AllDigits(s)
    ensures Value(s) < Pow10(|s|)
    decreases |s|
  {
    if s != [] {
      ValueBound(s[..|s| - 1]);
    }
  }

  /** Two digit strings of the same length that denote the same number are equal. */
  lemma {:induction false} ValueInjective(s: string, t: string)
    requires AllDigits(s) && AllDigits(t) && |s| == |t| && Value(s) == Value(t)
    ensures s == t
    decreases |s|
  {
    if s != [] {
      var n := |s| - 1;
      assert DigitValue(s[n]) == Value(s) % 10 == DigitValue(t[n]);
      ValueInjective(s[..n], t[..n]);
      assert s == s[..n] + [s[n]] && t == t[..n] + [t[n]];
    }
  }

  /** A field of digits is the padded notation of the number it denotes. */
  lemma ValueOfTwoDigits(s: string)
    requires |s| == 2 && AllDigits(s)
    ensures Value(s) == 10 * DigitValue(s[0]) + DigitValue(s[1])
  {
    var head := s[..1];
    assert head[..0] == [];
    assert Value(head) == DigitValue(s[0]);
  }

  lemma ValueOfFourDigits(s: string)
    requires |s| == 4 && AllDigits(s)
    ensures Value(s) == 1000 * DigitValue(s[0]) + 100 * DigitValue(s[1]) + 10 * DigitValue(s[2]) + DigitValue(s[3])
  {
    var three := s[..3];
    ValueOfTwoDigits(s[..2]);
    assert three[..2] == s[..2];
    assert Value(three) == 10 * Value(s[..2]) + DigitValue(s[2]);
  }

  lemma PaddedOfValue(s: string)
    requires 1 <= |s| && AllDigits(s)
    ensures Padded(Value(s), |s|) == s
  {
    ValueBound(s);
    ShowLength(Value(s), |s|);
    ValueOfPadded(Value(s), |s|);
    ValueInjective(Padded(Value(s), |s|), s);
  }

  lemma {:induction false} DigitRunOfDigits(ds: string, rest: string)
    requires AllDigits(ds) && StopsDigits(rest)
    ensures DigitRun(ds + rest) == |ds|
    decreases |ds|
  {
    if ds == [] {
      assert ds + rest == rest;
    } else {
      assert (ds + rest)[1..] == ds[1..] + rest;
      DigitRunOfDigits(ds[1..], rest);
    }
  }

  lemma {:induction false} ShowLength(n: nat, k: nat)
    requires 1 <= k && n < Pow10(k)
    ensures |Show(n)| <= k
    decreases k
  {
    if n >= 10 {
      assert Pow10(k) == 10 * Pow10(k - 1);
      ShowLength(n / 10, k - 1);
    }
  }

  /** Round trip: reading the notation of `n` back, followed by a non-digit, gives `n` and the rest. */
  lemma ReadShow(n: nat, rest: string)
    requires StopsDigits(rest)
    ensures ReadNat(Show(n) + rest) == Some((n, rest))
  {
    var s := Show(n) + rest;
    DigitRunOfDigits(Show(n), rest);
    assert s[..|Show(n)|] == Show(n);
    assert s[|Show(n)|..] == rest;
    ValueOfShow(n);
  }

  /** The notation is injective, so distinct numbers get distinct keys. */
  lemma ShowInjective(m: nat, n: nat)
    ensures Show(m) == Show(n) <==> m == n
  {
    if Show(m) == Show(n) {
      ValueOfShow(m);
      ValueOfShow(n);
    }
  }
}
