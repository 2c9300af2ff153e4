/** Decimal rendering of fixed-point coordinates, as JavaScript's `toFixed(6)` shows them.
    A coordinate is held as an integer number of millionths of a degree (micro-degrees). */
module Decimal {

  const MicroPerDegree: nat := 1000000

  function DigitChar(d: nat): (c: char)
    requires d < 10
    ensures '0' <= c <= '9'
  {
    ['0', '1', '2', '3', '4', '5', '6', '7', '8', '9'][d]
  }

  function DigitValue(c: char): nat
  {
    if '0' <= c <= '9' then (c - '0') as nat else 0
  }

  lemma DigitRoundTrip(d: nat)
    requires d < 10
    ensures DigitValue(DigitChar(d)) == d
  {
  }

  predicate IsDigits(s: string)
  {
    forall i :: 0 <= i < |s| ==> '0' <= s[i] <= '9'
  }

  /** The value of a string of decimal digits, most significant first. */
  function Value(s: string): nat
  {
    if s == [] then 0 else Value(s[..|s| - 1]) * 10 + DigitValue(s[|s| - 1])
  }

  /** Decimal digits of `n` without leading zeros ("0" for zero). */
  function Digits(n: nat): (s: string)
    ensures |s| >= 1 && IsDigits(s)
  {
    if n < 10 then [DigitChar(n)] else Digits(n / 10) + [DigitChar(n % 10)]
  }

  /** Exactly `width` digits of `n`, zero-padded on the left. */
  function PadDigits(n: nat, width: nat): (s: string)
    ensures |s| == width && IsDigits(s)
  {
    if width == 0 then [] else PadDigits(n / 10, width - 1) + [DigitChar(n % 10)]
  }

  function Abs(v: int): nat
  {
    if v < 0 then -v else v
  }

  /** `toFixed(6)` of a coordinate given in micro-degrees: an optional minus sign,
      the whole degrees, a point and exactly six decimals. */
  function Fixed6(v: int): (s: string)
    ensures |s| >= 8
  {
    (if v < 0 then "-" else "")
      + Digits(Abs(v) / MicroPerDegree) + "." + PadDigits(Abs(v) % MicroPerDegree, 6)
  }

  /** The last two characters of a string, as `slice(-2)` gives them. */
  function LastTwo(s: string): (t: string)
    ensures |s| >= 2 ==> |t| == 2
  {
    if |s| >= 2 then s[|s| - 2..] else s
  }

  lemma {:induction false} DigitsValue(n: nat)
    ensures Value(Digits(n)) == n
  {
    if n >= 10 {
      DigitsValue(n / 10);
      var s := Digits(n / 10) + [DigitChar(n % 10)];
      assert s[..|s| - 1] == Digits(n / 10);
    }
  }

  lemma {:induction false} PadDigitsValue(n: nat, width: nat)
    requires n < Pow10(width)
    ensures Value(PadDigits(n, width)) == n
  {
    if width > 0 {
      PadDigitsValue(n / 10, width - 1);
      var s := PadDigits(n / 10, width - 1) + [DigitChar(n % 10)];
      assert s[..|s| - 1] == PadDigits(n / 10, width - 1);
    }
  }

  function Pow10(k: nat): (p: nat)
    ensures p >= 1
  {
    if k == 0 then 1 else 10 * Pow10(k - 1)
  }

  lemma ModUnique(n: nat, m: nat, a: nat, r: nat)
    requires m > 0 && r < m && n == a * m + r
    ensures n % m == r
  {
    var q, s := n / m, n % m;
    assert q * m + s == a * m + r;
    if q < a {
      MulAtLeast(a - q, m);
      assert false;
    } else if a < q {
      MulAtLeast(q - a, m);
      assert false;
    }
  }

  lemma MulAtLeast(k: nat, m: nat)
    requires k >= 1
    ensures k * m >= m
  {
  }

  /** Rendering is injective: two micro-degree values print the same iff they are equal,
      so comparing `toFixed(6)` strings is comparing coordinates. */
  lemma Fixed6Injective(a: int, b: int)
    ensures Fixed6(a) == Fixed6(b) <==> a == b
  {
    if Fixed6(a) == Fixed6(b) {
      var m := MicroPerDegree;
      Fixed6Parts(a, b);
      DigitsValue(Abs(a) / m);
      DigitsValue(Abs(b) / m);
      assert Pow10(6) == m;
      PadDigitsValue(Abs(a) % m, 6);
      PadDigitsValue(Abs(b) % m, 6);
      DivModDetermines(Abs(a), Abs(b), m);
      Fixed6SameSign(a, b);
    }
  }

  /** Equal renderings have equal sign, whole-degree digits and decimals. */
  lemma Fixed6Parts(a: int, b: int)
    requires Fixed6(a) == Fixed6(b)
    ensures Digits(Abs(a) / MicroPerDegree) == Digits(Abs(b) / MicroPerDegree)
    ensures PadDigits(Abs(a) % MicroPerDegree, 6) == PadDigits(Abs(b) % MicroPerDegree, 6)
  {
    Fixed6SameSign(a, b);
    var sign := if a < 0 then "-" else "";
    var da, pa := Digits(Abs(a) / MicroPerDegree), PadDigits(Abs(a) % MicroPerDegree, 6);
    var db, pb := Digits(Abs(b) / MicroPerDegree), PadDigits(Abs(b) % MicroPerDegree, 6);
    assert Fixed6(a) == sign + da + "." + pa;
    assert Fixed6(b) == sign + db + "." + pb;
    SplitEqual(sign, da, pa, db, pb);
  }

  lemma Fixed6SameSign(a: int, b: int)
    requires Fixed6(a) == Fixed6(b)
    ensures (a < 0) == (b < 0)
  {
    Fixed6Sign(a);
    Fixed6Sign(b);
  }

  lemma Fixed6Sign(v: int)
    ensures Fixed6(v)[0] == '-' <==> v < 0
  {
    var d := Digits(Abs(v) / MicroPerDegree);
    if v >= 0 {
      assert Fixed6(v)[0] == d[0];
    }
  }

  lemma DivModDetermines(x: nat, y: nat, m: nat)
    requires m > 0 && x / m == y / m && x % m == y % m
    ensures x == y
  {
    assert x == (x / m) * m + x % m;
    assert y == (y / m) * m + y % m;
  }

  lemma SplitEqual(sign: string, da: string, pa: string, db: string, pb: string)
    requires |pa| == 6 && |pb| == 6
    requires sign + da + "." + pa == sign + db + "." + pb
    ensures da == db && pa == pb
  {
    var s := sign + da + "." + pa;
    var t := sign + db + "." + pb;
    assert |da| == |db|;
    assert pa == s[|s| - 6..] && pb == t[|t| - 6..];
    assert da == s[|sign|..|sign| + |da|] && db == t[|sign|..|sign| + |db|];
  }

  /** The last two printed decimals are "00" exactly when the micro-degree value
      is a multiple of 100 (zero included). */
  lemma EndsInDoubleZero(v: int)
    ensures LastTwo(Fixed6(v)) == "00" <==> Abs(v) % 100 == 0
  {
    var n := Abs(v) % MicroPerDegree;
    var s := Fixed6(v);
    var p := PadDigits(n, 6);
    assert LastTwo(s) == p[4..];
    var p4 := PadDigits(n / 10, 5);
    assert p == p4 + [DigitChar(n % 10)];
    assert p4 == PadDigits(n / 100, 4) + [DigitChar((n / 10) % 10)];
    assert p[4..] == [DigitChar((n / 10) % 10), DigitChar(n % 10)];
    DigitRoundTrip((n / 10) % 10);
    DigitRoundTrip(n % 10);
    assert p[4..] == "00" <==> (n / 10) % 10 == 0 && n % 10 == 0;
    LastTwoDigits(n);
    MicroMod100(Abs(v));
  }

  lemma LastTwoDigits(n: nat)
    ensures ((n / 10) % 10 == 0 && n % 10 == 0) <==> n % 100 == 0
  {
    var q := n / 100;
    var r := n % 100;
    assert n == q * 100 + r;
    assert n / 10 == q * 10 + r / 10;
    assert (n / 10) % 10 == r / 10;
    assert n % 10 == r % 10;
  }

  lemma MicroMod100(x: nat)
    ensures (x % MicroPerDegree) % 100 == x % 100
  {
    var q := x / MicroPerDegree;
    var r := x % MicroPerDegree;
    assert x == q * MicroPerDegree + r;
    assert x == (q * 10000) * 100 + r;
    ModUnique(x, 100, q * 10000 + r / 100, r % 100);
  }
}
