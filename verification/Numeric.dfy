/** Numbers of several words with a floating exponent: addition and multiplication of nonnegative ones. */
module Numeric {
  import opened Arithmetic

  const BASE := 65536

  type Digit = n: nat | n < 65536

  function PowB(n: nat): (p: nat)
    ensures p > 0
  {
    if n == 0 then 1 else BASE * PowB(n - 1)
  }

  /** The digits as a whole number, the most significant one first. */
  function Num(s: seq<Digit>): nat {
    if s == [] then 0 else Num(s[..|s| - 1]) * BASE + s[|s| - 1]
  }

  /** The exponent of the last digit. */
  function Last(exponent: int, s: seq<Digit>): int {
    exponent - |s| + 1
  }

  /** The value, in units of 65536^b: the sum of digits[i] * 65536^(exponent - i - b). */
  function Value(exponent: int, s: seq<Digit>, b: int): nat
    requires b <= Last(exponent, s)
  {
    Num(s) * PowB(Last(exponent, s) - b)
  }

  lemma {:induction false} PowBAdd(m: nat, n: nat)
    ensures PowB(m + n) == PowB(m) * PowB(n)
    decreases m
  {
    if m > 0 {
      PowBAdd(m - 1, n);
      Assoc(BASE, PowB(m - 1), PowB(n));
    }
  }

  lemma Assoc(a: int, b: int, c: int)
    ensures a * b * c == a * (b * c)
  {
  }

  lemma Distribute(a: int, b: int, p: int)
    ensures (a + b) * p == a * p + b * p
  {
  }

  lemma {:induction false} NumAppend(s: seq<Digit>, t: seq<Digit>)
    ensures Num(s + t) == Num(s) * PowB(|t|) + Num(t)
    decreases |t|
  {
    if t == [] {
      assert s + t == s;
    } else {
      var n, d := |t| - 1, t[|t| - 1];
      assert (s + t)[..|s + t| - 1] == s + t[..n];
      NumAppend(s, t[..n]);
      Distribute(Num(s) * PowB(n), Num(t[..n]), BASE);
      Assoc(Num(s), PowB(n), BASE);
    }
  }

  function Zeros(n: nat): (s: seq<Digit>)
    ensures |s| == n && forall k :: 0 <= k < n ==> s[k] == 0
  {
    seq(n, _ => 0)
  }

  lemma {:induction false} NumZeros(s: seq<Digit>)
    requires forall k :: 0 <= k < |s| ==> s[k] == 0
    ensures Num(s) == 0
  {
    if s != [] { NumZeros(s[..|s| - 1]); }
  }

  /** Changing one digit. */
  lemma NumUpdate(s: seq<Digit>, k: nat, v: Digit)
    requires k < |s|
    ensures Num(s[k := v]) == Num(s) + (v - s[k]) * PowB(|s| - 1 - k)
  {
    hide Num, PowB;
    var t := s[k + 1..];
    assert s == s[..k] + [s[k]] + t && s[k := v] == s[..k] + [v] + t;
    NumAppend(s[..k] + [s[k]], t);
    NumAppend(s[..k] + [v], t);
    NumSnoc(s[..k], s[k]);
    NumSnoc(s[..k], v);
    Distribute(Num(s[..k]) * BASE + s[k], v - s[k], PowB(|t|));
  }

  lemma NumSnoc(s: seq<Digit>, d: Digit)
    ensures Num(s + [d]) == Num(s) * BASE + d
  {
    assert (s + [d])[..|s|] == s;
  }

  /** A digit in front. */
  lemma NumCons(d: Digit, t: seq<Digit>)
    ensures Num([d] + t) == d * PowB(|t|) + Num(t)
  {
    hide Num, PowB;
    NumAppend([d], t);
    NumOne(d);
  }

  lemma NumOne(d: Digit)
    ensures Num([d]) == d
  {
    NumSnoc([], d);
    assert [] + [d] == [d];
  }

  function DigitSum(a: nat, b: nat, carry: bool): nat {
    a + b + if carry then 1 else 0
  }

  /** The product of two digits, as a number of 32 bits. */
  function DigitProduct(a: nat, b: nat): nat {
    a * b
  }

  /** A digit is replaced by t modulo the base: what is missing is a carry to the place before it. */
  lemma Carry(s: seq<Digit>, k: nat, t: nat)
    requires k < |s| && t < 2 * BASE
    ensures Num(s[k := t % BASE]) + (if t >= BASE then PowB(|s| - k) else 0) == Num(s) + (t - s[k]) * PowB(|s| - 1 - k)
  {
    hide Num, PowB;
    NumUpdate(s, k, t % BASE);
    PowBNext(|s| - 1 - k);
    if t >= BASE {
      Distribute(t - BASE - s[k], BASE, PowB(|s| - 1 - k));
    }
  }

  lemma PowBNext(n: nat)
    ensures PowB(n + 1) == BASE * PowB(n)
  {
  }

  /** An overflow of all the digits becomes a digit of its own. */
  lemma NewDigit(exponent: int, s: seq<Digit>, b: int, total: nat)
    requires b <= Last(exponent, s) && Num(s) + PowB(|s|) == total
    ensures Last(exponent + 1, [1] + s) == Last(exponent, s) && Num([1] + s) == total
  {
    NumCons(1, s);
  }

  /** Zeros in front change nothing, and zeros at the end move the last exponent. */
  lemma PaddedValue(exponent: int, s: seq<Digit>, m: nat, n: nat, b: int)
    requires b <= Last(exponent, s) - n
    ensures Value(exponent + m, Zeros(m) + s + Zeros(n), b) == Value(exponent, s, b)
  {
    hide PowB;
    NumZeros(Zeros(m));
    NumZeros(Zeros(n));
    NumAppend(Zeros(m), s);
    NumAppend(Zeros(m) + s, Zeros(n));
    PowBAdd(n, Last(exponent, s) - n - b);
    Assoc(Num(s), PowB(n), PowB(Last(exponent, s) - n - b));
  }

  class Digital {
    var exponent: int
    var digits: seq<Digit>

    constructor (e: int, d: seq<Digit>)
      ensures exponent == e && digits == d
    {
      exponent, digits := e, d;
    }

    /** `pad`: room for the exponents from e down to end. */
    method Pad(e: int, end: int, ghost b: int)
      requires end <= e + 1 && b <= Last(exponent, digits) && b <= end
      modifies this
      ensures exponent == Max(old(exponent), e) && b <= Last(exponent, digits) <= end
      ensures Value(exponent, digits, b) == old(Value(exponent, digits, b))
      ensures Last(exponent, digits) ==
        if Last(old(exponent), old(digits)) < end then Last(old(exponent), old(digits)) else end
      ensures old(exponent) >= e && Last(old(exponent), old(digits)) <= end ==> digits == old(digits)
    {
      hide Num, PowB;
      ghost var was, from := digits, exponent;
      ghost var m, n := 0, 0;
      if exponent < e {
        m := e - exponent;
        digits := Zeros(e - exponent) + digits;
        exponent := e;
      }
      var offset := exponent - end + 1;
      if offset > |digits| {
        n := offset - |digits|;
        digits := digits + Zeros(offset - |digits|);
      }
      assert digits == Zeros(m) + was + Zeros(n);
      PaddedValue(from, was, m, n, b);
    }

    /** `trim`: no zeros at either end, but at least one digit. */
    method Trim(ghost b: int)
      requires digits != [] && b <= Last(exponent, digits)
      modifies this
      ensures digits != [] && b <= Last(exponent, digits)
      ensures |digits| == 1 || (digits[0] != 0 && digits[|digits| - 1] != 0)
      ensures Value(exponent, digits, b) == old(Value(exponent, digits, b))
    {
      hide Num, PowB;
      ghost var was, from := digits, exponent;
      var i := 0;
      while |digits| - i > 1 && digits[i] == 0
        invariant 0 <= i < |digits| && forall k :: 0 <= k < i ==> digits[k] == 0
      {
        i := i + 1;
      }
      exponent, digits := exponent - i, digits[i..];
      var j := |digits| - 1;
      while j > 0 && digits[j] == 0
        invariant 0 <= j < |digits| && forall k :: j < k < |digits| ==> digits[k] == 0
      {
        j := j - 1;
      }
      ghost var n := |digits| - 1 - j;
      digits := digits[..j + 1];
      assert was[i..][j + 1..] == Zeros(n);
      assert was[..i] == Zeros(i);
      assert was == Zeros(i) + digits + Zeros(n);
      PaddedValue(exponent, digits, i, n, b);
    }

    /** The carry moves towards the most significant digit while digits overflow, and becomes a new one if all did. */
    method Ripple(carry: bool, from: int, ghost b: int, ghost total: nat)
      requires -1 <= from < |digits| && b <= Last(exponent, digits)
      requires Num(digits) + (if carry then PowB(|digits| - 1 - from) else 0) == total
      modifies this
      ensures b <= Last(exponent, digits) == old(Last(exponent, digits)) && |digits| >= |old(digits)|
      ensures Num(digits) == total
    {
      hide Num, PowB;
      var c, k := carry, from;
      while c && k >= 0
        invariant -1 <= k < |digits| == |old(digits)| && exponent == old(exponent)
        invariant Num(digits) + (if c then PowB(|digits| - 1 - k) else 0) == total
        decreases k
      {
        var next := DigitSum(digits[k], 0, true);
        Carry(digits, k, next);
        digits := digits[k := next % BASE];
        c := digits[k] == 0;
        k := k - 1;
      }
      if c {
        NewDigit(exponent, digits, b, total);
        exponent := exponent + 1;
        digits := [1] + digits;
      }
    }

    /** `add`: a digit at exponent e. */
    method Add(x: Digit, e: int, doTrim: bool, ghost b: int)
      requires b <= Last(exponent, digits) && b <= e
      modifies this
      ensures digits != [] && b <= Last(exponent, digits)
      ensures Value(exponent, digits, b) == old(Value(exponent, digits, b)) + x * PowB(e - b)
      ensures doTrim ==> |digits| == 1 || (digits[0] != 0 && digits[|digits| - 1] != 0)
    {
      hide Num, PowB;
      Pad(e, e, b);
      ghost var was, padded := digits, exponent;
      var i := exponent - e;
      var sum := DigitSum(digits[i], x, false);
      Carry(digits, i, sum);
      digits := digits[i := sum % BASE];
      Ripple(digits[i] < x, i - 1, b, Num(was) + x * PowB(|was| - 1 - i));
      Raised(padded, was, exponent, digits, x, |was| - 1 - i, b);
      if doTrim {
        Trim(b);
      }
    }

    /** The loop over the digits of the other number, from the last one on. */
    method AddDigits(other: Digital, ghost low: nat) returns (carry: bool, k: int)
      requires other.digits != [] && |other.digits| + low <= |digits|
      requires low == |digits| - 1 - (exponent - other.exponent + |other.digits| - 1) && (other == this ==> low == 0)
      modifies this`digits
      ensures |digits| == |old(digits)| && k == |digits| - 1 - low - |old(other.digits)|
      ensures other != this ==> Added(digits, old(digits), other.digits, -1, k, low, carry)
      ensures other == this ==> !carry && digits == Doubled(old(digits))
    {
      hide Num, PowB, Doubled, Added, DoubledFrom;
      ghost var was, m := digits, |other.digits|;
      k := exponent - other.exponent + |other.digits| - 1;
      var j := |other.digits| - 1;
      carry := false;
      NoneAdded(was, other.digits, low);
      NoneDoubled(was);
      while j >= 0
        invariant -1 <= j < m == |other.digits| && k == j + (|was| - low - m) && |digits| == |was|
        invariant other != this ==> Added(digits, was, other.digits, j, k, low, carry)
        invariant other == this ==> !carry && k == j && DoubledFrom(digits, was, j)
      {
        ghost var before := digits;
        var sum := DigitSum(digits[k], other.digits[j], carry);
        if other != this {
          AddedNext(before, was, other.digits, j, k, low, carry, sum);
        } else {
          DoubledNext(before, was, j);
        }
        digits := digits[k := sum % BASE];
        carry := if carry then digits[k] <= other.digits[j] else digits[k] < other.digits[j];
        j, k := j - 1, k - 1;
      }
      if other == this { AllDoubled(digits, was); }
    }

    /** `operator+=`. A number that is added to itself loses every carry, since each digit is compared with itself. */
    method AddTo(other: Digital, ghost b: int)
      requires digits != [] && other.digits != [] && b <= Last(exponent, digits) &&
        b <= Last(other.exponent, other.digits)
      modifies this
      ensures digits != [] && b <= Last(exponent, digits)
      ensures |digits| == 1 || (digits[0] != 0 && digits[|digits| - 1] != 0)
      ensures other != this ==>
        Value(exponent, digits, b) == old(Value(exponent, digits, b)) + Value(other.exponent, other.digits, b)
      ensures other == this ==> Value(exponent, digits, b) == Value(old(exponent), Doubled(old(digits)), b)
    {
      hide Num, PowB, Doubled, Added;
      Pad(other.exponent, other.exponent - |other.digits| + 1, b);
      ghost var was, padded := digits, exponent;
      ghost var low := Last(other.exponent, other.digits) - Last(exponent, digits);
      var carry, k := AddDigits(other, low);
      if other != this { AllAdded(digits, was, other.digits, k, low, carry); }
      Ripple(carry, k, b, if other == this then Num(digits) else Num(was) + Num(other.digits) * PowB(low));
      if other != this { Raised(padded, was, exponent, digits, Num(other.digits), low, b); }
      Trim(b);
    }

    /** `operator*` of nonnegative numbers: the sum of all products of two digits, each added as two digits. */
    method Times(other: Digital) returns (res: Digital)
      requires digits != [] && other.digits != []
      ensures fresh(res) && res.digits != [] && (|res.digits| == 1 ||
        (res.digits[0] != 0 && res.digits[|res.digits| - 1] != 0))
      ensures Last(exponent, digits) + Last(other.exponent, other.digits) <= Last(res.exponent, res.digits)
      ensures Value(res.exponent, res.digits, Last(exponent, digits) + Last(other.exponent, other.digits)) ==
        Num(digits) * Num(other.digits)
    {
      hide Num, PowB, Partial;
      ghost var b, m, n := Last(exponent, digits) + Last(other.exponent, other.digits), |digits|, |other.digits|;
      res := new Digital(exponent + other.exponent, []);
      NoProduct(exponent + other.exponent, digits, other.digits, b);
      for i := 0 to |digits|
        invariant fresh(res) && b <= Last(res.exponent, res.digits) && (i > 0 ==> res.digits != [])
        invariant Value(res.exponent, res.digits, b) == Partial(digits, other.digits, i, 0)
      {
        var e1 := exponent - i;
        for j := 0 to |other.digits|
          invariant fresh(res) && b <= Last(res.exponent, res.digits) && (i + j > 0 ==> res.digits != [])
          invariant Value(res.exponent, res.digits, b) == Partial(digits, other.digits, i, j)
        {
          var e2 := e1 + other.exponent - j;
          var mul := DigitProduct(digits[i], other.digits[j]);
          PartialNext(digits, other.digits, i, j, mul, e2 - b);
          res.Add(mul / BASE, e2 + 1, false, b);
          res.Add(mul % BASE, e2, false, b);
        }
        PartialRow(digits, other.digits, i);
      }
      WholeProduct(digits, other.digits);
      res.Trim(b);
    }
  }

  /** The products of the first i digits of s with all of t, and of digit i with the first j of t. */
  ghost function Partial(s: seq<Digit>, t: seq<Digit>, i: nat, j: nat): int
    requires i <= |s| && j <= |t|
  {
    Num(s[..i]) * PowB(|s| - i) * Num(t) +
      if i < |s| then s[i] * PowB(|s| - 1 - i) * (Num(t[..j]) * PowB(|t| - j)) else 0
  }

  lemma NoProduct(e: int, s: seq<Digit>, t: seq<Digit>, b: int)
    requires b <= Last(e, [])
    ensures Value(e, [], b) == 0 == Partial(s, t, 0, 0)
  {
  }

  lemma PartialNext(s: seq<Digit>, t: seq<Digit>, i: nat, j: nat, mul: nat, k: int)
    requires i < |s| && j < |t| && mul == DigitProduct(s[i], t[j]) && k == (|s| - 1 - i) + (|t| - 1 - j)
    ensures mul / BASE < BASE
    ensures Partial(s, t, i, j + 1) == Partial(s, t, i, j) + mul / BASE * PowB(k + 1) + mul % BASE * PowB(k)
  {
    hide Num;
    var p, q := PowB(|s| - 1 - i), PowB(|t| - 1 - j);
    ProductBound(s[i], t[j]);
    assert t[..j + 1] == t[..j] + [t[j]];
    NumSnoc(t[..j], t[j]);
    PowBAdd(|s| - 1 - i, |t| - 1 - j);
    TwoDigits(mul, PowB(k));
    NextPartial(s[i], p, q, Num(t[..j]), t[j]);
  }

  lemma ProductBound(a: Digit, b: Digit)
    ensures a * b / BASE < BASE
  {
    MulMonotone(a, BASE - 1, b);
  }

  lemma TwoDigits(mul: nat, p: nat)
    ensures mul / BASE * (BASE * p) + mul % BASE * p == mul * p
  {
    Distribute(mul / BASE * BASE, mul % BASE, p);
    Assoc(mul / BASE, BASE, p);
  }

  lemma NextPartial(a: nat, p: nat, q: nat, n: nat, d: nat)
    ensures a * p * ((n * BASE + d) * q) == a * p * (n * (BASE * q)) + a * d * (p * q)
  {
    Distribute(n * BASE, d, q);
    Assoc(n, BASE, q);
    assert a * p * (n * (BASE * q) + d * q) == a * p * (n * (BASE * q)) + a * p * (d * q);
    assert a * p * (d * q) == a * d * (p * q) by {
      Assoc(a * p, d, q);
      Assoc(a * d, p, q);
      Assoc(a, p, d);
      Assoc(a, d, p);
    }
  }

  /** A digit of s has been multiplied with all of t. */
  lemma PartialRow(s: seq<Digit>, t: seq<Digit>, i: nat)
    requires i < |s|
    ensures Partial(s, t, i, |t|) == Partial(s, t, i + 1, 0)
  {
    var p := PowB(|s| - 1 - i);
    assert t[..|t|] == t && t[..0] == [];
    assert s[..i + 1] == s[..i] + [s[i]];
    NumSnoc(s[..i], s[i]);
    RowProduct(Num(s[..i]), s[i], p, Num(t));
  }

  lemma RowProduct(n: nat, d: nat, p: nat, t: nat)
    ensures n * (BASE * p) * t + d * p * (t * 1) == (n * BASE + d) * p * t
  {
    Distribute(n * BASE, d, p);
    Assoc(n, BASE, p);
    Distribute(n * (BASE * p), d * p, t);
  }

  lemma WholeProduct(s: seq<Digit>, t: seq<Digit>)
    ensures Partial(s, t, |s|, 0) == Num(s) * Num(t)
  {
    assert s[..|s|] == s;
  }

  /** The digits of o from j + 1 on have been added, the last of them at the place before the last low places. */
  ghost predicate Added(d: seq<Digit>, was: seq<Digit>, o: seq<Digit>, j: int, k: int, low: nat, carry: bool) {
    -1 <= j < |o| && -1 <= k < |d| && Num(d) + (if carry then PowB(|d| - 1 - k) else 0) ==
      Num(was) + Num(o[j + 1..]) * PowB(low)
  }

  lemma NoneAdded(was: seq<Digit>, o: seq<Digit>, low: int)
    requires 0 <= low < |was|
    ensures Added(was, was, o, |o| - 1, |was| - 1 - low, low, false)
  {
    assert o[|o|..] == [];
  }

  lemma AllAdded(d: seq<Digit>, was: seq<Digit>, o: seq<Digit>, k: int, low: nat, carry: bool)
    requires Added(d, was, o, -1, k, low, carry)
    ensures Num(d) + (if carry then PowB(|d| - 1 - k) else 0) == Num(was) + Num(o) * PowB(low)
  {
    assert o[0..] == o;
  }

  lemma AddedNext(d: seq<Digit>, was: seq<Digit>, o: seq<Digit>, j: int, k: int, low: nat, carry: bool, sum: nat)
    requires Added(d, was, o, j, k, low, carry) && 0 <= j && 0 <= k == j + (|d| - low - |o|)
    requires sum == DigitSum(d[k], o[j], carry)
    ensures Added(d[k := sum % BASE], was, o, j - 1, k - 1, low, sum >= BASE)
    ensures sum >= BASE <==> if carry then sum % BASE <= o[j] else sum % BASE < o[j]
  {
    hide Num, PowB;
    var w := PowB(|d| - 1 - k);
    Carry(d, k, sum);
    assert o[j..] == [o[j]] + o[j + 1..];
    NumCons(o[j], o[j + 1..]);
    Distribute(o[j] * PowB(|o| - 1 - j), Num(o[j + 1..]), PowB(low));
    Assoc(o[j], PowB(|o| - 1 - j), PowB(low));
    PowBAdd(|o| - 1 - j, low);
    Distribute(o[j], if carry then 1 else 0, w);
  }

  /** The digits after j have been doubled. */
  ghost predicate DoubledFrom(d: seq<Digit>, was: seq<Digit>, j: int) {
    -1 <= j < |was| && d == was[..j + 1] + Doubled(was)[j + 1..]
  }

  lemma NoneDoubled(was: seq<Digit>)
    ensures DoubledFrom(was, was, |was| - 1)
  {
    assert was[..|was|] + Doubled(was)[|was|..] == was;
  }

  lemma AllDoubled(d: seq<Digit>, was: seq<Digit>)
    requires DoubledFrom(d, was, -1)
    ensures d == Doubled(was)
  {
    assert was[..0] + Doubled(was)[0..] == Doubled(was);
  }

  lemma DoubledNext(d: seq<Digit>, was: seq<Digit>, j: nat)
    requires DoubledFrom(d, was, j)
    ensures |d| == |was| && DoubledFrom(d[j := DigitSum(d[j], d[j], false) % BASE], was, j - 1)
  {
    assert d[j := 2 * was[j] % BASE] == was[..j] + Doubled(was)[j..];
  }

  lemma Raised(e: int, s: seq<Digit>, e': int, s': seq<Digit>, x: nat, k: nat, b: int)
    requires b <= Last(e, s) == Last(e', s') && Num(s') == Num(s) + x * PowB(k)
    ensures Value(e', s', b) == Value(e, s, b) + x * PowB(k + (Last(e, s) - b))
  {
    hide Num, PowB;
    var n := Last(e, s) - b;
    Distribute(Num(s), x * PowB(k), PowB(n));
    Assoc(x, PowB(k), PowB(n));
    PowBAdd(k, n);
  }

  /** Every digit doubled, without carries. */
  function Doubled(s: seq<Digit>): (d: seq<Digit>)
    ensures |d| == |s| && forall k :: 0 <= k < |s| ==> d[k] == 2 * s[k] % BASE
  {
    seq(|s|, k requires 0 <= k < |s| => 2 * s[k] % BASE)
  }

  /** Doubling without carries is right exactly when no digit is in the upper half. */
  lemma {:induction false} DoubledValue(s: seq<Digit>)
    ensures Num(Doubled(s)) <= 2 * Num(s)
    ensures Num(Doubled(s)) == 2 * Num(s) <==> forall k :: 0 <= k < |s| ==> s[k] < BASE / 2
  {
    if s != [] {
      var t := s[..|s| - 1];
      assert Doubled(s)[..|s| - 1] == Doubled(t);
      DoubledValue(t);
    }
  }

  /** A digit in the upper half: 0x8000 added to itself becomes 0. */
  lemma DoubleHalf()
    ensures Num(Doubled([0x8000])) == 0 < Num([0x8000]) == 0x8000
  {
    assert Doubled([0x8000]) == [0];
  }
}
