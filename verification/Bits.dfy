/** Numbers as sequences of bits, least significant bit first (section 3.1.1 of RFC 1951),
    and the bitwise operations of C on nonnegative numbers. */
module Bits {
  import opened Arithmetic

  /** The k lowest bits of n, the lowest one first. */
  function Low(n: nat, k: nat): (s: seq<bool>)
    ensures |s| == k
  {
    if k == 0 then [] else [n % 2 == 1] + Low(n / 2, k - 1)
  }

  /** The number whose bits, the lowest one first, are s. */
  function Value(s: seq<bool>): (n: nat)
    ensures n < Pow2(|s|)
  {
    if s == [] then 0 else (if s[0] then 1 else 0) + 2 * Value(s[1..])
  }

  function Reverse<T>(s: seq<T>): (r: seq<T>)
    ensures |r| == |s|
    ensures forall i :: 0 <= i < |s| ==> r[i] == s[|s| - 1 - i]
  {
    if s == [] then [] else Reverse(s[1..]) + [s[0]]
  }

  /** The bits of n, the highest of the k first: the way a Huffman code is packed (section 3.1.1 of RFC 1951). */
  function High(n: nat, k: nat): (s: seq<bool>)
    ensures |s| == k
  {
    Reverse(Low(n, k))
  }

  lemma {:induction false} ValueLow(n: nat, k: nat)
    ensures Value(Low(n, k)) == Mask(n, k)
    decreases k
  {
    if k > 0 {
      ValueLow(n / 2, k - 1);
      assert Low(n, k)[1..] == Low(n / 2, k - 1);
      HalfRemainder(n, Pow2(k - 1));
    }
  }

  lemma HalfRemainder(n: nat, p: nat)
    requires p > 0
    ensures n % (2 * p) == n % 2 + 2 * (n / 2 % p) && n / (2 * p) == n / 2 / p
  {
    var q, r := n / 2 / p, n / 2 % p;
    assert n / 2 == q * p + r;
    assert q * (2 * p) == 2 * (q * p);
    Digits(q, 2 * r + n % 2, 2 * p);
  }

  lemma {:induction false} LowValue(s: seq<bool>)
    ensures Low(Value(s), |s|) == s
  {
    if s != [] {
      LowValue(s[1..]);
      assert s == [s[0]] + s[1..];
    }
  }

  /** Two numbers below 2^k with the same k bits are equal. */
  lemma LowInjective(a: nat, b: nat, k: nat)
    requires a < Pow2(k) && b < Pow2(k) && Low(a, k) == Low(b, k)
    ensures a == b
  {
    ValueLow(a, k);
    ValueLow(b, k);
  }

  lemma TimesTwice(b: nat, p: nat)
    ensures b * (2 * p) == 2 * (b * p)
  {
  }

  /** Appending b above the k bits of a. */
  lemma {:induction false} LowAppend(a: nat, k: nat, b: nat, m: nat)
    requires a < Pow2(k)
    ensures Low(a + b * Pow2(k), k + m) == Low(a, k) + Low(b, m)
    decreases k
  {
    if k > 0 {
      var p := Pow2(k - 1);
      LowAppend(a / 2, k - 1, b, m);
      var n := a + b * Pow2(k);
      TimesTwice(b, p);
      assert n % 2 == a % 2 && n / 2 == a / 2 + b * p;
      assert Low(n, k + m) == [n % 2 == 1] + Low(n / 2, k - 1 + m);
    } else {
      assert a == 0;
    }
  }

  /** Reading the lowest k bits off a number. */
  lemma LowSplit(n: nat, k: nat, m: nat)
    ensures Low(n, k + m) == Low(Mask(n, k), k) + Low(ShiftRight(n, k), m)
  {
    LowAppend(Mask(n, k), k, ShiftRight(n, k), m);
  }

  // ---------- Bytes ----------

  type Byte = n: nat | n < 256

  /** The bits of a sequence of bytes, each byte from its least significant bit on (section 3.1.1 of RFC 1951). */
  function ByteBits(s: seq<Byte>): (b: seq<bool>)
    ensures |b| == 8 * |s|
  {
    if s == [] then [] else Low(s[0], 8) + ByteBits(s[1..])
  }

  // ---------- Bitwise operations ----------

  function And(a: nat, b: nat): nat {
    if a == 0 || b == 0 then 0 else a % 2 * (b % 2) + 2 * And(a / 2, b / 2)
  }

  function Or(a: nat, b: nat): nat
    decreases a + b
  {
    if a == 0 then b else if b == 0 then a
    else Max(a % 2, b % 2) + 2 * Or(a / 2, b / 2)
  }

  function Xor(a: nat, b: nat): nat
    decreases a + b
  {
    if a == 0 then b else if b == 0 then a
    else (a % 2 + b % 2) % 2 + 2 * Xor(a / 2, b / 2)
  }

  lemma XorOdd(a: nat, b: nat)
    ensures Xor(a, 2 * b + 1) == 1 - a % 2 + 2 * Xor(a / 2, b)
  {
    assert (2 * b + 1) / 2 == b && (2 * b + 1) % 2 == 1;
  }

  /** Exclusive or with k ones complements the k lowest bits. */
  lemma {:induction false} Complement(a: nat, k: nat)
    requires a < Pow2(k)
    ensures Xor(a, Pow2(k) - 1) == Pow2(k) - 1 - a
    decreases k
  {
    if k > 0 {
      var p := Pow2(k - 1);
      assert Pow2(k) == 2 * p;
      hide Pow2;
      Complement(a / 2, k - 1);
      XorOdd(a, p - 1);
    }
  }

  /** And with k ones keeps the k lowest bits. */
  lemma {:induction false} AndOnes(a: nat, k: nat)
    ensures And(a, Pow2(k) - 1) == Mask(a, k)
    decreases k
  {
    if k > 0 && a > 0 {
      var p := Pow2(k - 1);
      AndOnes(a / 2, k - 1);
      assert (2 * p - 1) % 2 == 1 && (2 * p - 1) / 2 == p - 1;
      HalfRemainder(a, p);
    }
  }

  /** And with a power of two tells one bit. */
  lemma {:induction false} AndPower(a: nat, k: nat)
    ensures And(a, Pow2(k)) == a / Pow2(k) % 2 * Pow2(k)
    decreases k
  {
    if k > 0 {
      hide And;
      var p := Pow2(k - 1);
      AndPower(a / 2, k - 1);
      AndEven(a, p);
      HalfRemainder(a, p);
      TimesTwice(a / (2 * p) % 2, p);
    } else {
      AndOne(a);
    }
  }

  lemma AndEven(a: nat, b: nat)
    ensures And(a, 2 * b) == 2 * And(a / 2, b)
  {
    assert 2 * b / 2 == b && 2 * b % 2 == 0;
  }

  lemma AndOne(a: nat)
    ensures And(a, 1) == a % 2
  {
    assert And(a / 2, 0) == 0;
  }

  lemma {:induction false} OrDisjoint(a: nat, h: nat, b: nat, k: nat)
    requires a < Pow2(k) && h == b * Pow2(k)
    ensures Or(a, h) == a + h
    decreases k
  {
    if k > 0 {
      var p := Pow2(k - 1);
      assert Pow2(k) == 2 * p;
      TimesTwice(b, p);
      hide Or, Pow2;
      OrDisjoint(a / 2, h / 2, b, k - 1);
      OrEven(a, h);
    }
  }

  lemma OrEven(a: nat, h: nat)
    requires h % 2 == 0
    ensures Or(a, h) == a % 2 + 2 * Or(a / 2, h / 2)
  {
  }

  /** Putting a byte on top of n bits. */
  lemma AppendLow(c: nat, n: nat, b: Byte)
    requires c < Pow2(n)
    ensures Or(c, ShiftLeft(b, n)) < Pow2(n + 8)
    ensures Low(Or(c, ShiftLeft(b, n)), n + 8) == Low(c, n) + Low(b, 8)
  {
    OrDisjoint(c, ShiftLeft(b, n), b, n);
    LowAppend(c, n, b, 8);
    Pow2Values();
    Pow2Add(n, 8);
    MulMonotone(b, 255, Pow2(n));
  }

  /** Bit i of n. */
  predicate Bit(n: nat, i: nat) {
    if i == 0 then n % 2 == 1 else Bit(n / 2, i - 1)
  }

  lemma {:induction false} LowBit(n: nat, k: nat, i: nat)
    requires i < k
    ensures Low(n, k)[i] == Bit(n, i)
    decreases k
  {
    if i > 0 { LowBit(n / 2, k - 1, i - 1); }
  }

  lemma {:induction false} BitAnd(a: nat, b: nat, i: nat)
    ensures Bit(And(a, b), i) == (Bit(a, i) && Bit(b, i))
    decreases i
  {
    var c := And(a, b);
    assert c % 2 == a % 2 * (b % 2) && c / 2 == And(a / 2, b / 2);
    if i > 0 { BitAnd(a / 2, b / 2, i - 1); }
  }

  lemma {:induction false} BitOr(a: nat, b: nat, i: nat)
    ensures Bit(Or(a, b), i) == (Bit(a, i) || Bit(b, i))
    decreases i
  {
    var c := Or(a, b);
    assert c % 2 == Max(a % 2, b % 2) && c / 2 == Or(a / 2, b / 2);
    if i > 0 { BitOr(a / 2, b / 2, i - 1); }
  }

  lemma BitShiftRight(n: nat, k: nat, i: nat)
    ensures Bit(ShiftRight(n, k), i) == Bit(n, i + k)
  {
    hide Bit, Low, ShiftRight, Pow2;
    LowSplit(n, k, i + 1);
    LowBit(ShiftRight(n, k), i + 1, i);
    LowBit(n, k + (i + 1), i + k);
    assert Low(n, k + (i + 1))[i + k] == Low(ShiftRight(n, k), i + 1)[i];
  }

  lemma BitShiftLeft(n: nat, k: nat, i: nat)
    ensures Bit(ShiftLeft(n, k), i) == (i >= k && Bit(n, i - k))
  {
    LowAppend(0, k, n, i + 1);
    LowBit(ShiftLeft(n, k), k + (i + 1), i);
    if i >= k {
      LowBit(n, i + 1, i - k);
    } else {
      LowBit(0, k, i);
      ZeroBit(i);
    }
  }

  lemma {:induction false} ZeroBit(i: nat)
    ensures !Bit(0, i)
  {
    if i > 0 { ZeroBit(i - 1); }
  }

  /** A number below 2^k has no bits from k on. */
  lemma {:induction false} HighBitsZero(n: nat, k: nat, i: nat)
    requires n < Pow2(k) && i >= k
    ensures !Bit(n, i)
    decreases k
  {
    if k == 0 { ZeroBit(i); } else { HighBitsZero(n / 2, k - 1, i - 1); }
  }

  /** A number without bits from k on is below 2^k. */
  lemma {:induction false} BoundedByBits(n: nat, k: nat)
    requires forall i :: i >= k ==> !Bit(n, i)
    ensures n < Pow2(k)
    decreases k, n
  {
    if k > 0 || n > 0 {
      forall i: nat | i >= k - 1 ensures !Bit(n / 2, i) {
        assert !Bit(n, i + 1);
      }
      if k > 0 {
        BoundedByBits(n / 2, k - 1);
      } else {
        assert !Bit(n, 0);
        BoundedByBits(n / 2, 0);
      }
    }
  }

  lemma SameBits(a: nat, b: nat, k: nat)
    requires a < Pow2(k) && b < Pow2(k) && forall i :: 0 <= i < k ==> Bit(a, i) == Bit(b, i)
    ensures a == b
  {
    forall i | 0 <= i < k ensures Low(a, k)[i] == Low(b, k)[i] {
      LowBit(a, k, i);
      LowBit(b, k, i);
    }
    LowInjective(a, b, k);
  }
}
