/** The constant tables of the decoder, and that they are those of RFC 1951. */
module DeflateTables {
  import opened Arithmetic
  import opened CanonicalCode
  import opened Deflate

  const LENGTH_BASE: seq<nat> :=
    [3, 4, 5, 6, 7, 8, 9, 10, 11, 13, 15, 17, 19, 23, 27, 31, 35, 43, 51, 59, 67, 83, 99, 115, 131, 163, 195, 227, 258,
      0, 0]

  const LENGTH_EXTRA: seq<nat> :=
    [0, 0, 0, 0, 0, 0, 0, 0, 1, 1, 1, 1, 2, 2, 2, 2, 3, 3, 3, 3, 4, 4, 4, 4, 5, 5, 5, 5, 0, 0, 0]

  const DISTANCE_BASE: seq<nat> :=
    [1, 2, 3, 4, 5, 7, 9, 13, 17, 25, 33, 49, 65, 97, 129, 193, 257, 385, 513, 769, 1025, 1537, 2049, 3073, 4097, 6145,
     8193, 12289, 16385, 24577, 0, 0]

  const DISTANCE_EXTRA: seq<nat> :=
    [0, 0, 0, 0, 1, 1, 2, 2, 3, 3, 4, 4, 5, 5, 6, 6, 7, 7, 8, 8, 9, 9, 10, 10, 11, 11, 12, 12, 13, 13]

  const ORDER: seq<nat> := [16, 17, 18, 0, 8, 7, 9, 6, 10, 5, 11, 4, 12, 3, 13, 2, 14, 1, 15]

  /** `stbi__zdefault_length` */
  function DefaultLengths(): Lengths {
    Run(144, 8) + Run(112, 9) + Run(24, 7) + Run(8, 8)
  }

  /** `stbi__zdefault_distance` */
  function DefaultDistances(): Lengths {
    Run(32, 5)
  }

  /** The table of the program has the order of section 3.2.7. */
  lemma OrderTable(i: nat)
    requires i < 19
    ensures ORDER[i] == OrderOf(i)
  {
  }

  /** The tables of the program have the lengths of section 3.2.6. */
  lemma DefaultTables()
    ensures DefaultLengths() == FixedLiterals() && DefaultDistances() == FixedDistances()
  {
  }

  lemma {:induction false} LengthTable(z: nat)
    requires z < 31
    ensures LENGTH_BASE[z] == LengthBase(z)
  {
    if 0 < z < 28 {
      LengthTable(z - 1);
      LengthNext(z);
    }
  }

  lemma LengthNext(z: nat)
    requires 0 < z < 28
    ensures LENGTH_BASE[z] == LENGTH_BASE[z - 1] + Pow2(LengthBits(z - 1))
  {
    LengthStep(z);
    LengthExtraTable(z - 1);
    SmallPower(LENGTH_EXTRA[z - 1]);
  }

  lemma LengthExtraTable(z: nat)
    requires z < 31
    ensures LENGTH_EXTRA[z] == LengthBits(z)
  {
  }

  lemma ShortLengthStep(z: nat)
    requires 0 < z < 16
    ensures LENGTH_EXTRA[z - 1] <= 13 && LENGTH_BASE[z] == LENGTH_BASE[z - 1] + SmallPow2(LENGTH_EXTRA[z - 1])
  {
  }

  lemma LongLengthStep(z: nat)
    requires 16 <= z < 28
    ensures LENGTH_EXTRA[z - 1] <= 13 && LENGTH_BASE[z] == LENGTH_BASE[z - 1] + SmallPow2(LENGTH_EXTRA[z - 1])
  {
  }

  lemma LengthStep(z: nat)
    requires 0 < z < 28
    ensures LENGTH_EXTRA[z - 1] <= 13 && LENGTH_BASE[z] == LENGTH_BASE[z - 1] + SmallPow2(LENGTH_EXTRA[z - 1])
  {
    hide SmallPow2;
    if z < 16 {
      ShortLengthStep(z);
    } else {
      LongLengthStep(z);
    }
  }

  lemma {:induction false} DistanceTable(z: nat)
    requires z < 30
    ensures DISTANCE_BASE[z] == DistanceBase(z)
  {
    if 0 < z {
      DistanceTable(z - 1);
      DistanceNext(z);
    }
  }

  lemma DistanceNext(z: nat)
    requires 0 < z < 30
    ensures DISTANCE_BASE[z] == DISTANCE_BASE[z - 1] + Pow2(DistanceBits(z - 1))
  {
    DistanceStep(z);
    DistanceExtraTable(z - 1);
    SmallPower(DISTANCE_EXTRA[z - 1]);
  }

  lemma DistanceExtraTable(z: nat)
    requires z < 30
    ensures DISTANCE_EXTRA[z] == DistanceBits(z)
  {
  }

  lemma ShortDistanceStep(z: nat)
    requires 0 < z < 16
    ensures DISTANCE_EXTRA[z - 1] <= 13 && DISTANCE_BASE[z] == DISTANCE_BASE[z - 1] + SmallPow2(DISTANCE_EXTRA[z - 1])
  {
  }

  lemma LongDistanceStep(z: nat)
    requires 16 <= z < 30
    ensures DISTANCE_EXTRA[z - 1] <= 13 && DISTANCE_BASE[z] == DISTANCE_BASE[z - 1] + SmallPow2(DISTANCE_EXTRA[z - 1])
  {
  }

  lemma DistanceStep(z: nat)
    requires 0 < z < 30
    ensures DISTANCE_EXTRA[z - 1] <= 13 && DISTANCE_BASE[z] == DISTANCE_BASE[z - 1] + SmallPow2(DISTANCE_EXTRA[z - 1])
  {
    hide SmallPow2;
    if z < 16 {
      ShortDistanceStep(z);
    } else {
      LongDistanceStep(z);
    }
  }

  function SmallPow2(k: nat): nat {
    if k == 0 then 1 else if k == 1 then 2 else if k == 2 then 4 else if k == 3 then 8 else if k == 4 then 16
    else if k == 5 then 32 else if k == 6 then 64 else if k == 7 then 128 else if k == 8 then 256
    else if k == 9 then 512 else if k == 10 then 1024 else if k == 11 then 2048 else if k == 12 then 4096 else 8192
  }

  lemma {:induction false} SmallPower(k: nat)
    requires k <= 13
    ensures Pow2(k) == SmallPow2(k)
  {
    if k > 0 { SmallPower(k - 1); }
  }

  lemma {:induction false} CountRun(n: nat, v: nat, m: nat, s: nat)
    requires m <= n && v < 16
    ensures CountUpTo(Run(n, v), m, s) == if s == v then m else 0
  {
    if m > 0 { CountRun(n, v, m - 1, s); }
  }

  lemma {:induction false} CountConcat(a: Lengths, b: Lengths, n: nat, s: nat)
    requires n <= |b|
    ensures CountUpTo(a + b, |a| + n, s) == Count(a, s) + CountUpTo(b, n, s)
    decreases n
  {
    if n == 0 {
      CountPrefix(a, b, |a|, s);
    } else {
      CountConcat(a, b, n - 1, s);
    }
  }

  lemma {:induction false} CountPrefix(a: Lengths, b: Lengths, n: nat, s: nat)
    requires n <= |a|
    ensures CountUpTo(a + b, n, s) == CountUpTo(a, n, s)
  {
    if n > 0 { CountPrefix(a, b, n - 1, s); }
  }

  /** The code lengths of section 3.2.6 give codes that exist. */
  lemma FixedAccepted()
    ensures |FixedLiterals()| == 288 && |FixedDistances()| == 32
    ensures Accepted(FixedLiterals()) && Accepted(FixedDistances())
  {
    forall s {:trigger EndCode(FixedLiterals(), s)} | 1 <= s < 16 ensures EndCode(FixedLiterals(), s) <= Pow2(s) {
      FixedEnd(s);
    }
    forall s {:trigger EndCode(FixedDistances(), s)} | 1 <= s < 16 ensures EndCode(FixedDistances(), s) <= Pow2(s) {
      FixedDistanceEnd(s);
    }
  }

  lemma FixedCount(s: nat)
    ensures Count(FixedLiterals(), s) == if s == 7 then 24 else if s == 8 then 152 else if s == 9 then 112 else 0
  {
    hide CountUpTo;
    DefaultTables();
    var a, b, c, d := Run(144, 8), Run(112, 9), Run(24, 7), Run(8, 8);
    CountConcat(a + b + c, d, |d|, s);
    CountConcat(a + b, c, |c|, s);
    CountConcat(a, b, |b|, s);
    CountRun(144, 8, 144, s);
    CountRun(112, 9, 112, s);
    CountRun(24, 7, 24, s);
    CountRun(8, 8, 8, s);
  }

  /** The codes of at most 9 bits use up the whole space. */
  lemma {:induction false} FixedEnd(s: nat)
    requires s >= 1
    ensures EndCode(FixedLiterals(), s) == if s < 7 then 0 else if s == 7 then 24 else if s == 8 then 200 else Pow2(s)
  {
    FixedCount(s);
    if s > 1 { FixedEnd(s - 1); }
    Pow2Values();
  }

  lemma {:induction false} FixedDistanceEnd(s: nat)
    requires s >= 1
    ensures EndCode(FixedDistances(), s) == if s < 5 then 0 else Pow2(s)
  {
    CountRun(32, 5, 32, s);
    if s > 1 { FixedDistanceEnd(s - 1); }
    Pow2Values();
  }
}
