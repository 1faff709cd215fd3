/** The bytes that tell which slots of a hash table are in use. */
module ControlBytes {
  import opened Arithmetic
  import opened Bits

  const SENTINEL: Byte := 0x80
  const SLOTS := 16

  type Hash = n: nat | n < 0x1_0000_0000_0000_0000

  /** `do_hash`: the low byte of the result is neither 0 nor the sentinel. */
  function DoHash(h: Hash): (r: Hash)
    ensures Live(Tag(r))
  {
    if h % 256 == 0 || h % 256 == SENTINEL then 0xFFFF_FFFF_FFFF_FFFF - h else h
  }

  /** A hash is used as it is, or, for two values of its low byte, with all its bits inverted. */
  lemma HashBits(h: Hash, i: nat)
    requires i < 64
    ensures Bit(DoHash(h), i) == (Bit(h, i) != (Tag(h) == 0 || Tag(h) == SENTINEL))
  {
    hide Bit;
    Pow2Values();
    Pow2Add(16, 16);
    Pow2Add(32, 32);
    InvertedBit(h, 64, i);
  }

  lemma {:induction false} InvertedBit(n: nat, k: nat, i: nat)
    requires n < Pow2(k) && i < k
    ensures Bit(Pow2(k) - 1 - n, i) == !Bit(n, i)
    decreases k
  {
    var p := Pow2(k - 1);
    assert (2 * p - 1 - n) / 2 == p - 1 - n / 2;
    if i > 0 { InvertedBit(n / 2, k - 1, i - 1); }
  }

  function Tag(h: Hash): Byte {
    h % 256
  }

  /** A control byte of a slot in use. */
  predicate Live(b: Byte) {
    b != 0 && b != SENTINEL
  }

  type Group = s: seq<Byte> | |s| == SLOTS witness [0, 0, 0, 0, 0, 0, 0, 0, 0, 0, 0, 0, 0, 0, 0, 0]

  /** No slot of the group is empty: a search goes on to the next group. */
  predicate NoZero(g: Group) {
    forall c :: 0 <= c < SLOTS ==> g[c] != 0
  }

  /** The first slot that is not in use. */
  function FreeByte(g: seq<Byte>): (c: nat)
    ensures c <= |g| && (forall d :: 0 <= d < c ==> Live(g[d])) && (c < |g| ==> !Live(g[c]))
  {
    if g == [] || !Live(g[0]) then 0 else 1 + FreeByte(g[1..])
  }

  function EmptyGroup(): (g: Group)
    ensures forall c :: 0 <= c < SLOTS ==> g[c] == 0
  {
    seq(SLOTS, _ => 0)
  }

  function EmptyGroups(n: nat): (s: seq<Group>)
    ensures |s| == n && forall g :: 0 <= g < n ==> s[g] == EmptyGroup()
  {
    seq(n, _ => EmptyGroup())
  }
}
