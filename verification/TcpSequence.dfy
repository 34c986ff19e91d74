/**
 Sequence-number arithmetic of kernel-src/io/net/tcp.c: 32-bit numbers that wrap, and the range
 test that every receive decision is made of.
 */
module TcpSequence {

  const MODULUS := 0x1_0000_0000

  type u32 = n: int | 0 <= n < MODULUS

  function Add(a: u32, n: nat): (r: u32) {
    if a + n < MODULUS then a + n else (a + n) % MODULUS
  }

  /** The range test as the source writes it, on wrapped ends. */
  predicate SeqInRange(seqn: u32, seqend: u32, rangestart: u32, rangeend: u32) {
    if rangeend < rangestart then
      !((seqend <= rangestart && seqend > rangeend) || (seqn < rangestart && seqn >= rangeend))
    else
      seqn >= rangestart && seqend <= rangeend
  }

  /** What the test is meant to decide: len numbers from seqn lie inside the size numbers from
      start, counting modulo 2^32. */
  predicate Inside(seqn: u32, len: nat, start: u32, size: nat) {
    (seqn - start) % MODULUS + len <= size
  }

  predicate Wraps(a: u32, n: nat) {
    a + n >= MODULUS
  }

  /** The range test never rejects what lies inside. */
  lemma RangeTestComplete(seqn: u32, len: nat, start: u32, size: nat)
    requires 0 < len < MODULUS && size < MODULUS && Inside(seqn, len, start, size)
    ensures SeqInRange(seqn, Add(seqn, len), start, Add(start, size))
  {
  }

  /** For sizes that together stay below 2^32, the range test is right exactly when it is not
      given a segment that wraps, a range that does not, and ends that happen to compare well. */
  lemma RangeTestExact(seqn: u32, len: nat, start: u32, size: nat)
    requires 0 < len && len + size < MODULUS
    ensures (SeqInRange(seqn, Add(seqn, len), start, Add(start, size)) <==> Inside(seqn, len, start, size))
       <==> !(Wraps(seqn, len) && !Wraps(start, size) && start <= seqn && Add(seqn, len) <= Add(start, size))
  {
  }

  /** A stale segment that ends just past 2^32 is taken to be inside a window it lies before. */
  lemma RangeTestAcceptsStaleWrap()
    ensures SeqInRange(0xffff_ffff, Add(0xffff_ffff, 2), 1, Add(1, 100))
    ensures !Inside(0xffff_ffff, 2, 1, 100)
  {
  }
}
