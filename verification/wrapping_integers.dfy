/**
 * 32-bit TCP sequence numbers (`Wrap32`): wrapping an absolute 64-bit sequence number
 * relative to a zero point (the ISN), and reconstructing the absolute number that is
 * nearest to a checkpoint, as in section 3.4 of RFC 9293.
 */
module WrappingIntegers {
  import opened Common

  /** Wrap32::wrap: the wire sequence number of absolute sequence number `n`. */
  function Wrap(n: u64, zeroPoint: u32): (r: u32)
    ensures (r - zeroPoint - n) % 0x1_0000_0000 == 0
  {
    (zeroPoint + n) % 0x1_0000_0000
  }

  /** Wrap32::operator+: addition of a count to a wire sequence number, modulo 2^32. */
  function Add(w: u32, n: nat): (r: u32)
    ensures (r - w - n) % 0x1_0000_0000 == 0
  {
    (w + n) % 0x1_0000_0000
  }

  /** `raw_value_ - zero_point.raw_value_` on uint32_t: the distance from the zero point, modulo 2^32. */
  function Offset(w: u32, zeroPoint: u32): (r: u32)
    ensures (zeroPoint + r) % 0x1_0000_0000 == w
  {
    if w >= zeroPoint then w - zeroPoint else w - zeroPoint + 0x1_0000_0000
  }

  /** The absolute difference of two 64-bit values, as computed in unwrap without going negative. */
  function Dist(a: u64, b: u64): nat {
    if a >= b then a - b else b - a
  }

  /** `asn1`: the candidate in the same 2^32 block as the checkpoint (block k). */
  function CandidateK(w: u32, zeroPoint: u32, checkpoint: u64): u64 {
    (checkpoint / 0x1_0000_0000) * 0x1_0000_0000 + Offset(w, zeroPoint)
  }

  /** `asn2`: the candidate in block k-1, or the block-k candidate when k == 0. */
  function CandidateBelow(w: u32, zeroPoint: u32, checkpoint: u64): u64 {
    var k := checkpoint / 0x1_0000_0000;
    if k == 0 then CandidateK(w, zeroPoint, checkpoint)
    else (k - 1) * 0x1_0000_0000 + Offset(w, zeroPoint)
  }

  /** `asn3`: the candidate in block k+1, computed in uint64_t (so it wraps to the offset when k == 2^32 - 1). */
  function CandidateAbove(w: u32, zeroPoint: u32, checkpoint: u64): u64 {
    var k := checkpoint / 0x1_0000_0000;
    ((k + 1) * 0x1_0000_0000 + Offset(w, zeroPoint)) % 0x1_0000_0000_0000_0000
  }

  /**
   * Wrap32::unwrap: of the three candidates, the one nearest to the checkpoint,
   * ties going first to the block-k candidate, then to block k-1, then to block k+1.
   */
  function Unwrap(w: u32, zeroPoint: u32, checkpoint: u64): (r: u64)
    ensures r == CandidateK(w, zeroPoint, checkpoint) || r == CandidateBelow(w, zeroPoint, checkpoint)
         || r == CandidateAbove(w, zeroPoint, checkpoint)
    ensures Dist(r, checkpoint) <= Dist(CandidateK(w, zeroPoint, checkpoint), checkpoint)
    ensures Dist(r, checkpoint) <= Dist(CandidateBelow(w, zeroPoint, checkpoint), checkpoint)
    ensures Dist(r, checkpoint) <= Dist(CandidateAbove(w, zeroPoint, checkpoint), checkpoint)
  {
    var asn1 := CandidateK(w, zeroPoint, checkpoint);
    var asn2 := CandidateBelow(w, zeroPoint, checkpoint);
    var asn3 := CandidateAbove(w, zeroPoint, checkpoint);
    var abs1 := Dist(asn1, checkpoint);
    var abs2 := Dist(asn2, checkpoint);
    var abs3 := Dist(asn3, checkpoint);
    var minAbs := Min(Min(abs1, abs2), abs3);
    if minAbs == abs1 then asn1
    else if minAbs == abs2 then asn2
    else if minAbs == abs3 then asn3
    else assert false; asn1  // the source's fall-through `return {}`: unreachable
  }

  /** Every candidate, and hence every result of Unwrap, lies in the residue class of the offset. */
  lemma CandidatesAgreeModulo(w: u32, zeroPoint: u32, checkpoint: u64)
    ensures CandidateK(w, zeroPoint, checkpoint) % 0x1_0000_0000 == Offset(w, zeroPoint)
    ensures CandidateBelow(w, zeroPoint, checkpoint) % 0x1_0000_0000 == Offset(w, zeroPoint)
    ensures CandidateAbove(w, zeroPoint, checkpoint) % 0x1_0000_0000 == Offset(w, zeroPoint)
  {
    var k := checkpoint / 0x1_0000_0000;
    var off := Offset(w, zeroPoint);
    if k + 1 == 0x1_0000_0000 {
      assert (k + 1) * 0x1_0000_0000 == 0x1_0000_0000_0000_0000;
      assert CandidateAbove(w, zeroPoint, checkpoint) == off;
    } else {
      assert (k + 1) * 0x1_0000_0000 + off < 0x1_0000_0000_0000_0000;
      assert CandidateAbove(w, zeroPoint, checkpoint) == (k + 1) * 0x1_0000_0000 + off;
    }
  }

  /** A value wraps to `w` exactly when it is congruent to the offset of `w` from the zero point. */
  lemma WrapIffOffset(x: u64, w: u32, zeroPoint: u32)
    ensures Wrap(x, zeroPoint) == w <==> x % 0x1_0000_0000 == Offset(w, zeroPoint)
  {
    var q := x / 0x1_0000_0000;
    var m := x % 0x1_0000_0000;
    assert x == q * 0x1_0000_0000 + m;
    assert (zeroPoint + x) % 0x1_0000_0000 == (zeroPoint + m) % 0x1_0000_0000;
  }

  /** Round trip one way: whatever Unwrap returns wraps back to the sequence number it was given. */
  lemma {:induction false} WrapUnwrap(w: u32, zeroPoint: u32, checkpoint: u64)
    ensures Wrap(Unwrap(w, zeroPoint, checkpoint), zeroPoint) == w
  {
    CandidatesAgreeModulo(w, zeroPoint, checkpoint);
    WrapIffOffset(Unwrap(w, zeroPoint, checkpoint), w, zeroPoint);
  }

  /** Round trip the other way: unwrapping with the true value as checkpoint recovers it exactly. */
  lemma {:induction false} UnwrapWrap(a: u64, zeroPoint: u32)
    ensures Unwrap(Wrap(a, zeroPoint), zeroPoint, a) == a
  {
    WrapIffOffset(a, Wrap(a, zeroPoint), zeroPoint);
    assert CandidateK(Wrap(a, zeroPoint), zeroPoint, a) == a;
  }

  /**
   * Unwrap is nearest among ALL 64-bit values that wrap to `w`, not only among the three
   * candidates it compares.
   */
  lemma {:induction false} UnwrapNearest(w: u32, zeroPoint: u32, checkpoint: u64, x: u64)
    requires Wrap(x, zeroPoint) == w
    ensures Dist(Unwrap(w, zeroPoint, checkpoint), checkpoint) <= Dist(x, checkpoint)
  {
    WrapIffOffset(x, w, zeroPoint);
    var off := Offset(w, zeroPoint);
    var k := checkpoint / 0x1_0000_0000;
    var j := x / 0x1_0000_0000;
    assert x == j * 0x1_0000_0000 + off;
    assert checkpoint == k * 0x1_0000_0000 + checkpoint % 0x1_0000_0000;
    if j == k {
      assert x == CandidateK(w, zeroPoint, checkpoint);
    } else if j < k {
      assert j <= k - 1;
      assert x <= CandidateBelow(w, zeroPoint, checkpoint) < checkpoint;
    } else {
      assert j >= k + 1;
      assert (k + 1) * 0x1_0000_0000 + off <= x;
      assert CandidateAbove(w, zeroPoint, checkpoint) == (k + 1) * 0x1_0000_0000 + off;
      assert checkpoint < CandidateAbove(w, zeroPoint, checkpoint) <= x;
    }
  }

  /**
   * The tie-break order: the block-k candidate wins whenever it is among the nearest; the
   * block-(k-1) candidate wins over the block-(k+1) one when they are equally near; and a
   * result other than the block-k candidate is strictly nearer than it.
   */
  lemma UnwrapTieBreak(w: u32, zeroPoint: u32, checkpoint: u64)
    ensures var r := Unwrap(w, zeroPoint, checkpoint);
            var dk := Dist(CandidateK(w, zeroPoint, checkpoint), checkpoint);
            var db := Dist(CandidateBelow(w, zeroPoint, checkpoint), checkpoint);
            var da := Dist(CandidateAbove(w, zeroPoint, checkpoint), checkpoint);
            && (dk <= db && dk <= da ==> r == CandidateK(w, zeroPoint, checkpoint))
            && (r != CandidateK(w, zeroPoint, checkpoint) ==> Dist(r, checkpoint) < dk)
            && (db < dk && db <= da ==> r == CandidateBelow(w, zeroPoint, checkpoint))
  {
  }

  /** With a checkpoint below 2^32 (k == 0) the block k-1 candidate collapses onto the block-k one. */
  lemma NoNegativeCandidate(w: u32, zeroPoint: u32, checkpoint: u64)
    requires checkpoint < 0x1_0000_0000
    ensures CandidateBelow(w, zeroPoint, checkpoint) == CandidateK(w, zeroPoint, checkpoint) == Offset(w, zeroPoint)
  {
  }

  /** Two 64-bit values in the same residue class modulo 2^32 that are closer than 2^32 coincide. */
  lemma SameResidueClose(r: u64, x: u64)
    requires r % 0x1_0000_0000 == x % 0x1_0000_0000
    requires Dist(r, x) < 0x1_0000_0000
    ensures r == x
  {
    var a := r / 0x1_0000_0000;
    var b := x / 0x1_0000_0000;
    assert r - x == (a - b) * 0x1_0000_0000;
  }

  /**
   * Unwrap is determined by the distance to the checkpoint: a value that wraps to `w` and lies
   * strictly within half the sequence space of the checkpoint is the unique answer.
   */
  lemma {:induction false} UnwrapWithinHalfWindow(w: u32, zeroPoint: u32, checkpoint: u64, x: u64)
    requires Wrap(x, zeroPoint) == w
    requires Dist(x, checkpoint) < 0x8000_0000
    ensures Unwrap(w, zeroPoint, checkpoint) == x
  {
    var r := Unwrap(w, zeroPoint, checkpoint);
    UnwrapNearest(w, zeroPoint, checkpoint, x);
    WrapUnwrap(w, zeroPoint, checkpoint);
    WrapIffOffset(x, w, zeroPoint);
    WrapIffOffset(r, w, zeroPoint);
    SameResidueClose(r, x);
  }
}
