/** Powers of two, and the size classes of the segregated lists. */
module Powers {
  function Pow2(e: nat): (p: nat)
    ensures 1 <= p
  {
    if e == 0 then 1 else 2 * Pow2(e - 1)
  }

  lemma Pow2Monotone(d: nat, e: nat)
    requires d < e
    ensures 2 * Pow2(d) <= Pow2(e)
  {
    if d + 1 < e { Pow2Monotone(d, e - 1); }
  }

  lemma Pow2Eight(e: nat)
    requires 3 <= e
    ensures Pow2(e) % 8 == 0 && 8 <= Pow2(e)
  {
    if e == 3 {
      assert Pow2(3) == 2 * Pow2(2) && Pow2(2) == 2 * Pow2(1);
    } else {
      Pow2Eight(e - 1);
    }
  }

  lemma Pow2Product(d: nat, e: nat)
    ensures Pow2(d) * Pow2(e) == Pow2(d + e)
  {
    if d > 0 {
      Pow2Product(d - 1, e);
      assert Pow2(d) * Pow2(e) == 2 * (Pow2(d - 1) * Pow2(e));
    }
  }

  /** How often a size can be halved before it is at most 1. */
  function FloorLog2(size: nat): nat {
    if size <= 1 then 0 else 1 + FloorLog2(size / 2)
  }

  /** The floor of the logarithm is what its name says, */
  lemma {:induction false} FloorLog2Bounds(size: nat)
    requires 1 <= size
    ensures Pow2(FloorLog2(size)) <= size < 2 * Pow2(FloorLog2(size))
  {
    if 1 < size {
      FloorLog2Bounds(size / 2);
    }
  }

  /** and nothing else is. */
  lemma FloorLog2Unique(size: nat, e: nat)
    requires Pow2(e) <= size < 2 * Pow2(e)
    ensures FloorLog2(size) == e
  {
    var f := FloorLog2(size);
    FloorLog2Bounds(size);
    if f < e {
      Pow2Monotone(f, e);
    } else if e < f {
      Pow2Monotone(e, f);
    }
  }

  lemma FloorLog2Monotone(a: nat, b: nat)
    requires a <= b
    ensures FloorLog2(a) <= FloorLog2(b)
  {
    if a < b && 1 <= a {
      FloorLog2Bounds(a);
      FloorLog2Bounds(b);
      if FloorLog2(b) < FloorLog2(a) {
        Pow2Monotone(FloorLog2(b), FloorLog2(a));
      }
    }
  }
}
