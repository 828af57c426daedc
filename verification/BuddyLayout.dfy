/** Where malloc/buddy.c puts its nodes: indices in the linearised tree, addresses in
    memory, and the bits of the node array.  The height of the tree is a parameter. */
module BuddyLayout {
  import opened Powers
  import opened BuddyTree

  /** The node is one of the 2^b nodes of its bucket. */
  predicate InBucket(v: Node) { v.k < Pow2(v.b) }

  /** The index of a node in the linearised tree. */
  function Index(v: Node): nat { Pow2(v.b) - 1 + v.k }

  lemma IndexInjective(u: Node, v: Node)
    requires InBucket(u) && InBucket(v) && Index(u) == Index(v)
    ensures u == v
  {
    if u.b < v.b { Pow2Monotone(u.b, v.b); }
    if v.b < u.b { Pow2Monotone(v.b, u.b); }
  }

  /** i ^ 1 */
  function XorOne(i: nat): nat { if i % 2 == 0 then i + 1 else i - 1 }

  function ParentIndex(i: nat): nat
    requires i != 0
  {
    (i - 1) / 2
  }

  function SiblingIndex(i: nat): nat
    requires i != 0
  {
    XorOne(i - 1) + 1
  }

  /** Stepping through the tree is arithmetic on indices. */
  lemma IndexSteps(v: Node)
    requires InBucket(v)
    ensures InBucket(LeftChild(v)) && Index(LeftChild(v)) == Index(v) * 2 + 1
    ensures InBucket(RightChild(v)) && Index(RightChild(v)) == Index(v) * 2 + 2
    ensures Index(v) != 0 <==> v.b > 0
    ensures v.b > 0 ==> InBucket(Parent(v)) && Index(Parent(v)) == ParentIndex(Index(v))
    ensures v.b > 0 ==> InBucket(Buddy(v)) && Index(Buddy(v)) == SiblingIndex(Index(v))
  {
    if v.b > 0 {
      assert Pow2(v.b) == 2 * Pow2(v.b - 1);
    }
  }

  lemma InBucketUp(x: Node, v: Node)
    requires Under(x, v) && InBucket(v)
    ensures InBucket(x)
    decreases x.b
  {
    if x != v {
      UnderChild(x, v);
      InBucketUp(Parent(x), v);
    }
  }

  /** The address range: 2^maxLog bytes from `base`, in blocks of at least 2^minLog bytes.
      The list heads of the buckets are an array of list nodes at `table`. */
  datatype Layout = Layout(minLog: nat, maxLog: nat, base: int, table: int) {

    ghost predicate Valid() {
      3 <= minLog <= maxLog && base % 8 == 0 && table % 8 == 0 && 0 < table && table + 8 * (maxLog - minLog + 1) <= base
    }

    /** The bucket of the smallest blocks. */
    function Last(): nat
      requires minLog <= maxLog
    {
      maxLog - minLog
    }

    function Size(b: nat): (s: nat)
      requires b <= maxLog
      ensures 1 <= s
    {
      Pow2(maxLog - b)
    }

    function Addr(v: Node): int
      requires v.b <= maxLog
    {
      base + v.k * Size(v.b)
    }

    /** One past the last byte of a node's range. */
    function End(v: Node): int
      requires v.b <= maxLog
    {
      Addr(v) + Size(v.b)
    }

    function Head(b: nat): int { table + 8 * b }

    function PtrForNode(index: int, bucket: nat): int
      requires bucket <= maxLog
    {
      base + (index - Pow2(bucket) + 1) * Pow2(maxLog - bucket)
    }

    function NodeForPtr(ptr: int, bucket: nat): int
      requires bucket <= maxLog
    {
      (ptr - base) / Pow2(maxLog - bucket) + Pow2(bucket) - 1
    }

    /** The bucket of the smallest blocks that hold `request` bytes. */
    ghost predicate Fits(request: int, b: nat)
      requires minLog <= maxLog
    {
      b <= Last() && request <= Size(b) && (b < Last() ==> Size(b + 1) < request)
    }

    lemma FitsUnique(request: int, b: nat, c: nat)
      requires minLog <= maxLog && Fits(request, b) && Fits(request, c)
      ensures b == c
    {
      if b < c { SizeMonotone(b + 1, c); }
      if c < b { SizeMonotone(c + 1, b); }
    }

    lemma SizeMonotone(b: nat, c: nat)
      requires b <= c <= maxLog
      ensures Size(c) <= Size(b)
    {
      if b < c { Pow2Monotone(maxLog - c, maxLog - b); }
    }

    lemma BuddyPtr(v: Node)
      requires 0 < v.b <= maxLog && InBucket(v)
      ensures PtrForNode(SiblingIndex(Index(v)), v.b) == Addr(Buddy(v))
    {
      IndexSteps(v);
      PtrNode(Buddy(v));
    }

    lemma ParentBelow(v: Node)
      requires 0 < v.b <= maxLog
      ensures Addr(Parent(v)) <= Addr(v)
    {
      Halves(Parent(v));
    }

    /** Index and address determine each other within a bucket. */
    lemma PtrNode(v: Node)
      requires v.b <= maxLog && InBucket(v)
      ensures PtrForNode(Index(v), v.b) == Addr(v)
      ensures NodeForPtr(Addr(v), v.b) == Index(v)
    {
      var s := Pow2(maxLog - v.b);
      assert Index(v) - Pow2(v.b) + 1 == v.k;
      DivMultiple(v.k, s);
    }

    /** Every address at a multiple of the block size is the address of a node. */
    lemma NodePtr(ptr: int, bucket: nat) returns (v: Node)
      requires bucket <= maxLog && base <= ptr < base + Size(0) && (ptr - base) % Size(bucket) == 0
      ensures v.b == bucket && InBucket(v) && Addr(v) == ptr
      ensures NodeForPtr(ptr, bucket) == Index(v) && PtrForNode(NodeForPtr(ptr, bucket), bucket) == ptr
    {
      var s := Size(bucket);
      var k := (ptr - base) / s;
      assert ptr - base == s * k;
      MulCommutes(s, k);
      Pow2Product(bucket, maxLog - bucket);
      if Pow2(bucket) <= k {
        MulMonotone(Pow2(bucket), k, s);
      }
      if k < 0 {
        MulMonotone(k, 0, s);
      }
      v := Node(bucket, k);
      PtrNode(v);
    }

    /** The bytes reserved when a block of bucket b is taken to be split down to bucket `original`:
        half of it and the links of its right half, or all of it. */
    function Need(b: nat, original: nat): int
      requires b <= maxLog
    {
      if b < original then Size(b) / 2 + 8 else Size(b)
    }

    lemma NeedHalf(b: nat, original: nat)
      requires Valid() && b <= original <= Last()
      ensures 8 <= Need(b, original) && Size(original) <= Need(b, original)
      ensures b < original ==> Need(b, original) == Size(b + 1) + 8
    {
      Pow2Eight(maxLog - b);
      if b < original {
        Doubling(b + 1);
        SizeMonotone(b + 1, original);
      }
    }

    lemma Doubling(b: nat)
      requires 0 < b <= maxLog
      ensures Size(b - 1) == 2 * Size(b)
    {
    }

    /** What one step down the left side computes. */
    lemma Descend(v: Node)
      requires minLog <= maxLog && v.b < Last() && InBucket(v)
      ensures Addr(LeftChild(v)) == Addr(v) && Addr(RightChild(v)) == Addr(v) + Size(v.b + 1)
      ensures Index(LeftChild(v)) == Index(v) * 2 + 1
      ensures PtrForNode(Index(LeftChild(v)) + 1, v.b + 1) == Addr(RightChild(v))
      ensures v.b + 2 <= maxLog ==> Size(v.b + 2) <= Size(v.b + 1)
    {
      Halves(v);
      IndexSteps(v);
      PtrNode(RightChild(v));
      if v.b + 2 <= maxLog {
        SizeMonotone(v.b + 1, v.b + 2);
      }
    }

    /** The higher the root, the further away the right half. */
    lemma RightRoots(b: nat, c: nat)
      requires b <= c <= maxLog
      ensures Addr(Node(c, 1)) <= Addr(Node(b, 1))
    {
      SizeMonotone(b, c);
    }

    /** What doubling the tree at bucket b computes from the index of the root. */
    lemma GrowthIndices(b: nat)
      requires 0 < b <= maxLog
      ensures PtrForNode(Index(Node(b, 0)) + 1, b) == Addr(Node(b, 1))
      ensures Index(Node(b, 0)) != 0 && ParentIndex(Index(Node(b, 0))) == Index(Node(b - 1, 0))
      ensures if b == 1 then Index(Node(b - 1, 0)) == 0
              else Index(Node(b - 1, 0)) != 0 && ParentIndex(Index(Node(b - 1, 0))) == Index(Node(b - 2, 0))
    {
      IndexSteps(Node(b, 0));
      IndexSteps(Node(b - 1, 0));
      PtrNode(Node(b, 1));
    }

    /** The children are the two halves of a node; the buddy is the other half of its parent. */
    lemma Halves(v: Node)
      requires v.b < maxLog
      ensures Size(v.b) == 2 * Size(v.b + 1)
      ensures Addr(LeftChild(v)) == Addr(v) && End(LeftChild(v)) == Addr(v) + Size(v.b + 1)
      ensures Addr(RightChild(v)) == Addr(v) + Size(v.b + 1) && End(RightChild(v)) == End(v)
    {
      var s := Size(v.b + 1);
      assert Size(v.b) == 2 * s;
      Distribute(v.k, s);
    }

    lemma {:induction false} RangeUnder(x: Node, v: Node)
      requires x.b <= maxLog && Under(x, v)
      ensures Addr(v) <= Addr(x) && End(x) <= End(v)
      decreases x.b
    {
      if x != v {
        UnderChild(x, v);
        Halves(Parent(x));
        RangeUnder(Parent(x), v);
      }
    }

    /** Nodes neither of which is inside the other have disjoint ranges. */
    lemma RangeApart(x: Node, v: Node)
      requires x.b <= maxLog && v.b <= maxLog && !Under(x, v) && !Under(v, x)
      ensures End(x) <= Addr(v) || End(v) <= Addr(x)
    {
      if v.b <= x.b {
        SameBucketApart(Node(v.b, Up(x.k, x.b - v.b)), v);
        RangeUnder(x, Node(v.b, Up(x.k, x.b - v.b)));
      } else {
        SameBucketApart(Node(x.b, Up(v.k, v.b - x.b)), x);
        RangeUnder(v, Node(x.b, Up(v.k, v.b - x.b)));
      }
    }

    lemma SameBucketApart(x: Node, v: Node)
      requires x.b == v.b <= maxLog && x != v
      ensures End(x) <= Addr(v) || End(v) <= Addr(x)
    {
      if x.k < v.k {
        MulStep(x.k, v.k, Size(v.b));
      } else {
        MulStep(v.k, x.k, Size(v.b));
      }
    }

    lemma AddrAligned(v: Node)
      requires Valid() && v.b <= Last()
      ensures Addr(v) % 8 == 0 && base <= Addr(v) && Size(v.b) % 8 == 0 && 8 <= Size(v.b)
    {
      Pow2Eight(maxLog - v.b);
      MulEight(v.k, Size(v.b));
      SumOfEights(base, v.k * Size(v.b));
    }
  }

  lemma DivMultiple(k: nat, s: nat)
    requires 1 <= s
    ensures k * s / s == k
  {
    var p := k * s;
    var q := p / s;
    assert p == s * q + p % s;
    MulCommutes(s, q);
    if q < k {
      MulStep(q, k, s);
    } else if k < q {
      MulStep(k, q, s);
    }
  }

  lemma MulCommutes(a: int, b: int)
    ensures a * b == b * a
  {
  }

  lemma MulMonotone(a: int, b: int, s: int)
    requires a <= b && 0 <= s
    ensures a * s <= b * s
  {
  }

  lemma MulStep(a: int, b: int, s: nat)
    requires a < b
    ensures a * s + s <= b * s
  {
    MulMonotone(a + 1, b, s);
    assert (a + 1) * s == a * s + s;
  }

  lemma Distribute(k: nat, s: nat)
    ensures k * (2 * s) == (2 * k) * s && (2 * k + 1) * s == (2 * k) * s + s
    ensures 2 * (k * s) == (2 * k) * s
  {
  }

  lemma MulEight(k: nat, s: nat)
    requires s % 8 == 0
    ensures k * s % 8 == 0 && 0 <= k * s
  {
    var q := s / 8;
    assert k * s == k * (8 * q) == 8 * (k * q);
  }

  lemma SumOfEights(a: int, b: int)
    requires a % 8 == 0 && b % 8 == 0
    ensures (a + b) % 8 == 0
  {
  }
}
