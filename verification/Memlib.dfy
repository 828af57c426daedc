/** The simulated memory system of memlib.c: one flat, byte-addressed memory with a
    movable break.  Addresses are numbers; 0 is the null pointer.  Addresses below `lo`
    are static data of the program, addresses from `lo` up to `brk` are the heap. */
module Memlib {

  newtype byte = x: int | 0 <= x < 256

  /** The memory as seen through aligned 32-bit words, keyed by byte address. */
  type Words = map<int, int>

  const WORD_LIMIT := 0x1_0000_0000

  function WordOf(b0: byte, b1: byte, b2: byte, b3: byte): (w: int)
    ensures 0 <= w < WORD_LIMIT
  {
    b0 as int + 0x100 * b1 as int + 0x1_0000 * b2 as int + 0x100_0000 * b3 as int
  }

  /** The bytes of a word, low byte first. */
  function BytesOf(w: int): (b: (byte, byte, byte, byte))
    requires 0 <= w < WORD_LIMIT
    ensures WordOf(b.0, b.1, b.2, b.3) == w
  {
    var q, r, s := w / 0x100, w / 0x1_0000, w / 0x100_0000;
    assert w == w % 0x100 + 0x100 * q && q == q % 0x100 + 0x100 * r && r == r % 0x100 + 0x100 * s;
    ((w % 0x100) as byte, (q % 0x100) as byte, (r % 0x100) as byte, s as byte)
  }

  /** A stored word determines its four bytes. */
  lemma WordOfInjective(b0: byte, b1: byte, b2: byte, b3: byte, c0: byte, c1: byte, c2: byte, c3: byte)
    requires WordOf(b0, b1, b2, b3) == WordOf(c0, c1, c2, c3)
    ensures b0 == c0 && b1 == c1 && b2 == c2 && b3 == c3
  {
    var b2', c2' := b2 as int + 0x100 * b3 as int, c2 as int + 0x100 * c3 as int;
    var b1', c1' := b1 as int + 0x100 * b2', c1 as int + 0x100 * c2';
    LowDigit(b0 as int, b1', c0 as int, c1');
    LowDigit(b1 as int, b2', c1 as int, c2');
    LowDigit(b2 as int, b3 as int, c2 as int, c3 as int);
  }

  lemma LowDigit(r: int, q: int, r': int, q': int)
    requires 0 <= r < 0x100 && 0 <= r' < 0x100 && r + 0x100 * q == r' + 0x100 * q'
    ensures r == r' && q == q'
  {
  }

  /** The words m are what the bytes s spell, one word for each aligned place. */
  ghost predicate Spells(s: seq<byte>, m: Words) {
    && (forall a :: a in m <==> 0 <= a && a % 4 == 0 && a + 4 <= |s|)
    && (forall a {:trigger m[a]} :: a in m ==> m[a] == WordOf(s[a], s[a + 1], s[a + 2], s[a + 3]))
  }

  /** Bytes outside a word that is rewritten are in other words, or in none. */
  lemma SpellsPut(s: seq<byte>, m: Words, p: int, b0: byte, b1: byte, b2: byte, b3: byte)
    requires Spells(s, m) && p in m
    ensures Spells(s[p := b0][p + 1 := b1][p + 2 := b2][p + 3 := b3], m[p := WordOf(b0, b1, b2, b3)])
  {
    var s', m' := s[p := b0][p + 1 := b1][p + 2 := b2][p + 3 := b3], m[p := WordOf(b0, b1, b2, b3)];
    forall a | a in m' && a != p
      ensures m'[a] == WordOf(s'[a], s'[a + 1], s'[a + 2], s'[a + 3])
    {
      Apart(a, p);
      assert forall i :: a <= i < a + 4 ==> s'[i] == s[i];
    }
  }

  /** The words that rewritten bytes spell: those with four old bytes are old words. */
  lemma SpellsCopy(s: seq<byte>, m: Words, s': seq<byte>, dst: int, n: nat) returns (m': Words)
    requires Spells(s, m) && |s'| == |s|
    requires forall a :: 0 <= a < |s| && !(dst <= a < dst + n) ==> s'[a] == s[a]
    ensures Spells(s', m')
    ensures forall a :: a + 4 <= dst || dst + n <= a ==> At(m', a) == At(m, a)
  {
    m' := map a | a in m :: WordOf(s'[a], s'[a + 1], s'[a + 2], s'[a + 3]);
    forall a | a + 4 <= dst || dst + n <= a
      ensures At(m', a) == At(m, a)
    {
      if a in m {
        assert forall i :: a <= i < a + 4 ==> s'[i] == s[i];
      }
    }
  }

  /** Where the words are the same, so are the bytes. */
  lemma SpellsBytes(s: seq<byte>, m: Words, s': seq<byte>, m': Words, lo: int, hi: int)
    requires Spells(s, m) && Spells(s', m') && |s| == |s'|
    requires 0 <= lo <= hi <= |s| && lo % 4 == 0 && hi % 4 == 0
    requires forall a :: lo <= a < hi ==> At(m, a) == At(m', a)
    ensures s[lo..hi] == s'[lo..hi]
  {
    forall i | lo <= i < hi
      ensures s[i] == s'[i]
    {
      SameByte(s, m, s', m', lo, hi, i);
    }
  }

  lemma SameByte(s: seq<byte>, m: Words, s': seq<byte>, m': Words, lo: int, hi: int, i: int)
    requires Spells(s, m) && Spells(s', m') && |s| == |s'|
    requires 0 <= lo <= i < hi <= |s| && lo % 4 == 0 && hi % 4 == 0
    requires forall a :: lo <= a < hi ==> At(m, a) == At(m', a)
    ensures s[i] == s'[i]
  {
    hide WordOf;
    var a := 4 * (i / 4);
    AlignDown(lo, i, hi, a);
    assert At(m, a) == At(m', a);
    WordOfInjective(s[a], s[a + 1], s[a + 2], s[a + 3], s'[a], s'[a + 1], s'[a + 2], s'[a + 3]);
  }

  lemma AlignDown(lo: int, i: int, hi: int, a: int)
    requires 0 <= lo <= i < hi && lo % 4 == 0 && hi % 4 == 0 && a == 4 * (i / 4)
    ensures a % 4 == 0 && lo <= a <= i < a + 4 <= hi
  {
  }

  lemma Apart(a: int, b: int)
    requires a % 4 == 0 && b % 4 == 0 && a != b
    ensures a + 4 <= b || b + 4 <= a
  {
  }

  /** The word at p, read as 0 where there is none. */
  function At(m: Words, p: int): int {
    if p in m then m[p] else 0
  }

  class Memory {
    const lo: int
    const hi: int
    const data: array<byte>
    var brk: int
    ghost var words: Words

    ghost predicate Valid()
      reads this, data
    {
      && 0 < lo <= brk <= hi == data.Length < WORD_LIMIT
      && lo % 8 == 0
      && Spells(data[..], words)
    }

    /** A word that the program may read and write: static data, or heap below the break. */
    predicate Mapped(p: int)
      reads this`brk
    {
      p % 4 == 0 && 0 < p && (p + 4 <= lo || (lo <= p && p + 4 <= brk))
    }

    /** mem_init */
    constructor (lo: int, maxHeap: nat)
      requires 0 < lo && lo % 8 == 0 && lo + maxHeap < WORD_LIMIT
      ensures Valid() && fresh(data)
      ensures this.lo == lo && hi == lo + maxHeap && brk == lo && HeapSize() == 0
    {
      this.lo := lo;
      this.hi := lo + maxHeap;
      data := new byte[lo + maxHeap](_ => 0);
      brk := lo;
      words := map a | 0 <= a < lo + maxHeap && a % 4 == 0 && a + 4 <= lo + maxHeap :: 0;
    }

    /** mem_reset_brk */
    method ResetBrk()
      requires Valid()
      modifies this`brk
      ensures Valid() && brk == lo && HeapSize() == 0
    {
      brk := lo;
    }

    /** mem_sbrk: the old break, or -1. */
    method Sbrk(incr: int) returns (p: int)
      requires Valid()
      modifies this`brk
      ensures Valid()
      ensures if incr < 0 || old(brk) + incr > hi then p == -1 && brk == old(brk)
              else p == old(brk) && brk == old(brk) + incr
      ensures HeapSize() == old(HeapSize()) + if p == -1 then 0 else incr
    {
      var oldBrk := brk;
      if incr < 0 || brk + incr > hi {
        return -1;
      }
      brk := brk + incr;
      return oldBrk;
    }

    /** mem_heap_hi: the address of the last heap byte. */
    function HeapHi(): int
      reads this
    {
      brk - 1
    }

    /** mem_heapsize */
    function HeapSize(): (n: int)
      reads this, data
      requires Valid()
      ensures 0 <= n <= hi - lo && (0 < n ==> lo + n == HeapHi() + 1)
    {
      brk - lo
    }

    /** Read the 32-bit word at p. */
    function Get(p: int): (w: int)
      reads this, data
      requires Valid() && Mapped(p)
      ensures w == At(words, p) && 0 <= w < WORD_LIMIT
    {
      WordOf(data[p], data[p + 1], data[p + 2], data[p + 3])
    }

    /** Write the 32-bit word at p, low byte first. */
    method Put(p: int, w: int)
      requires Valid() && Mapped(p) && 0 <= w < WORD_LIMIT
      modifies this`words, data
      ensures Valid()
      ensures words == old(words)[p := w]
    {
      var (b0, b1, b2, b3) := BytesOf(w);
      ghost var was := words;
      data[p] := b0;
      data[p + 1] := b1;
      data[p + 2] := b2;
      data[p + 3] := b3;
      words := was[p := w];
      SpellsPut(old(data[..]), was, p, b0, b1, b2, b3);
      assert data[..] == old(data[..])[p := b0][p + 1 := b1][p + 2 := b2][p + 3 := b3];
    }

    /** memcpy between disjoint heap ranges. */
    method Memcpy(dst: int, src: int, n: nat)
      requires Valid()
      requires lo <= dst && dst + n <= brk && lo <= src && src + n <= brk
      requires dst + n <= src || src + n <= dst
      modifies this`words, data
      ensures Valid()
      ensures data[..][dst..dst + n] == old(data[..])[src..src + n]
      ensures forall a :: 0 <= a < data.Length && !(dst <= a < dst + n) ==> data[a] == old(data[a])
      ensures forall a :: a + 4 <= dst || dst + n <= a ==> At(words, a) == At(old(words), a)
    {
      var i := 0;
      while i < n
        invariant 0 <= i <= n
        invariant words == old(words)
        invariant data[dst..dst + i] == old(data[src..src + i])
        invariant forall a :: 0 <= a < data.Length && !(dst <= a < dst + i) ==> data[a] == old(data[a])
      {
        data[dst + i] := data[src + i];
        i := i + 1;
      }
      words := SpellsCopy(old(data[..]), old(words), data[..], dst, n);
      assert data[..][dst..dst + n] == data[dst..dst + n] && old(data[..])[src..src + n] == old(data[src..src + n]);
    }
  }
}
