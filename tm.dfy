/**
 * The reference software transactional memory's allocation bookkeeping (reference/tm.c):
 * an intrusive circular doubly-linked ring of segment headers hanging off a sentinel link in the
 * region, the alignment and header-size arithmetic of `tm_create`, and the ring handling of
 * `tm_alloc`, `tm_free` and `tm_destroy`.
 *
 * The links are objects updated in place.  A ring is described by the sequence of its links in
 * ring order, starting at the sentinel: `Linked` says the links' `next` and `prev` fields follow
 * that order cyclically and `Distinct` that no link occurs twice.  The region keeps, as ghost
 * state, the sequence of its segments' headers; the ring methods are proved to turn the ring
 * of one sequence into the ring of the sequence with a header appended or dropped.
 */
module Tm {
  import opened Bytes

  /** `sizeof(void*)` and `sizeof(struct link)` on the 64-bit targets the library is built for. */
  const PointerSize: nat := 8
  const LinkSize: nat := 2 * PointerSize

  // ----------------------------------------------------------------------------------------
  // Links

  /** `struct link`; a fresh header's fields hold no link yet. */
  class Link {
    var prev: Link?
    var next: Link?

    constructor ()
      ensures prev == null && next == null
    {
      prev, next := null, null;
    }
  }

  /** link_reset: a ring of one. */
  method LinkReset(link: Link)
    modifies link
    ensures link.prev == link && link.next == link
  {
    link.prev := link;
    link.next := link;
  }

  /**
   * link_insert: put `link`, which is not yet in the ring, immediately before `base`.
   * Only `link`, `base.prev` of `base` and `next` of the old `base.prev` change.
   */
  method LinkInsert(link: Link, base: Link)
    requires base.prev != null && link != base && link != base.prev
    modifies link, base, base.prev
    ensures link.prev == old(base.prev) && link.next == base
    ensures base.prev == link && old(base.prev).next == link
    ensures old(base.prev) != base ==> base.next == old(base.next) && old(base.prev).prev == old(base.prev.prev)
  {
    var prev := base.prev;
    link.prev := prev;
    link.next := base;
    base.prev := link;
    prev.next := link;
  }

  /**
   * link_remove: splice `link` out by joining its neighbours.  Only the neighbours' facing
   * fields change; the removed link keeps pointing at its old neighbours.
   */
  method LinkRemove(link: Link)
    requires link.prev != null && link.next != null
    requires link != link.prev && link != link.next
    modifies link.prev, link.next
    ensures old(link.prev).next == old(link.next) && old(link.next).prev == old(link.prev)
    ensures link.prev == old(link.prev) && link.next == old(link.next)
    ensures old(link.prev) != old(link.next)
            ==> old(link.prev).prev == old(link.prev.prev) && old(link.next).next == old(link.next.next)
  {
    var prev := link.prev;
    var next := link.next;
    prev.next := next;
    next.prev := prev;
  }

  // ----------------------------------------------------------------------------------------
  // Rings as sequences

  /** No link occurs twice. */
  predicate Distinct<T(==)>(s: seq<T>) {
    forall i, j | 0 <= i < j < |s| :: s[i] != s[j]
  }

  /**
   * The links of `ring`, taken in order, form a circular doubly-linked ring: each one's `next`
   * is the following link and each one's `prev` the one before, wrapping around at the ends.
   */
  ghost predicate Linked(ring: seq<Link>)
    reads ring
  {
    && |ring| >= 1
    && (forall i {:trigger ring[i].next} | 0 <= i < |ring| - 1 :: ring[i].next == ring[i + 1])
    && (forall i {:trigger ring[i].prev} | 0 < i < |ring| :: ring[i].prev == ring[i - 1])
    && ring[|ring| - 1].next == ring[0] && ring[0].prev == ring[|ring| - 1]
  }

  /** In a ring each link is the `prev` of its `next` and the `next` of its `prev`. */
  lemma LinkedMutual(ring: seq<Link>)
    requires Linked(ring)
    ensures forall i | 0 <= i < |ring| :: ring[i].next != null && ring[i].next.prev == ring[i]
    ensures forall i | 0 <= i < |ring| :: ring[i].prev != null && ring[i].prev.next == ring[i]
  {
  }

  /** Appending a link that is not in a sequence of distinct links keeps them distinct. */
  lemma AppendedDistinct<T>(s: seq<T>, x: T)
    requires Distinct(s) && x !in s
    ensures Distinct(s + [x])
  {
    forall i, j | 0 <= i < j < |s| + 1
      ensures (s + [x])[i] != (s + [x])[j]
    {
      if j == |s| {
        assert (s + [x])[i] == s[i];
      }
    }
  }

  /** Dropping one element of a sequence of distinct elements keeps them distinct. */
  lemma RemovedDistinct<T>(s: seq<T>, k: nat)
    requires Distinct(s) && k < |s|
    ensures Distinct(s[..k] + s[k + 1..])
  {
    var w := s[..k] + s[k + 1..];
    forall i, j | 0 <= i < j < |w|
      ensures w[i] != w[j]
    {
      assert w[i] == s[if i < k then i else i + 1];
      assert w[j] == s[if j < k then j else j + 1];
    }
  }

  /** Every element left after dropping one is still in any set that held them all. */
  lemma RemovedWithin<T>(s: seq<T>, k: nat, r: set<T>)
    requires k < |s| && forall x | x in s :: x in r
    ensures forall x | x in s[..k] + s[k + 1..] :: x in r
  {
    var w := s[..k] + s[k + 1..];
    forall x | x in w
      ensures x in r
    {
      var i :| 0 <= i < |w| && w[i] == x;
      assert w[i] == s[if i < k then i else i + 1];
    }
  }

  /** In a ring the first link is its own successor exactly when it is alone. */
  lemma AloneIffSelfLinked(ring: seq<Link>)
    requires Distinct(ring) && Linked(ring)
    ensures ring[0].next == ring[0] <==> |ring| == 1
  {
    if |ring| > 1 {
      assert ring[0].next == ring[1];
    }
  }

  /** link_insert of a link not in the ring before its first link: the link becomes the last one. */
  method InsertLast(link: Link, base: Link, ghost ring: seq<Link>)
    requires Distinct(ring) && Linked(ring) && ring[0] == base && link !in ring
    modifies link, base, base.prev
    ensures Linked(ring + [link])
  {
    ghost var n := |ring|;
    ghost var last := ring[n - 1];
    assert base.prev == last;
    LinkInsert(link, base);
    ghost var w := ring + [link];
    forall i | 0 <= i < n
      ensures w[i].next == w[i + 1]
    {
      if i < n - 1 {
        assert ring[i] != last;
      }
    }
    forall i | 0 < i < n + 1
      ensures w[i].prev == w[i - 1]
    {
      if i < n {
        assert ring[i] != base;
      }
    }
  }

  /** link_remove of the link at position `k` (not the first) of a ring, between `prev` and `next`. */
  method RemoveAt(link: Link, ghost ring: seq<Link>, ghost k: nat, ghost prev: Link, ghost next: Link)
    requires Distinct(ring) && Linked(ring) && 0 < k < |ring| && ring[k] == link
    requires prev == ring[k - 1] && next == ring[if k == |ring| - 1 then 0 else k + 1]
    modifies prev, next
    ensures Linked(ring[..k] + ring[k + 1..])
  {
    ghost var n := |ring|;
    ghost var after := if k == n - 1 then 0 else k + 1;
    assert link.prev == prev && link.next == next;
    LinkRemove(link);
    ghost var w := ring[..k] + ring[k + 1..];
    forall i | 0 <= i < n - 2
      ensures w[i].next == w[i + 1]
    {
      assert w[i] == ring[if i < k then i else i + 1];
      assert w[i + 1] == ring[if i + 1 < k then i + 1 else i + 2];
      if i != k - 1 {
        assert w[i] != prev;
      }
    }
    forall i | 0 < i < n - 1
      ensures w[i].prev == w[i - 1]
    {
      assert w[i] == ring[if i < k then i else i + 1];
      assert w[i - 1] == ring[if i - 1 < k then i - 1 else i];
      if i != k {
        assert w[i] != next;
      }
    }
    assert w[0] == ring[0] && w[n - 2] == ring[if k == n - 1 then n - 2 else n - 1];
  }

  // ----------------------------------------------------------------------------------------
  // Alignment and header arithmetic (tm_create)

  /** align_alloc: the claimed alignment, raised to the alignment a `struct link` needs. */
  function AlignAlloc(align: nat): (r: nat)
    ensures r >= align && r >= PointerSize
    ensures r == align || r == PointerSize
  {
    if align < PointerSize then PointerSize else align
  }

  /** delta_alloc: the room left before the user bytes of a segment for its header, rounded up. */
  function DeltaAlloc(alignAlloc: nat): (r: nat)
    requires alignAlloc > 0
    ensures r % alignAlloc == 0 && LinkSize <= r < LinkSize + alignAlloc
  {
    var q := (LinkSize + alignAlloc - 1) / alignAlloc;
    RoundDown(LinkSize + alignAlloc - 1, alignAlloc);
    q * alignAlloc
  }

  /** Rounding `x` down to a multiple of `a` loses less than `a`. */
  lemma RoundDown(x: nat, a: nat)
    requires a > 0
    ensures (x / a) * a <= x < (x / a) * a + a && ((x / a) * a) % a == 0
  {
    var q := x / a;
    assert x == q * a + x % a;
    DivUnique(q * a, a, q, 0);
  }

  /** delta_alloc is the least multiple of align_alloc that holds a `struct link`. */
  lemma DeltaAllocLeast(alignAlloc: nat, m: nat)
    requires alignAlloc > 0 && m % alignAlloc == 0 && m >= LinkSize
    ensures m >= DeltaAlloc(alignAlloc)
  {
    var d := DeltaAlloc(alignAlloc);
    var a := m / alignAlloc;
    var b := d / alignAlloc;
    assert m == a * alignAlloc && d == b * alignAlloc;
    if a < b {
      assert (a + 1) * alignAlloc == m + alignAlloc;
      MulMonotone(a + 1, b, alignAlloc);
    } else {
      MulMonotone(b, a, alignAlloc);
    }
  }

  // ----------------------------------------------------------------------------------------
  // The region

  /** A pointer into a segment: the segment's header and a byte offset from it. */
  datatype Ptr = Ptr(block: Link, offset: int)

  datatype AllocResult = NoMem | Success(target: Ptr)

  /** The ring hanging off `allocs` holds exactly the links `segments`, in order, all within `repr`. */
  ghost predicate RingIn(allocs: Link, segments: seq<Link>, repr: set<Link>)
    reads repr
  {
    && allocs in repr && (forall x | x in segments :: x in repr)
    && Distinct([allocs] + segments) && Linked([allocs] + segments)
  }

  /** link_insert of a new header before `allocs`: it becomes the last segment of the ring. */
  method AppendSegment(link: Link, allocs: Link, ghost segments: seq<Link>, ghost repr: set<Link>)
    requires RingIn(allocs, segments, repr) && link !in repr
    modifies link, repr
    ensures RingIn(allocs, segments + [link], repr + {link})
  {
    ghost var ring := [allocs] + segments;
    assert link !in ring;
    InsertLast(link, allocs, ring);
    AppendedDistinct(ring, link);
    assert ring + [link] == [allocs] + (segments + [link]);
  }

  /** link_remove of `segments[k]`, the header of the `k`-th segment of the ring hanging off `allocs`. */
  method UnlinkSegment(link: Link, ghost allocs: Link, ghost segments: seq<Link>, ghost k: nat, ghost repr: set<Link>)
    requires RingIn(allocs, segments, repr) && k < |segments| && segments[k] == link
    modifies repr
    ensures RingIn(allocs, segments[..k] + segments[k + 1..], repr)
  {
    ghost var ring := [allocs] + segments;
    ghost var after := if k + 2 == |ring| then 0 else k + 2;
    assert ring[k + 1] == link && ring[k] in repr && ring[after] in repr;
    RemovedDistinct(ring, k + 1);
    ConsRemove(allocs, segments, k);
    RemoveAt(link, ring, k + 1, ring[k], ring[after]);
    RemovedWithin(segments, k, repr);
  }

  /** struct region, without its lock. */
  class Region {
    var start: seq<byte>
    const allocs: Link
    const size: nat
    const align: nat
    const alignAlloc: nat
    const deltaAlloc: nat
    /** The allocated segments' headers, in ring order after `allocs`. */
    ghost var segments: seq<Link>
    /** The user bytes of each allocated segment, in the order of `segments`. */
    ghost var contents: seq<seq<byte>>
    /** Every link the ring has held; the ring's links are among them. */
    ghost var repr: set<Link>

    /** The ring hanging off `allocs` holds exactly the allocated segments' headers, in order. */
    ghost predicate Valid()
      reads this, repr
    {
      && RingIn(allocs, segments, repr)
      && |contents| == |segments|
      && alignAlloc == AlignAlloc(align) && deltaAlloc == DeltaAlloc(alignAlloc)
    }

    /** The successful path of tm_create: zeroed shared memory and an empty ring. */
    constructor (size: nat, align: nat)
      ensures Valid() && fresh(repr) && segments == [] && contents == []
      ensures this.size == size && this.align == align && start == Zeros(size)
      ensures alignAlloc == AlignAlloc(align) && deltaAlloc == DeltaAlloc(alignAlloc)
    {
      var sentinel := new Link();
      this.size := size;
      this.align := align;
      alignAlloc := AlignAlloc(align);
      deltaAlloc := DeltaAlloc(AlignAlloc(align));
      allocs := sentinel;
      start := Zeros(size);
      segments := [];
      contents := [];
      repr := {sentinel};
      new;
      LinkReset(allocs);
      assert [allocs] + segments == [allocs];
    }

    /**
     * tm_create: `available` is whether the region's allocation, the aligned allocation of the
     * shared memory and the lock's initialisation all succeed; if any fails there is no region.
     */
    static method Create(size: nat, align: nat, available: bool) returns (r: Region?)
      ensures !available <==> r == null
      ensures r != null ==> && fresh(r) && fresh(r.repr) && r.Valid()
                            && r.segments == [] && r.contents == []
                            && r.size == size && r.align == align && r.start == Zeros(size)
                            && r.alignAlloc == AlignAlloc(align) && r.deltaAlloc == DeltaAlloc(r.alignAlloc)
    {
      if !available {
        return null;
      }
      r := new Region(size, align);
    }

    /**
     * tm_alloc: `available` is whether posix_memalign succeeds.  On success the new header goes
     * last in the ring, just before `allocs`, its `size` user bytes are zeroed, and the address
     * handed back is `delta_alloc` bytes past the header.
     */
    method Alloc(size: nat, available: bool) returns (r: AllocResult)
      requires Valid()
      modifies this, repr
      ensures start == old(start)
      ensures Valid()
      ensures !available ==> r == NoMem && unchanged(this) && unchanged(repr)
      ensures available ==> && r.Success? && fresh(r.target.block) && r.target.offset == deltaAlloc
                            && repr == old(repr) + {r.target.block}
                            && segments == old(segments) + [r.target.block]
                            && contents == old(contents) + [Zeros(size)]
    {
      if !available {
        return NoMem;
      }
      var segment := new Link();
      AppendSegment(segment, allocs, segments, repr);
      segments := segments + [segment];
      contents := contents + [Zeros(size)];
      repr := repr + {segment};
      r := Success(Ptr(segment, deltaAlloc));
    }

    /**
     * The ring part of tm_free and of each round of tm_destroy: `link_remove` of the header of
     * the `k`-th allocated segment; its bytes are released with it.
     */
    method Unlink(link: Link, ghost k: nat)
      requires Valid() && k < |segments| && segments[k] == link
      modifies this, repr
      ensures start == old(start)
      ensures Valid() && repr == old(repr)
      ensures segments == old(segments)[..k] + old(segments)[k + 1..]
      ensures contents == old(contents)[..k] + old(contents)[k + 1..]
    {
      ghost var segs := segments;
      segments := segs[..k] + segs[k + 1..];
      contents := contents[..k] + contents[k + 1..];
      UnlinkSegment(link, allocs, segs, k, repr);
    }

    /**
     * tm_free: step back `delta_alloc` bytes from the user address to the header and remove it
     * from the ring; its bytes are released.
     */
    method Free(target: Ptr) returns (ok: bool, ghost k: nat)
      requires Valid() && target.block in segments && target.offset == deltaAlloc
      modifies this, repr
      ensures start == old(start)
      ensures Valid() && ok && repr == old(repr)
      ensures k < |old(segments)| && old(segments)[k] == target.block
      ensures segments == old(segments)[..k] + old(segments)[k + 1..]
      ensures contents == old(contents)[..k] + old(contents)[k + 1..]
    {
      var header := Ptr(target.block, target.offset - deltaAlloc);
      assert header.offset == 0;
      k :| 0 <= k < |segments| && segments[k] == header.block;
      Unlink(header.block, k);
      ok := true;
    }

    /**
     * tm_destroy's loop: remove and free the segment after `allocs` until `allocs` is alone;
     * it goes round once per allocated segment.
     */
    method Destroy() returns (rounds: nat)
      requires Valid()
      modifies this, repr
      ensures start == old(start)
      ensures Valid() && segments == [] && contents == []
      ensures rounds == |old(segments)|
      ensures allocs.next == allocs && allocs.prev == allocs
    {
      rounds := 0;
      while allocs.next != allocs
        invariant Valid() && repr == old(repr) && start == old(start)
        invariant rounds + |segments| == |old(segments)|
        decreases |segments|
      {
        var alloc := allocs.next;
        AloneIffSelfLinked([allocs] + segments);
        assert alloc == ([allocs] + segments)[1] == segments[0];
        Unlink(alloc, 0);
        rounds := rounds + 1;
      }
      AloneIffSelfLinked([allocs] + segments);
    }

    /** Allocating a segment and freeing it again leaves the ring and the memory as they were. */
    method AllocThenFree(size: nat)
      requires Valid()
      modifies this, repr
      ensures start == old(start)
      ensures Valid() && segments == old(segments) && contents == old(contents)
    {
      ghost var segs, cont := segments, contents;
      var r := Alloc(size, true);
      ghost var b := r.target.block;
      var ok, k := Free(r.target);
      ghost var ring := [allocs] + (segs + [b]);
      assert ring[k + 1] == b == ring[|segs| + 1];
      assert k == |segs|;
      assert (segs + [b])[..k] == segs && (segs + [b])[k + 1..] == [];
      assert (cont + [Zeros(size)])[..k] == cont && (cont + [Zeros(size)])[k + 1..] == [];
    }
  }

  /** Dropping element `k` of `s` and then putting `x` in front is dropping element `k + 1` of `[x] + s`. */
  /** A client of a new region: two allocations, then tm_destroy drains exactly those two segments. */
  method DestroyAfterTwoAllocs() returns (rounds: nat)
    ensures rounds == 2
  {
    var region := new Region(64, 8);
    var first := region.Alloc(8, true);
    var second := region.Alloc(16, true);
    rounds := region.Destroy();
  }

  lemma ConsRemove<T>(x: T, s: seq<T>, k: nat)
    requires k < |s|
    ensures [x] + (s[..k] + s[k + 1..]) == ([x] + s)[..k + 1] + ([x] + s)[k + 2..]
  {
    assert ([x] + s)[..k + 1] == [x] + s[..k];
    assert ([x] + s)[k + 2..] == s[k + 1..];
  }

  /** `size` zero bytes. */
  function Zeros(size: nat): (r: seq<byte>)
    ensures |r| == size && forall i | 0 <= i < size :: r[i] == 0
  {
    seq(size, _ => 0)
  }
}
