/** The write-ahead log's page memory: a bump allocator over one 256 KiB
    buffer, and a bucket allocator that keeps a vector of bump allocators
    per page size. Pointers are offsets from the start of a bump
    allocator's buffer; `None` is the null pointer. */
module PageAlloc {
  import opened Wrappers

  /** `kAllocatorSize`: 1 << 18 bytes, a multiple of 4096. */
  const AllocatorSize: nat := 0x4_0000

  datatype BumpError = AllocatorFull | InvalidMemoryRegion

  /** `page_cache_bump_allocator`. */
  class BumpAllocator {
    const pageSize: nat
    var freeCount: nat
    var offset: nat

    constructor (pgz: nat)
      ensures pageSize == pgz && freeCount == 0 && offset == 0
    {
      pageSize, freeCount, offset := pgz, 0, 0;
    }

    /** The offsets handed out are whole pages inside the buffer. */
    ghost predicate Valid()
      reads this
    {
      offset <= AllocatorSize && pageSize > 0 && offset % pageSize == 0 && AllocatorSize % pageSize == 0
    }

    function IsEmpty(): (r: bool)
      reads this
      ensures r <==> offset == 0
    {
      offset == 0
    }

    function IsFull(): (r: bool)
      reads this
      ensures r <==> offset == AllocatorSize
    {
      offset == AllocatorSize
    }

    /** Nothing was handed out, or as many bytes came back as the buffer
        holds. */
    function IsEvictable(): (r: bool)
      reads this
      ensures r <==> offset == 0 || freeCount == AllocatorSize
    {
      IsEmpty() || freeCount == AllocatorSize
    }

    method Evict()
      modifies this
      ensures offset == 0 && freeCount == 0 && IsEmpty() && IsEvictable()
    {
      offset := 0;
      freeCount := 0;
    }

    /** `alloc`: throws when full, otherwise hands out the page at the
        offset and moves past it. */
    method Alloc() returns (r: Result<nat, BumpError>)
      modifies this`offset
      ensures r.Err? <==> old(IsFull())
      ensures r.Err? ==> r.error == AllocatorFull && offset == old(offset)
      ensures r.Ok? ==> r.value == old(offset) && offset == old(offset) + pageSize
      ensures old(Valid()) ==> Valid() && (r.Ok? ==> r.value + pageSize <= AllocatorSize && r.value % pageSize == 0)
    {
      if IsFull() {
        return Err(AllocatorFull);
      }
      var t := offset;
      offset := offset + pageSize;
      r := Ok(t);
      if old(Valid()) {
        PageFits(pageSize, t);
        NextPageAligned(pageSize, t);
      }
    }

    /** `dealloc` as written: in a debug build the pointer must lie within
        one page of the buffer's start (`ptr > data() + page_size` throws),
        so every page from the third on is refused; a release build only
        counts the bytes. */
    method DeallocAsWritten(debug: bool, ptr: Option<int>) returns (r: Result<(), BumpError>)
      modifies this`freeCount
      ensures r.Err? <==> debug && (ptr.None? || ptr.value < 0 || ptr.value > pageSize)
      ensures r.Err? ==> r.error == InvalidMemoryRegion && freeCount == old(freeCount)
      ensures r.Ok? ==> freeCount == old(freeCount) + pageSize
    {
      if debug && (ptr.None? || ptr.value < 0 || ptr.value > pageSize) {
        return Err(InvalidMemoryRegion);
      }
      freeCount := freeCount + pageSize;
      r := Ok(());
    }

    /** `dealloc` corrected: a debug build refuses exactly the pointers that
        lie outside the buffer. */
    method Dealloc(debug: bool, ptr: Option<int>) returns (r: Result<(), BumpError>)
      modifies this`freeCount
      ensures r.Err? <==> debug && (ptr.None? || ptr.value < 0 || ptr.value >= AllocatorSize)
      ensures r.Err? ==> r.error == InvalidMemoryRegion && freeCount == old(freeCount)
      ensures r.Ok? ==> freeCount == old(freeCount) + pageSize
    {
      if debug && (ptr.None? || ptr.value < 0 || ptr.value >= AllocatorSize) {
        return Err(InvalidMemoryRegion);
      }
      freeCount := freeCount + pageSize;
      r := Ok(());
    }
  }

  /** A page starting at a multiple of the page size, below the end of a
      buffer the page size divides, ends inside it. */
  lemma PageFits(ps: nat, t: nat)
    requires ps > 0 && AllocatorSize % ps == 0 && t % ps == 0 && t < AllocatorSize
    ensures t + ps <= AllocatorSize
  {
    var k := t / ps;
    var m := AllocatorSize / ps;
    assert t == k * ps && AllocatorSize == m * ps;
    if k + 1 > m {
      assert k >= m;
      MulMono(m, k, ps);
      assert false;
    }
    MulMono(k + 1, m, ps);
  }

  lemma NextPageAligned(ps: nat, t: nat)
    requires ps > 0 && t % ps == 0
    ensures (t + ps) % ps == 0
  {
    var k := t / ps;
    assert t == k * ps;
    Distrib(k, 1, ps);
    DivModUnique(t + ps, ps, k + 1, 0);
  }

  lemma Distrib(a: int, b: int, d: int)
    ensures (a + b) * d == a * d + b * d
  {
  }

  lemma MulAtLeast(a: int, d: int)
    requires a >= 1 && d > 0
    ensures a * d >= d
  {
  }

  lemma MulMono(a: nat, b: nat, c: nat)
    requires a <= b
    ensures a * c <= b * c
  {
    Distrib(a, b - a, c);
  }

  /** The remainder is the one of any decomposition `q * d + r`. */
  lemma DivModUnique(x: int, d: int, q: int, r: int)
    requires d > 0 && 0 <= r < d && x == q * d + r
    ensures x % d == r
  {
    var q0, r0 := x / d, x % d;
    assert x == q0 * d + r0;
    if q0 < q {
      Distrib(q - q0, q0, d);
      MulAtLeast(q - q0, d);
    } else if q0 > q {
      Distrib(q0 - q, q, d);
      MulAtLeast(q0 - q, d);
    }
  }

  /** A fresh bump allocator whose page size divides the buffer hands out
      exactly `AllocatorSize / pageSize` pages, at 0, pageSize, 2 pageSize,
      ..., and then reports full. */
  method FillFresh(ps: nat) returns (pages: seq<nat>, b: BumpAllocator)
    requires ps > 0 && AllocatorSize % ps == 0
    ensures fresh(b) && b.IsFull() && b.pageSize == ps && b.freeCount == 0
    ensures |pages| == AllocatorSize / ps
    ensures forall i :: 0 <= i < |pages| ==> pages[i] == i * ps
  {
    b := new BumpAllocator(ps);
    pages := [];
    while !b.IsFull()
      invariant b.pageSize == ps && b.Valid() && b.freeCount == 0
      invariant b.offset == |pages| * ps
      invariant forall i :: 0 <= i < |pages| ==> pages[i] == i * ps
      decreases AllocatorSize - b.offset
    {
      var r := b.Alloc();
      pages := pages + [r.value];
    }
    assert AllocatorSize == |pages| * ps;
  }

  /** In a debug build `dealloc` as written refuses the third page a 4096
      allocator hands out, at offset 8192; the corrected `Dealloc` takes it. */
  method ThirdPageRefused() returns (asWritten: Result<(), BumpError>, corrected: Result<(), BumpError>)
    ensures asWritten == Err(InvalidMemoryRegion)
    ensures corrected == Ok(())
  {
    var b := new BumpAllocator(4096);
    var p0 := b.Alloc();
    var p1 := b.Alloc();
    var p2 := b.Alloc();
    assert p0 == Ok(0) && p1 == Ok(4096);
    assert p2 == Ok(8192);
    asWritten := b.DeallocAsWritten(true, Some(p2.value));
    corrected := b.Dealloc(true, Some(p2.value));
    assert corrected.Ok?;
    assert corrected.value == ();
  }

  // ---------------------------------------------------------------------
  // The bucket allocator.

  datatype BucketError =
    | CannotAllocatePageSize(sz: nat)     // `4096 % sz != 0`
    | MemoryFull                          // full even after reclamation
    | NoAllocatorForAlignment(sz: nat)    // a divisor of 4096 other than 512 and 4096

  /** `page`: where a page starts in the buffer of the allocator it came
      from, which `dispose` gives it back to. */
  datatype Page = Page(data: nat, bump: BumpAllocator)

  /** `page::dispose`: the page goes back through `dealloc` as written, so
      a debug build refuses every page that starts past the allocator's
      second one. */
  method Dispose(p: Page, debug: bool) returns (r: Result<(), BumpError>)
    modifies p.bump`freeCount
    ensures r.Err? <==> debug && p.data > p.bump.pageSize
    ensures r.Err? ==> r.error == InvalidMemoryRegion && p.bump.freeCount == old(p.bump.freeCount)
    ensures r.Ok? ==> p.bump.freeCount == old(p.bump.freeCount) + p.bump.pageSize
  {
    r := p.bump.DeallocAsWritten(debug, Some(p.data));
  }

  /** The position of the first evictable allocator of `v` at or after
      `from`, or `|v|` when there is none. */
  function FirstEvictable(v: seq<BumpAllocator>, from: nat): (r: nat)
    reads v
    requires from <= |v|
    ensures from <= r <= |v|
    ensures r < |v| ==> v[r].IsEvictable()
    ensures forall j :: from <= j < r ==> !v[j].IsEvictable()
    decreases |v| - from
  {
    if from == |v| then |v|
    else if v[from].IsEvictable() then from
    else FirstEvictable(v, from + 1)
  }

  /** `vec[i] = nullptr; swap(vec[i], vec[size - 1]); pop_back()`: the last
      element takes the place of the one dropped. */
  function SwapPop<T>(v: seq<T>, i: nat): (r: seq<T>)
    requires i < |v|
    ensures |r| == |v| - 1
    ensures multiset(r) + multiset{v[i]} == multiset(v)
    ensures forall j :: 0 <= j < |r| && j != i ==> r[j] == v[j]
    ensures i < |r| ==> r[i] == v[|v| - 1]
  {
    var last := |v| - 1;
    assert v == v[..last] + [v[last]];
    if i == last then v[..last]
    else
      assert v[..last] == v[..i] + [v[i]] + v[i + 1..last];
      assert v[..last][i := v[last]] == v[..i] + [v[last]] + v[i + 1..last];
      v[..last][i := v[last]]
  }

  ghost predicate NoEvictable(v: seq<BumpAllocator>)
    reads v
  {
    forall j :: 0 <= j < |v| ==> !v[j].IsEvictable()
  }

  /** `reclaim_one`: the first evictable allocator is dropped; nothing
      changes when there is none. */
  method ReclaimOne(v: seq<BumpAllocator>) returns (w: seq<BumpAllocator>)
    ensures FirstEvictable(v, 0) == |v| ==> w == v && NoEvictable(v)
    ensures FirstEvictable(v, 0) < |v| ==> w == SwapPop(v, FirstEvictable(v, 0))
  {
    var i := 0;
    while i < |v|
      invariant 0 <= i <= |v| && FirstEvictable(v, 0) == FirstEvictable(v, i)
    {
      if v[i].IsEvictable() {
        w := v[..|v| - 1];
        if i < |v| - 1 {
          w := w[i := v[|v| - 1]];
        }
        return;
      }
      i := i + 1;
    }
    w := v;
  }

  /** `page_cache_bucket_allocator`. */
  class BucketAllocator {
    const minBytes: nat
    var maxBytes: nat
    var alloc512: seq<BumpAllocator>
    var alloc4096: seq<BumpAllocator>

    /** Every allocator of a vector has that vector's page size and hands
        out whole pages inside its buffer. */
    ghost predicate Valid()
      reads this, alloc512, alloc4096
    {
      AllOfSize(alloc512, 512) && AllOfSize(alloc4096, 4096)
    }

    constructor (minB: nat, maxB: nat)
      ensures Valid() && minBytes == minB && maxBytes == maxB && alloc512 == [] && alloc4096 == []
    {
      minBytes, maxBytes := minB, maxB;
      alloc512, alloc4096 := [], [];
    }

    /** `used_bytes`: every allocator owns a whole buffer, used or not. */
    function UsedBytes(): (r: nat)
      reads this
      ensures r == (|alloc512| + |alloc4096|) * AllocatorSize
    {
      (|alloc512| + |alloc4096|) * AllocatorSize
    }

    method SetMaxBytes(newMax: nat)
      modifies this`maxBytes
      ensures maxBytes == newMax
    {
      maxBytes := newMax;
    }

    /** `get_alloc` cannot add an allocator for `sz`: the last one of the
        size's vector is full and the budget is spent. */
    ghost predicate OutOfMemory(sz: nat)
      reads this, alloc512, alloc4096
    {
      var v := if sz == 512 then alloc512 else alloc4096;
      (sz == 512 || sz == 4096) && |v| > 0 && v[|v| - 1].IsFull() && UsedBytes() >= maxBytes
    }

    /** `p` is a page of `sz` bytes just handed out by the last allocator of
        the size's vector: aligned, inside the buffer, and the allocator's
        offset is right past it. */
    ghost predicate HandsOut(sz: nat, p: Page)
      reads this, alloc512, alloc4096, p.bump
    {
      var v := if sz == 512 then alloc512 else alloc4096;
      && (sz == 512 || sz == 4096) && |v| > 0 && p.bump == v[|v| - 1] && p.bump.pageSize == sz
      && p.data % sz == 0 && p.data + sz <= AllocatorSize && p.bump.offset == p.data + sz
    }

    /** `alloc(sz)` as written: a size that does not divide 4096 is refused
        before anything else; over budget the allocator calls `reclaim`,
        which as written drops nothing; then the vector for 512 or 4096
        hands out a page from its last allocator, adding one when it has
        none or the last one is full (refused if over budget). Any other
        divisor of 4096 is refused last. Only the size's vector changes,
        by at most one fresh allocator, and only the allocator the page
        comes from. */
    method Alloc(sz: nat) returns (r: Result<Page, BucketError>)
      requires Valid() && sz > 0
      modifies this`alloc512, this`alloc4096, alloc512, alloc4096
      ensures Valid()
      ensures r == Err(CannotAllocatePageSize(sz)) <==> 4096 % sz != 0
      ensures r == Err(NoAllocatorForAlignment(sz)) <==> 4096 % sz == 0 && sz != 512 && sz != 4096
      ensures r == Err(MemoryFull) <==> old(OutOfMemory(sz))
      ensures r.Err? ==> r.error in {CannotAllocatePageSize(sz), MemoryFull, NoAllocatorForAlignment(sz)}
      ensures r.Ok? ==> HandsOut(sz, r.value)
      ensures r.Ok? ==>
        var (v, v0) := if sz == 512 then (alloc512, old(alloc512)) else (alloc4096, old(alloc4096));
        v == v0 || (v == v0 + [r.value.bump] && fresh(r.value.bump))
      ensures r.Err? || sz != 512 ==> alloc512 == old(alloc512)
      ensures r.Err? || sz != 4096 ==> alloc4096 == old(alloc4096)
      ensures forall b :: (b in old(alloc512) || b in old(alloc4096)) && (r.Err? || b != r.value.bump) ==> unchanged(b)
    {
      if 4096 % sz != 0 {
        return Err(CannotAllocatePageSize(sz));
      }
      if UsedBytes() >= maxBytes {
        ReclaimAsWritten();
      }
      r := AllocAfterReclaim(sz);
    }

    /** `alloc(sz)` with the corrected `reclaim`: as `Alloc`, except that
        over budget the evictable allocators are dropped first. */
    method AllocReclaiming(sz: nat) returns (r: Result<Page, BucketError>)
      requires Valid() && sz > 0
      modifies this`alloc512, this`alloc4096, alloc512, alloc4096
      ensures Valid()
      ensures r == Err(CannotAllocatePageSize(sz)) <==> 4096 % sz != 0
      ensures 4096 % sz != 0 ==> alloc512 == old(alloc512) && alloc4096 == old(alloc4096)
      ensures r == Err(NoAllocatorForAlignment(sz)) <==> 4096 % sz == 0 && sz != 512 && sz != 4096
      ensures r.Err? ==> r.error in {CannotAllocatePageSize(sz), MemoryFull, NoAllocatorForAlignment(sz)}
      ensures r == Err(MemoryFull) ==> OutOfMemory(sz)
      ensures r.Ok? ==> HandsOut(sz, r.value)
      ensures UsedBytes() <= old(UsedBytes()) + AllocatorSize
    {
      if 4096 % sz != 0 {
        return Err(CannotAllocatePageSize(sz));
      }
      if UsedBytes() >= maxBytes {
        Reclaim();
        SubsetOfOld(old(alloc512), alloc512);
        SubsetOfOld(old(alloc4096), alloc4096);
      }
      r := AllocAfterReclaim(sz);
    }

    /** The switch on the page size that ends `alloc`. */
    method AllocAfterReclaim(sz: nat) returns (r: Result<Page, BucketError>)
      requires Valid() && sz > 0 && 4096 % sz == 0
      modifies this`alloc512, this`alloc4096, alloc512, alloc4096
      ensures Valid()
      ensures r == Err(NoAllocatorForAlignment(sz)) <==> sz != 512 && sz != 4096
      ensures r == Err(MemoryFull) <==> old(OutOfMemory(sz))
      ensures r == Err(MemoryFull) ==> OutOfMemory(sz)
      ensures r.Err? ==> r.error in {MemoryFull, NoAllocatorForAlignment(sz)}
      ensures r.Ok? ==> HandsOut(sz, r.value)
      ensures r.Ok? ==>
        var (v, v0) := if sz == 512 then (alloc512, old(alloc512)) else (alloc4096, old(alloc4096));
        v == v0 || (v == v0 + [r.value.bump] && fresh(r.value.bump))
      ensures r.Err? || sz != 512 ==> alloc512 == old(alloc512)
      ensures r.Err? || sz != 4096 ==> alloc4096 == old(alloc4096)
      ensures forall b :: (b in old(alloc512) || b in old(alloc4096)) && (r.Err? || b != r.value.bump) ==> unchanged(b)
      ensures UsedBytes() <= old(UsedBytes()) + AllocatorSize
    {
      if sz == 512 {
        var g := AllocPage(alloc512, 512, |alloc4096|, maxBytes);
        if g.Err? {
          return Err(g.error);
        }
        alloc512 := g.value.0;
        r := Ok(g.value.1);
      } else if sz == 4096 {
        var g := AllocPage(alloc4096, 4096, |alloc512|, maxBytes);
        if g.Err? {
          return Err(g.error);
        }
        alloc4096 := g.value.0;
        r := Ok(g.value.1);
      } else {
        return Err(NoAllocatorForAlignment(sz));
      }
    }

    /** `reclaim` as written: within budget it returns at once; over budget
        the `for` loop's first test of `i < max && used_bytes() <=
        max_bytes_` already fails, so its body never runs and no allocator
        is dropped. */
    method ReclaimAsWritten()
      modifies this`alloc512, this`alloc4096
      ensures alloc512 == old(alloc512) && alloc4096 == old(alloc4096)
    {
      if UsedBytes() <= maxBytes {
        return;
      }
      var max := if |alloc512| < |alloc4096| then |alloc4096| else |alloc512|;
      ReclaimAsWrittenNeverIterates(UsedBytes(), maxBytes, max);
      if ReclaimGuardAsWritten(UsedBytes(), maxBytes, 0, max) {
        assert false;
      }
    }

    /** `reclaim` corrected: the loop runs while the allocator is over its
        budget. Every allocator it drops was evictable, and it stops under
        budget or with nothing evictable left. */
    method Reclaim()
      requires Valid()
      modifies this`alloc512, this`alloc4096
      ensures Valid()
      ensures DropsOnlyEvictable(old(alloc512), alloc512) && DropsOnlyEvictable(old(alloc4096), alloc4096)
      ensures |alloc512| <= |old(alloc512)| && |alloc4096| <= |old(alloc4096)|
      ensures old(UsedBytes()) <= maxBytes ==> alloc512 == old(alloc512) && alloc4096 == old(alloc4096)
      ensures UsedBytes() <= maxBytes || (NoEvictable(alloc512) && NoEvictable(alloc4096))
    {
      if UsedBytes() <= maxBytes {
        DropsNothing(alloc512);
        DropsNothing(alloc4096);
      } else {
        alloc512, alloc4096 := ReclaimLoop(alloc512, alloc4096, maxBytes);
      }
    }
  }

  /** `get_alloc`: the last allocator of `v`, after adding a fresh one when
      `v` is empty or its last one is full; the second needs the allocator
      to be under budget (`others` allocators of the other size count too). */
  method GetAlloc(v: seq<BumpAllocator>, ps: nat, others: nat, maxBytes: nat)
    returns (r: Result<(seq<BumpAllocator>, BumpAllocator), BucketError>)
    requires AllOfSize(v, ps) && (ps == 512 || ps == 4096)
    ensures r.Err? <==> |v| > 0 && v[|v| - 1].IsFull() && (|v| + others) * AllocatorSize >= maxBytes
    ensures r.Err? ==> r.error == MemoryFull
    ensures r.Ok? ==>
      var (w, a) := r.value;
      && AllOfSize(w, ps) && |w| > 0 && a == w[|w| - 1] && !a.IsFull()
      && (w == v || (w == v + [a] && fresh(a)))
  {
    var w := v;
    if |w| == 0 {
      var b := new BumpAllocator(ps);
      w := w + [b];
    }
    var a := w[|w| - 1];
    if a.IsFull() {
      if (|w| + others) * AllocatorSize >= maxBytes {
        return Err(MemoryFull);
      }
      var b := new BumpAllocator(ps);
      w := w + [b];
      a := b;
    }
    r := Ok((w, a));
  }

  /** The page `get_alloc(vec, ps)->alloc()` hands out. */
  method AllocPage(v: seq<BumpAllocator>, ps: nat, others: nat, maxBytes: nat)
    returns (r: Result<(seq<BumpAllocator>, Page), BucketError>)
    requires AllOfSize(v, ps) && (ps == 512 || ps == 4096)
    modifies v
    ensures r.Err? <==> |v| > 0 && old(v[|v| - 1].IsFull()) && (|v| + others) * AllocatorSize >= maxBytes
    ensures r.Err? ==> r.error == MemoryFull && unchanged(v)
    ensures r.Ok? ==>
      var (w, p) := r.value;
      && AllOfSize(w, ps) && |w| > 0 && p.bump == w[|w| - 1] && p.bump.pageSize == ps
      && p.data % ps == 0 && p.data + ps <= AllocatorSize && p.bump.offset == p.data + ps
      && (w == v || (w == v + [p.bump] && fresh(p.bump)))
      && forall b :: b in v && b != p.bump ==> unchanged(b)
  {
    var g := GetAlloc(v, ps, others, maxBytes);
    if g.Err? {
      return Err(g.error);
    }
    var (w, a) := g.value;
    assert a in v || fresh(a) by {
      if w == v {
        assert a in v;
      }
    }
    var d := a.Alloc();
    r := Ok((w, Page(d.value, a)));
  }

  lemma SubsetOfOld(v: seq<BumpAllocator>, w: seq<BumpAllocator>)
    requires multiset(w) <= multiset(v)
    ensures forall j :: 0 <= j < |w| ==> w[j] in v
  {
    forall j | 0 <= j < |w|
      ensures w[j] in v
    {
      assert w[j] in multiset(w);
    }
  }

  /** The allocators of a vector all have page size `ps` and are valid. */
  ghost predicate AllOfSize(v: seq<BumpAllocator>, ps: nat)
    reads v
  {
    forall j :: 0 <= j < |v| ==> v[j].pageSize == ps && v[j].Valid()
  }

  /** `w` is `v` with some evictable allocators dropped and the rest in any
      order. */
  ghost predicate DropsOnlyEvictable(v: seq<BumpAllocator>, w: seq<BumpAllocator>)
    reads v
  {
    multiset(w) <= multiset(v) && forall b :: b in multiset(v) - multiset(w) ==> b.IsEvictable()
  }

  /** The loop of the corrected `reclaim` over the two vectors: at most
      `max(size512, size4096)` rounds of one `reclaim_one` per vector, while
      over budget. */
  method ReclaimLoop(a0: seq<BumpAllocator>, b0: seq<BumpAllocator>, maxBytes: nat)
    returns (a: seq<BumpAllocator>, b: seq<BumpAllocator>)
    requires AllOfSize(a0, 512) && AllOfSize(b0, 4096)
    ensures AllOfSize(a, 512) && AllOfSize(b, 4096)
    ensures DropsOnlyEvictable(a0, a) && DropsOnlyEvictable(b0, b)
    ensures |a| <= |a0| && |b| <= |b0|
    ensures (|a| + |b|) * AllocatorSize <= maxBytes || (NoEvictable(a) && NoEvictable(b))
  {
    a, b := a0, b0;
    var i := 0;
    var max := if |a| < |b| then |b| else |a|;
    while ReclaimGuard((|a| + |b|) * AllocatorSize, maxBytes, i, max)
      invariant 0 <= i <= max && |a0| <= max && |b0| <= max
      invariant AllOfSize(a, 512) && AllOfSize(b, 4096)
      invariant DropsOnlyEvictable(a0, a) && DropsOnlyEvictable(b0, b)
      invariant |a| <= |a0| && |b| <= |b0|
      invariant NoEvictable(a) || |a| + i <= |a0|
      invariant NoEvictable(b) || |b| + i <= |b0|
      decreases max - i
    {
      a := ReclaimStep(a, a0, 512);
      b := ReclaimStep(b, b0, 4096);
      i := i + 1;
    }
  }

  /** The condition of `reclaim`'s loop as written:
      `i < max && used_bytes() <= max_bytes_`. */
  function ReclaimGuardAsWritten(used: nat, maxBytes: nat, i: nat, max: nat): (r: bool)
  {
    i < max && used <= maxBytes
  }

  /** As written, the loop is reached only once `used_bytes() > max_bytes_`
      (the early return) and no iteration changes either, so its body never
      runs and `reclaim` never reclaims. */
  lemma ReclaimAsWrittenNeverIterates(used: nat, maxBytes: nat, max: nat)
    requires used > maxBytes
    ensures !ReclaimGuardAsWritten(used, maxBytes, 0, max)
  {
  }

  /** A full 512 allocator none of whose pages came back. */
  method HeldAllocator() returns (b: BumpAllocator)
    ensures fresh(b) && b.pageSize == 512 && b.Valid() && b.IsFull() && !b.IsEvictable()
  {
    var pages;
    pages, b := FillFresh(512);
  }

  /** A full 4096 allocator all of whose pages came back. */
  method ReturnedAllocator() returns (b: BumpAllocator)
    ensures fresh(b) && b.pageSize == 4096 && b.Valid() && b.IsFull() && b.IsEvictable()
  {
    var pages;
    pages, b := FillFresh(4096);
    var k := 0;
    while k < |pages|
      invariant 0 <= k <= |pages|
      invariant b.IsFull() && b.pageSize == 4096 && b.freeCount == k * 4096
    {
      var d := b.DeallocAsWritten(false, Some(pages[k]));
      k := k + 1;
    }
  }

  /** A bucket allocator with a budget of one buffer that holds a held 512
      allocator and a returned 4096 one. */
  method OverBudgetBucket() returns (bucket: BucketAllocator, held: BumpAllocator, returned: BumpAllocator)
    ensures fresh(bucket) && fresh(held) && fresh(returned)
    ensures bucket.Valid() && bucket.maxBytes == AllocatorSize
    ensures bucket.alloc512 == [held] && bucket.alloc4096 == [returned]
    ensures held.IsFull() && !held.IsEvictable() && returned.IsFull() && returned.IsEvictable()
  {
    held := HeldAllocator();
    returned := ReturnedAllocator();
    bucket := new BucketAllocator(0, AllocatorSize);
    bucket.alloc512, bucket.alloc4096 := [held], [returned];
  }

  /** As written, an over-budget `alloc` keeps an allocator it could drop:
      with a budget of one buffer, a full 512 allocator none of whose pages
      came back and a full 4096 allocator all of whose pages came back,
      `alloc(4096)` runs out of memory. */
  method EvictableKeptAsWritten() returns (r: Result<Page, BucketError>)
    ensures r == Err(MemoryFull)
  {
    var bucket, held, returned := OverBudgetBucket();
    r := bucket.Alloc(4096);
  }

  /** From the same state the corrected `reclaim` drops the 4096 allocator
      whose pages all came back, and the page comes from a fresh one. */
  method EvictableDroppedCorrected() returns (r: Result<Page, BucketError>)
    ensures r.Ok?
  {
    var bucket, held, returned := OverBudgetBucket();
    bucket.Reclaim();
    KeptUnlessEvictable([held], bucket.alloc512, held);
    DropsTheOnlyOne(returned, bucket.alloc4096);
    r := bucket.AllocAfterReclaim(4096);
  }

  /** An allocator that is not evictable survives a reclamation. */
  lemma KeptUnlessEvictable(v: seq<BumpAllocator>, w: seq<BumpAllocator>, x: BumpAllocator)
    requires DropsOnlyEvictable(v, w) && x in v && !x.IsEvictable()
    ensures x in w
  {
  }

  /** Reclaiming from a vector holding one evictable allocator, until no
      evictable one is left, empties it. */
  lemma DropsTheOnlyOne(x: BumpAllocator, w: seq<BumpAllocator>)
    requires DropsOnlyEvictable([x], w) && x.IsEvictable() && NoEvictable(w)
    ensures w == []
  {
  }

  /** The condition corrected: go on while over budget. */
  function ReclaimGuard(used: nat, maxBytes: nat, i: nat, max: nat): (r: bool)
    ensures used > maxBytes && i < max ==> r != ReclaimGuardAsWritten(used, maxBytes, i, max)
  {
    i < max && used > maxBytes
  }

  /** One `reclaim_one` inside the corrected `reclaim` loop, with what the
      loop keeps about the vector it started from. */
  method ReclaimStep(v: seq<BumpAllocator>, ghost v0: seq<BumpAllocator>, ghost ps: nat) returns (w: seq<BumpAllocator>)
    requires AllOfSize(v, ps) && DropsOnlyEvictable(v0, v)
    ensures AllOfSize(w, ps) && DropsOnlyEvictable(v0, w)
    ensures NoEvictable(v) ==> w == v
    ensures !NoEvictable(v) ==> |w| + 1 == |v|
    ensures |w| <= |v|
  {
    w := ReclaimOne(v);
    if FirstEvictable(v, 0) < |v| {
      var k := FirstEvictable(v, 0);
      DropsOneMore(v0, v, w, v[k]);
      assert forall j :: 0 <= j < |w| ==> w[j] == v[j] || w[j] == v[|v| - 1];
    }
  }

  lemma DropsNothing(v: seq<BumpAllocator>)
    ensures DropsOnlyEvictable(v, v)
  {
    assert multiset(v) - multiset(v) == multiset{};
  }

  /** Dropping one more evictable allocator keeps `DropsOnlyEvictable`. */
  lemma DropsOneMore(v0: seq<BumpAllocator>, v: seq<BumpAllocator>, w: seq<BumpAllocator>, x: BumpAllocator)
    requires DropsOnlyEvictable(v0, v) && x.IsEvictable() && multiset(w) + multiset{x} == multiset(v)
    ensures DropsOnlyEvictable(v0, w)
  {
    assert multiset(v0) - multiset(w) == (multiset(v0) - multiset(v)) + multiset{x};
  }
}
