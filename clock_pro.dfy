/** `clock_pro_cache`: a hot and a cold CLOCK list, the hands that move
    pages between them, and the usage counters. */
module ClockPro {
  import opened Wrappers
  import opened ClockLists

  datatype CacheError =
    | PageNotFound(key: int)      // "Please check clock_pro_cache::contains"
    | AllocateWithoutClaiming     // `set` on a cache that is over its size
    | BadAllocation               // `force_add_*` past `max_pages`

  class ClockProCache<V> {
    const maxPages: nat
    const mcold: ClockList<V>
    const mhot: ClockList<V>
    /** `clock_pro_stats` */
    var coldHits: nat
    var hotHits: nat
    var coldToHot: nat
    var hotToCold: nat
    var totalAllocation: nat

    /** Two distinct lists, each consistent, never holding the same key. */
    ghost predicate Valid()
      reads this, mcold, mhot
    {
      mcold != mhot && mcold.Valid() && mhot.Valid() && mcold.lookup !! mhot.lookup
    }

    /** The bound the guarded insertions keep. */
    ghost predicate Bounded()
      reads this, mcold, mhot
    {
      Size() <= maxPages
    }

    constructor (pages: nat)
      ensures Valid() && Bounded() && maxPages == pages
      ensures mcold.chunks == [] && mhot.chunks == [] && fresh(mcold) && fresh(mhot)
      ensures mcold.hand == 0 && mhot.hand == 0
      ensures coldHits == 0 && hotHits == 0 && coldToHot == 0 && hotToCold == 0 && totalAllocation == 0
    {
      maxPages := pages;
      mcold := new ClockList();
      mhot := new ClockList();
      coldHits, hotHits, coldToHot, hotToCold, totalAllocation := 0, 0, 0, 0, 0;
    }

    function Size(): (r: nat)
      reads this, mcold, mhot
      ensures r == |mhot.chunks| + |mcold.chunks|
    {
      mhot.Size() + mcold.Size()
    }

    function Contains(k: int): (r: bool)
      reads this, mcold, mhot
      requires Valid()
      ensures r <==> k in mhot.lookup || k in mcold.lookup
    {
      mhot.Contains(k) || mcold.Contains(k)
    }

    /** `get_chunk_ptr`, read only: the hot list is asked first. */
    function GetChunk(k: int): (r: Result<Chunk<V>, CacheError>)
      reads this, mcold, mhot
      requires Valid()
      ensures r.Ok? <==> Contains(k)
      ensures r.Ok? ==> r.value.key == k
      ensures r.Ok? && mhot.Contains(k) ==> r.value == mhot.chunks[mhot.IndexOf(k)]
      ensures r.Ok? && !mhot.Contains(k) ==> r.value == mcold.chunks[mcold.IndexOf(k)]
    {
      if mhot.Contains(k) then Ok(mhot.chunks[mhot.IndexOf(k)])
      else if mcold.Contains(k) then Ok(mcold.chunks[mcold.IndexOf(k)])
      else Err(PageNotFound(k))
    }

    /** `run_cold_hand`: the cold chunk under the hand leaves the cold list;
        if its bit was set it goes to the front of the hot list. */
    method RunColdHand()
      requires Valid()
      modifies mcold, mhot, this`coldToHot
      ensures Valid() && Size() <= old(Size())
      ensures old(mcold.chunks) == [] ==> mcold.chunks == [] && mhot.chunks == old(mhot.chunks) && coldToHot == old(coldToHot)
      ensures old(mcold.chunks) != [] ==>
        var p := if old(mcold.hand) == |old(mcold.chunks)| then 0 else old(mcold.hand);
        var c := old(mcold.chunks)[p];
        && mcold.chunks == RemoveAt(old(mcold.chunks), p) && mcold.hand == p
        && (c.ref ==> mhot.chunks == [c] + old(mhot.chunks) && mhot.hand == old(mhot.hand) + 1 && coldToHot == old(coldToHot) + 1)
        && (!c.ref ==> mhot.chunks == old(mhot.chunks) && mhot.hand == old(mhot.hand) && coldToHot == old(coldToHot))
    {
      ghost var p := if mcold.hand == |mcold.chunks| then 0 else mcold.hand;
      var maybeHot := mcold.HandCold();
      if maybeHot.Some? {
        coldToHot := coldToHot + 1;
        assert maybeHot.value.key in old(mcold.lookup);
        mhot.EmplaceFront(maybeHot.value);
      }
    }

    /** `run_hot_hand`: the hot list's hand demotes the first chunk it
        finds with a clear bit to the back of the cold list. */
    method RunHotHand() returns (ghost demoted: Option<Chunk<V>>)
      requires Valid()
      modifies mcold, mhot, this`hotToCold
      ensures Valid() && Size() == old(Size())
      ensures old(mhot.chunks) == [] ==> mhot.chunks == [] && demoted == None
      ensures old(mhot.chunks) != [] ==> HandHotResult(old(mhot.chunks), old(mhot.hand), mhot.chunks, mhot.lookup, mhot.hand, demoted)
      ensures demoted.None? ==> mcold.chunks == old(mcold.chunks) && mcold.hand == old(mcold.hand) && hotToCold == old(hotToCold)
      ensures demoted.Some? ==> mcold.chunks == old(mcold.chunks) + [demoted.value] && hotToCold == old(hotToCold) + 1
      ensures demoted.Some? ==> mcold.hand == if old(mcold.hand) == |old(mcold.chunks)| then |mcold.chunks| else old(mcold.hand)
    {
      var maybeCold := mhot.HandHot();
      if maybeCold.Some? {
        hotToCold := hotToCold + 1;
        mcold.EmplaceBack(maybeCold.value);
      }
      demoted := maybeCold;
    }

    /** `get_page`: a hit sets the chunk's bit and counts against the list
        it was found in, the hot one first; a miss throws. */
    method GetPage(k: int) returns (r: Result<Chunk<V>, CacheError>)
      requires Valid()
      modifies mcold`chunks, mhot`chunks, this`hotHits, this`coldHits
      ensures Valid() && Size() == old(Size())
      ensures r.Ok? <==> old(Contains(k))
      ensures r.Err? ==> r == Err(PageNotFound(k)) && mhot.chunks == old(mhot.chunks) && mcold.chunks == old(mcold.chunks)
      ensures r.Ok? ==> r.value == old(GetChunk(k)).value.(ref := true) && r == GetChunk(k)
      ensures old(mhot.Contains(k)) ==>
        && mhot.chunks == old(mhot.chunks)[old(mhot.IndexOf(k)) := r.value]
        && mcold.chunks == old(mcold.chunks)
        && hotHits == old(hotHits) + 1 && coldHits == old(coldHits)
      ensures !old(mhot.Contains(k)) && old(mcold.Contains(k)) ==>
        && mcold.chunks == old(mcold.chunks)[old(mcold.IndexOf(k)) := r.value]
        && mhot.chunks == old(mhot.chunks)
        && coldHits == old(coldHits) + 1 && hotHits == old(hotHits)
      ensures !old(Contains(k)) ==> hotHits == old(hotHits) && coldHits == old(coldHits)
    {
      if mhot.Contains(k) {
        hotHits := hotHits + 1;
        mhot.Touch(k);
        return Ok(mhot.chunks[mhot.IndexOf(k)]);
      }
      if mcold.Contains(k) {
        coldHits := coldHits + 1;
        mcold.Touch(k);
        return Ok(mcold.chunks[mcold.IndexOf(k)]);
      }
      r := Err(PageNotFound(k));
    }

    /** `set(k, v)` as written: the guard is `size() > max_pages`, so a
        cache holding exactly `max_pages` pages still takes one more. */
    method SetAsWritten(k: int, v: V) returns (r: Result<(), CacheError>)
      requires Valid() && !Contains(k)
      modifies mcold, this`totalAllocation
      ensures Valid()
      ensures r.Err? <==> old(Size()) > maxPages
      ensures r.Err? ==> r.error == AllocateWithoutClaiming && unchanged(mcold) && totalAllocation == old(totalAllocation)
      ensures r.Ok? ==> totalAllocation == old(totalAllocation) + 1
      ensures r.Ok? ==> mcold.chunks == old(mcold.chunks) + [Chunk(k, v, false)] && mcold.lookup == old(mcold.lookup) + {k}
      ensures r.Ok? ==> mcold.hand == if old(mcold.hand) == |old(mcold.chunks)| then |mcold.chunks| else old(mcold.hand)
    {
      if Size() > maxPages {
        return Err(AllocateWithoutClaiming);
      }
      totalAllocation := totalAllocation + 1;
      mcold.EmplaceBack(Chunk(k, v, false));
      r := Ok(());
    }

    /** `set(k, v)` corrected: refused once the cache holds `max_pages`
        pages, as the `force_add_*` guards refuse, so the bound is kept. */
    method Set(k: int, v: V) returns (r: Result<(), CacheError>)
      requires Valid() && !Contains(k)
      modifies mcold, this`totalAllocation
      ensures Valid() && (old(Bounded()) ==> Bounded())
      ensures r.Err? <==> old(Size()) + 1 > maxPages
      ensures r.Err? ==> r.error == AllocateWithoutClaiming && unchanged(mcold) && totalAllocation == old(totalAllocation)
      ensures r.Ok? ==> totalAllocation == old(totalAllocation) + 1
      ensures r.Ok? ==> mcold.chunks == old(mcold.chunks) + [Chunk(k, v, false)] && mcold.lookup == old(mcold.lookup) + {k}
      ensures r.Ok? ==> mcold.hand == if old(mcold.hand) == |old(mcold.chunks)| then |mcold.chunks| else old(mcold.hand)
    {
      if Size() + 1 > maxPages {
        return Err(AllocateWithoutClaiming);
      }
      totalAllocation := totalAllocation + 1;
      mcold.EmplaceBack(Chunk(k, v, false));
      r := Ok(());
    }

    /** `set(chunk_t &&)`: appended to the cold list with no check at all. */
    method SetChunk(c: Chunk<V>)
      requires Valid() && !Contains(c.key)
      modifies mcold
      ensures Valid() && mcold.chunks == old(mcold.chunks) + [c] && mcold.lookup == old(mcold.lookup) + {c.key}
      ensures mcold.hand == if old(mcold.hand) == |old(mcold.chunks)| then |mcold.chunks| else old(mcold.hand)
    {
      mcold.EmplaceBack(c);
    }

    /** `fix_hands` */
    method FixHands()
      requires Valid()
      modifies mhot`hand, mcold`hand
      ensures Valid()
      ensures mhot.hand == if |mhot.chunks| > 0 && old(mhot.hand) == |mhot.chunks| then 0 else old(mhot.hand)
      ensures mcold.hand == if |mcold.chunks| > 0 && old(mcold.hand) == |mcold.chunks| then 0 else old(mcold.hand)
    {
      mhot.FixHand();
      mcold.FixHand();
    }

    /** `force_add_hot_chunk`: refused when one more page would pass
        `max_pages`. */
    method ForceAddHotChunk(c: Chunk<V>) returns (r: Result<(), CacheError>)
      requires Valid() && !Contains(c.key)
      modifies mhot
      ensures Valid() && (old(Bounded()) ==> Bounded())
      ensures r.Err? <==> old(Size()) + 1 > maxPages
      ensures r.Err? ==> r.error == BadAllocation && unchanged(mhot)
      ensures r.Ok? ==> mhot.chunks == old(mhot.chunks) + [c] && mhot.lookup == old(mhot.lookup) + {c.key}
      ensures r.Ok? ==> mhot.hand == if old(mhot.hand) == |old(mhot.chunks)| then |mhot.chunks| else old(mhot.hand)
    {
      if Size() + 1 > maxPages {
        return Err(BadAllocation);
      }
      mhot.EmplaceBack(c);
      r := Ok(());
    }

    /** `force_add_cold_chunk`: the same, into the cold list. */
    method ForceAddColdChunk(c: Chunk<V>) returns (r: Result<(), CacheError>)
      requires Valid() && !Contains(c.key)
      modifies mcold
      ensures Valid() && (old(Bounded()) ==> Bounded())
      ensures r.Err? <==> old(Size()) + 1 > maxPages
      ensures r.Err? ==> r.error == BadAllocation && unchanged(mcold)
      ensures r.Ok? ==> mcold.chunks == old(mcold.chunks) + [c] && mcold.lookup == old(mcold.lookup) + {c.key}
      ensures r.Ok? ==> mcold.hand == if old(mcold.hand) == |old(mcold.chunks)| then |mcold.chunks| else old(mcold.hand)
    {
      if Size() + 1 > maxPages {
        return Err(BadAllocation);
      }
      mcold.EmplaceBack(c);
      r := Ok(());
    }
  }
}
