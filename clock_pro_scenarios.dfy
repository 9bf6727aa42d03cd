/** The hand movements of the clock-pro slide-share test, stated on the
    lists the test builds. */
module ClockProScenarios {
  import opened Wrappers
  import opened ClockLists
  import opened ClockPro

  /** A test page: its value is its key. */
  function Page(k: int, ref: bool): Chunk<int>
  {
    Chunk(k, k, ref)
  }

  /** The hot list before the last `run_hot_hand`: 4 was promoted in front,
      24 demoted, and 23 and 22 are referenced; the hand stands on 23. */
  function HotBeforeLastRun(): seq<Chunk<int>>
  {
    [Page(4, true), Page(23, true), Page(22, true), Page(21, false), Page(20, false), Page(19, true),
     Page(18, false), Page(17, false), Page(15, false), Page(13, false), Page(9, false), Page(2, false)]
  }

  /** The hot list before the first `run_hot_hand`: 4 has just been
      promoted to the front and the hand stands on 24, whose bit is clear. */
  function HotBeforeFirstRun(): seq<Chunk<int>>
  {
    [Page(4, true), Page(24, false), Page(23, true), Page(22, true), Page(21, false), Page(20, false),
     Page(19, true), Page(18, false), Page(17, false), Page(15, false), Page(13, false), Page(9, false),
     Page(2, false)]
  }

  /** The first `run_hot_hand` of the test demotes 24 without a step and
      leaves the list the last run starts from, the hand still on 23. */
  lemma {:induction false} FirstHotRunDemotes24(chunks: seq<Chunk<int>>, lookup: set<int>, hand: nat, ret: Option<Chunk<int>>)
    requires HandHotResult(HotBeforeFirstRun(), 1, chunks, lookup, hand, ret)
    ensures ret == Some(Page(24, false)) && hand == 1
    ensures chunks == HotBeforeLastRun()
    ensures 24 !in lookup
  {
    var a := HotBeforeFirstRun();
    assert !a[1].ref;
    assert ret.Some?;
    var q :| 0 <= q < |a| && HotScanFound(a, 1, q, ret.value)
      && chunks == RemoveAt(Cleared(a, 1, Offset(q, 1, |a|)), q)
      && lookup == Keys(a) - {ret.value.key} && hand == q;
    assert HotScanFound(a, 1, 1, a[1]);
    HotScanUnique(a, 1, q, 1, ret.value, a[1]);
    assert Offset(1, 1, |a|) == 0;
    TwentyFourRemoved();
  }

  /** Nothing is cleared on the way to 24, and removing it leaves the list
      of the last run. */
  lemma TwentyFourRemoved()
    ensures RemoveAt(Cleared(HotBeforeFirstRun(), 1, 0), 1) == HotBeforeLastRun()
  {
    var a := HotBeforeFirstRun();
    assert Cleared(a, 1, 0) == a;
    assert RemoveAt(a, 1) == HotBeforeLastRun();
  }

  /** The scan of the last `run_hot_hand` stops at 21, two steps from the
      hand. */
  lemma {:induction false} LastHotRunStop(chunks: seq<Chunk<int>>, lookup: set<int>, hand: nat, ret: Option<Chunk<int>>)
    requires HandHotResult(HotBeforeLastRun(), 1, chunks, lookup, hand, ret)
    ensures ret == Some(Page(21, false)) && hand == 3
    ensures chunks == RemoveAt(Cleared(HotBeforeLastRun(), 1, 2), 3)
    ensures lookup == Keys(HotBeforeLastRun()) - {21}
  {
    var a := HotBeforeLastRun();
    assert !a[3].ref;
    var q :| 0 <= q < |a| && HotScanFound(a, 1, q, ret.value)
      && chunks == RemoveAt(Cleared(a, 1, Offset(q, 1, |a|)), q)
      && lookup == Keys(a) - {ret.value.key} && hand == q;
    assert HotScanFound(a, 1, 3, a[3]) by {
      forall i | 0 <= i < |a| && Offset(i, 1, |a|) < Offset(3, 1, |a|)
        ensures a[i].ref
      {
        assert i == 1 || i == 2;
      }
    }
    HotScanUnique(a, 1, q, 3, ret.value, a[3]);
  }

  /** What the last `run_hot_hand` leaves in the hot list. */
  lemma LastHotRunList()
    ensures RemoveAt(Cleared(HotBeforeLastRun(), 1, 2), 3)
      == [Page(4, true), Page(23, false), Page(22, false), Page(20, false), Page(19, true),
          Page(18, false), Page(17, false), Page(15, false), Page(13, false), Page(9, false), Page(2, false)]
  {
  }

  /** The last `run_hot_hand` of the test: the hand clears the bits of 23
      and 22, stops at 21, the first page whose bit is clear, and demotes
      it; the hand is left on 20. */
  lemma LastHotRunClearsTwo(chunks: seq<Chunk<int>>, lookup: set<int>, hand: nat, ret: Option<Chunk<int>>)
    requires HandHotResult(HotBeforeLastRun(), 1, chunks, lookup, hand, ret)
    ensures ret == Some(Page(21, false)) && hand == 3
    ensures chunks == [Page(4, true), Page(23, false), Page(22, false), Page(20, false), Page(19, true),
                       Page(18, false), Page(17, false), Page(15, false), Page(13, false), Page(9, false), Page(2, false)]
    ensures 21 !in lookup && 23 in lookup && 22 in lookup
  {
    LastHotRunStop(chunks, lookup, hand, ret);
    LastHotRunList();
    LastRunKeys();
  }

  lemma LastRunKeys()
    ensures 23 in Keys(HotBeforeLastRun()) && 22 in Keys(HotBeforeLastRun())
  {
    var a := HotBeforeLastRun();
    assert a[1].key in Keys(a) && a[2].key in Keys(a);
  }

  /** The first `run_cold_hand` of the test, on the cold list 5, 4, 3, 1
      after `get_page(4)`: the hand wraps to 5, whose bit is clear, and 5
      leaves the cache. */
  method EvictFive(c: ClockProCache<int>)
    requires c.Valid() && c.mcold.hand == 4
    requires c.mcold.chunks == [Page(5, false), Page(4, true), Page(3, false), Page(1, false)]
    modifies c.mcold, c.mhot, c`coldToHot
    ensures c.Valid() && !c.Contains(5)
    ensures c.mcold.chunks == [Page(4, true), Page(3, false), Page(1, false)] && c.mcold.hand == 0
    ensures c.mhot.chunks == old(c.mhot.chunks) && c.coldToHot == old(c.coldToHot)
  {
    c.RunColdHand();
    assert c.mcold.chunks == RemoveAt(old(c.mcold.chunks), 0);
    assert !c.mhot.Contains(5);
  }

  /** The second `run_cold_hand`, after `set(25)` and `fix_hands`: the hand
      is on 4, whose bit `get_page` set, so 4 moves to the front of the hot
      list and the hot hand keeps pointing at 24. */
  method PromoteFour(c: ClockProCache<int>)
    requires c.Valid() && c.mcold.hand == 0 && c.mhot.hand == 0
    requires c.mcold.chunks == [Page(4, true), Page(3, false), Page(1, false), Page(25, false)]
    requires c.mhot.chunks == HotBeforeFirstRun()[1..]
    modifies c.mcold, c.mhot, c`coldToHot
    ensures c.Valid() && c.mhot.Contains(4)
    ensures c.mhot.chunks == HotBeforeFirstRun() && c.mhot.hand == 1
    ensures c.mcold.chunks == [Page(3, false), Page(1, false), Page(25, false)] && c.mcold.hand == 0
    ensures c.coldToHot == old(c.coldToHot) + 1
  {
    c.RunColdHand();
    assert c.mcold.chunks == RemoveAt(old(c.mcold.chunks), 0);
    assert c.mhot.chunks[0].key == 4;
  }

  /** The first `run_hot_hand`: 24 goes to the back of the cold list. */
  method DemoteTwentyFour(c: ClockProCache<int>)
    requires c.Valid() && c.mhot.hand == 1 && c.mcold.hand == 0
    requires c.mhot.chunks == HotBeforeFirstRun()
    requires c.mcold.chunks == [Page(3, false), Page(1, false), Page(25, false)]
    modifies c.mcold, c.mhot, c`hotToCold
    ensures c.Valid() && c.mcold.Contains(24) && !c.mhot.Contains(24)
    ensures c.mhot.chunks == HotBeforeLastRun() && c.mhot.hand == 1
    ensures c.mcold.chunks == [Page(3, false), Page(1, false), Page(25, false), Page(24, false)]
    ensures c.hotToCold == old(c.hotToCold) + 1
  {
    ghost var demoted := c.RunHotHand();
    FirstHotRunDemotes24(c.mhot.chunks, c.mhot.lookup, c.mhot.hand, demoted);
    assert c.mcold.chunks[3].key == 24;
  }

  /** The last `run_hot_hand` of the test, on the cache: the bits of 23 and
      22 are cleared and 21 is demoted. */
  method ClearTwentyThreeAndTwentyTwo(c: ClockProCache<int>)
    requires c.Valid() && c.mhot.hand == 1
    requires c.mhot.chunks == HotBeforeLastRun()
    modifies c.mcold, c.mhot, c`hotToCold
    ensures c.Valid() && c.mhot.Contains(23) && c.mhot.Contains(22)
    ensures !c.mhot.chunks[c.mhot.IndexOf(23)].ref && !c.mhot.chunks[c.mhot.IndexOf(22)].ref
    ensures c.mcold.chunks == old(c.mcold.chunks) + [Page(21, false)]
  {
    ghost var demoted := c.RunHotHand();
    LastHotRunClearsTwo(c.mhot.chunks, c.mhot.lookup, c.mhot.hand, demoted);
    assert c.mhot.chunks[1].key == 23 && c.mhot.chunks[2].key == 22;
  }

  /** `set(k, v)` as written on a full cache: it is accepted and the cache
      ends one page over `max_pages`; the corrected `Set` refuses it. */
  method SetOverfills(c: ClockProCache<int>, k: int)
    requires c.Valid() && c.Size() == c.maxPages && !c.Contains(k)
    modifies c.mcold, c`totalAllocation
    ensures c.Valid() && c.Size() == c.maxPages + 1 && !c.Bounded()
  {
    var r := c.SetAsWritten(k, k);
  }
}
