/** One CLOCK list of the CLOCK-Pro cache: the chunks in list order, a key
    index kept beside them, and a clock hand that walks the list and wraps
    from its end back to the front. */
module ClockLists {
  import opened Wrappers

  /** `clock_pro_internal::chunk`: a page key, its data and the reference bit. */
  datatype Chunk<V> = Chunk(key: int, data: V, ref: bool)

  function Keys<V>(s: seq<Chunk<V>>): (r: set<int>)
    ensures forall i :: 0 <= i < |s| ==> s[i].key in r
  {
    set i | 0 <= i < |s| :: s[i].key
  }

  ghost predicate DistinctKeys<V>(s: seq<Chunk<V>>)
  {
    forall i, j :: 0 <= i < j < |s| ==> s[i].key != s[j].key
  }

  function RemoveAt<T>(s: seq<T>, i: nat): (r: seq<T>)
    requires i < |s|
    ensures |r| == |s| - 1
    ensures forall j :: 0 <= j < i ==> r[j] == s[j]
    ensures forall j :: i <= j < |r| ==> r[j] == s[j + 1]
  {
    s[..i] + s[i + 1..]
  }

  lemma RemoveAtKeys<V>(s: seq<Chunk<V>>, i: nat)
    requires i < |s| && DistinctKeys(s)
    ensures DistinctKeys(RemoveAt(s, i))
    ensures Keys(RemoveAt(s, i)) == Keys(s) - {s[i].key}
  {
    var r := RemoveAt(s, i);
    forall k | k in Keys(s) - {s[i].key}
      ensures k in Keys(r)
    {
      var j :| 0 <= j < |s| && s[j].key == k;
      if j < i {
        assert r[j].key == k;
      } else {
        assert r[j - 1].key == k;
      }
    }
  }

  lemma KeysOne<V>(c: Chunk<V>)
    ensures Keys([c]) == {c.key}
  {
    var r := Keys([c]);
    assert [c][0].key in r;
    forall k | k in r
      ensures k == c.key
    {
      var i :| 0 <= i < 1 && [c][i].key == k;
    }
  }

  lemma KeysAdded<V>(s: seq<Chunk<V>>, t: seq<Chunk<V>>)
    requires DistinctKeys(s) && DistinctKeys(t) && Keys(s) !! Keys(t)
    ensures DistinctKeys(s + t) && Keys(s + t) == Keys(s) + Keys(t)
  {
    var r := s + t;
    forall i, j | 0 <= i < j < |r|
      ensures r[i].key != r[j].key
    {
      if i < |s| && j >= |s| {
        assert r[i].key in Keys(s) && r[j].key == t[j - |s|].key;
      }
    }
    forall k | k in Keys(s) + Keys(t)
      ensures k in Keys(r)
    {
      if k in Keys(s) {
        var i :| 0 <= i < |s| && s[i].key == k;
        assert r[i].key == k;
      } else {
        var i :| 0 <= i < |t| && t[i].key == k;
        assert r[|s| + i].key == k;
      }
    }
  }

  /** The distance the hand travels from `start` to reach `i`, wrapping. */
  function Offset(i: nat, start: nat, n: nat): (r: nat)
    requires i < n && start < n
    ensures r < n
  {
    if i >= start then i - start else i + n - start
  }

  class ClockList<V> {
    /** `allocated`: the chunks in list order. */
    var chunks: seq<Chunk<V>>
    /** `lookup`: the keys of the chunks, for `contains`. */
    var lookup: set<int>
    /** `clock_hand` as a position; `|chunks|` is `end()`. */
    var hand: nat

    ghost predicate Valid()
      reads this
    {
      hand <= |chunks| && DistinctKeys(chunks) && lookup == Keys(chunks)
    }

    constructor ()
      ensures Valid() && chunks == [] && hand == 0
    {
      chunks, lookup, hand := [], {}, 0;
    }

    function Size(): (r: nat)
      reads this
      ensures r == |chunks|
    {
      |chunks|
    }

    function Contains(page: int): (r: bool)
      reads this
      requires Valid()
      ensures r <==> exists i :: 0 <= i < |chunks| && chunks[i].key == page
    {
      page in lookup
    }

    /** The position of a key the list holds: what `lookup.find` reaches. */
    function IndexOf(page: int): (r: nat)
      reads this
      requires Valid() && Contains(page)
      ensures r < |chunks| && chunks[r].key == page
    {
      Find(chunks, page)
    }

    /** `emplace_back`. An iterator at `end()` stays at `end()`. */
    method EmplaceBack(c: Chunk<V>)
      requires Valid() && !Contains(c.key)
      modifies this
      ensures Valid() && chunks == old(chunks) + [c] && lookup == old(lookup) + {c.key}
      ensures hand == if old(hand) == |old(chunks)| then |chunks| else old(hand)
    {
      if hand == |chunks| {
        hand := hand + 1;
      }
      KeysOne(c);
      KeysAdded(chunks, [c]);
      chunks := chunks + [c];
      lookup := lookup + {c.key};
    }

    /** `emplace_front`: the hand keeps pointing at the same chunk. */
    method EmplaceFront(c: Chunk<V>)
      requires Valid() && !Contains(c.key)
      modifies this
      ensures Valid() && chunks == [c] + old(chunks) && lookup == old(lookup) + {c.key}
      ensures hand == old(hand) + 1
    {
      KeysOne(c);
      KeysAdded([c], chunks);
      chunks := [c] + chunks;
      lookup := lookup + {c.key};
      hand := hand + 1;
    }

    /** `fix_hand`: the hand of a non-empty list is moved off `end()`. */
    method FixHand()
      requires Valid()
      modifies this`hand
      ensures Valid()
      ensures hand == if |chunks| > 0 && old(hand) == |chunks| then 0 else old(hand)
    {
      if |chunks| > 0 && hand == |chunks| {
        hand := 0;
      }
    }

    /** Sets the reference bit of the chunk under `page`. */
    method Touch(page: int)
      requires Valid() && Contains(page)
      modifies this`chunks
      ensures Valid()
      ensures chunks == old(chunks)[old(IndexOf(page)) := old(chunks)[old(IndexOf(page))].(ref := true)]
    {
      var i := IndexOf(page);
      chunks := chunks[i := chunks[i].(ref := true)];
      KeysSameKeys(old(chunks), chunks);
    }

    /** `hand_cold`: the chunk under the hand (after wrapping) always leaves
        the list; it is returned only if its reference bit was set. */
    method HandCold() returns (ret: Option<Chunk<V>>)
      requires Valid()
      modifies this
      ensures Valid()
      ensures old(chunks) == [] ==> ret == None && chunks == [] && hand == old(hand)
      ensures old(chunks) != [] ==>
        var p := if old(hand) == |old(chunks)| then 0 else old(hand);
        var c := old(chunks)[p];
        && chunks == RemoveAt(old(chunks), p)
        && lookup == old(lookup) - {c.key}
        && hand == p
        && ret == (if c.ref then Some(c) else None)
    {
      if |chunks| == 0 {
        return None;
      }
      if hand == |chunks| {
        hand := 0;
      }
      var c := TakeAt(hand);
      ret := if c.ref then Some(c) else None;
    }

    /** `it = clock_hand; ++clock_hand; erase(it)`: the chunk at `q` leaves
        both the list and the index, and the hand moves on to its successor,
        which now stands at `q` (or at `end()`). */
    method TakeAt(q: nat) returns (c: Chunk<V>)
      requires Valid() && q < |chunks|
      modifies this
      ensures Valid() && c == old(chunks)[q] && hand == q
      ensures chunks == RemoveAt(old(chunks), q) && lookup == old(lookup) - {c.key}
    {
      c := chunks[q];
      RemoveAtKeys(chunks, q);
      lookup := lookup - {c.key};
      chunks := RemoveAt(chunks, q);
      hand := q;
    }

    /** The stop of `hand_hot`'s scan: the chunk at `q`, reached after
        `steps` steps over chunks whose bits were set. */
    method TakeUnreferenced(ghost a0: seq<Chunk<V>>, ghost h0: nat, ghost p: nat, ghost steps: nat, q: nat)
      returns (ret: Option<Chunk<V>>)
      requires |chunks| == |a0| && h0 <= |a0| && p == (if h0 == |a0| then 0 else h0)
      requires p < |a0| && q < |a0| && Offset(q, p, |a0|) == steps
      requires chunks == Cleared(a0, p, steps) && !chunks[q].ref
      requires forall i {:trigger Offset(i, p, |a0|)} :: 0 <= i < |a0| && Offset(i, p, |a0|) < steps ==> a0[i].ref
      requires DistinctKeys(a0) && lookup == Keys(a0)
      modifies this
      ensures Valid() && HandHotResult(a0, h0, chunks, lookup, hand, ret)
      ensures ret == Some(a0[q]) && a0[q].key in Keys(a0) && lookup == Keys(a0) - {a0[q].key} && |chunks| + 1 == |a0|
    {
      FoundResult(a0, h0, p, steps, q);
      KeysCleared(a0, p, steps);
      hand := q;
      var c := TakeAt(q);
      ret := Some(c);
    }

    /** `hand_hot`: at most `size()` steps from the hand, wrapping; every
        chunk passed with its bit set has it cleared, and the first chunk
        found with it clear is removed and returned. */
    method HandHot() returns (ret: Option<Chunk<V>>)
      requires Valid()
      modifies this
      ensures Valid()
      ensures old(chunks) == [] ==> ret == None && chunks == [] && hand == old(hand)
      ensures old(chunks) != [] ==> HandHotResult(old(chunks), old(hand), chunks, lookup, hand, ret)
      ensures ret.Some? ==> ret.value.key in old(lookup) && lookup == old(lookup) - {ret.value.key} && |chunks| + 1 == |old(chunks)|
      ensures ret.None? ==> lookup == old(lookup) && |chunks| == |old(chunks)|
    {
      ghost var a0 := chunks;
      var n := |chunks|;
      if n == 0 {
        return None;
      }
      if hand == n {
        hand := 0;
      }
      var p := hand;
      var cs, h, stop := HotScan(chunks, p);
      chunks, hand := cs, h;
      if stop.Some? {
        ret := TakeUnreferenced(a0, old(hand), p, Offset(h, p, n), h);
        return;
      }
      ret := None;
      NotFoundResult(a0, old(hand), p);
    }
  }

  /** The loop of `hand_hot` over the chunks `a`, from position `p`: at
      most `|a|` steps, clearing each set bit it passes and stopping at the
      first clear one. */
  method HotScan<V>(a: seq<Chunk<V>>, p: nat) returns (cs: seq<Chunk<V>>, h: nat, stop: Option<nat>)
    requires p < |a|
    ensures stop.None? ==>
      && cs == Cleared(a, p, |a|) && h == HandAfter(p, |a|, |a|)
      && forall i {:trigger Offset(i, p, |a|)} :: 0 <= i < |a| && Offset(i, p, |a|) < |a| ==> a[i].ref
    ensures stop.Some? ==>
      && stop.value == h && h < |a| && !a[h].ref && cs == Cleared(a, p, Offset(h, p, |a|))
      && forall i {:trigger Offset(i, p, |a|)} :: 0 <= i < |a| && Offset(i, p, |a|) < Offset(h, p, |a|) ==> a[i].ref
  {
    var n := |a|;
    cs, h := a, p;
    var total := n;
    while total > 0
      invariant 0 <= total <= n && |cs| == n
      invariant h == HandAfter(p, n - total, n)
      invariant cs == Cleared(a, p, n - total)
      invariant forall i {:trigger Offset(i, p, n)} :: 0 <= i < n && Offset(i, p, n) < n - total ==> a[i].ref
    {
      HandStep(p, n - total, n);
      if h == n {
        h := 0;
      }
      if !cs[h].ref {
        return cs, h, Some(h);
      }
      ClearedStep(a, p, n - total, h);
      cs := cs[h := cs[h].(ref := false)];
      h := h + 1;
      total := total - 1;
    }
    stop := None;
  }

  /** Where the hand stands after `steps` steps from `p` on a list of `n`. */
  function HandAfter(p: nat, steps: nat, n: nat): nat
  {
    if p + steps <= n then p + steps else p + steps - n
  }

  lemma HandStep(p: nat, steps: nat, n: nat)
    requires p < n && steps < n
    ensures var h := HandAfter(p, steps, n);
      var h' := if h == n then 0 else h;
      && h' < n && Offset(h', p, n) == steps && HandAfter(p, steps + 1, n) == h' + 1
  {
  }

  /** What `hand_hot` leaves behind on a non-empty list `a` whose hand stood
      at `h0`: either every bit was set and is now clear, or the scan stopped
      at a chunk `q` with its bit clear, which is gone. */
  ghost predicate HandHotResult<V>(a: seq<Chunk<V>>, h0: nat, chunks: seq<Chunk<V>>, lookup: set<int>,
                                   hand: nat, ret: Option<Chunk<V>>)
    requires a != [] && h0 <= |a|
  {
    var n := |a|;
    var p := if h0 == n then 0 else h0;
    && (ret.None? <==> forall i :: 0 <= i < n ==> a[i].ref)
    && (ret.None? ==> chunks == Cleared(a, p, n) && lookup == Keys(a) && hand == (if p == 0 then n else p))
    && (ret.Some? ==>
          exists q :: 0 <= q < n && HotScanFound(a, p, q, ret.value)
            && chunks == RemoveAt(Cleared(a, p, Offset(q, p, n)), q)
            && lookup == Keys(a) - {ret.value.key}
            && hand == q)
  }

  lemma FoundResult<V>(a: seq<Chunk<V>>, h0: nat, p: nat, steps: nat, q: nat)
    requires h0 <= |a| && p == (if h0 == |a| then 0 else h0)
    requires p < |a| && q < |a| && Offset(q, p, |a|) == steps && DistinctKeys(a)
    requires !a[q].ref
    requires forall i :: 0 <= i < |a| && Offset(i, p, |a|) < steps ==> a[i].ref
    ensures Cleared(a, p, steps)[q] == a[q]
    ensures DistinctKeys(RemoveAt(Cleared(a, p, steps), q))
    ensures Keys(RemoveAt(Cleared(a, p, steps), q)) == Keys(a) - {a[q].key}
    ensures HandHotResult(a, h0, RemoveAt(Cleared(a, p, steps), q), Keys(a) - {a[q].key}, q, Some(a[q]))
  {
    KeysCleared(a, p, steps);
    RemoveAtKeys(Cleared(a, p, steps), q);
    assert HotScanFound(a, p, q, a[q]);
  }

  lemma NotFoundResult<V>(a: seq<Chunk<V>>, h0: nat, p: nat)
    requires h0 <= |a| && p == (if h0 == |a| then 0 else h0)
    requires p < |a| && DistinctKeys(a)
    requires forall i :: 0 <= i < |a| && Offset(i, p, |a|) < |a| ==> a[i].ref
    ensures Keys(Cleared(a, p, |a|)) == Keys(a) && DistinctKeys(Cleared(a, p, |a|))
    ensures HandHotResult(a, h0, Cleared(a, p, |a|), Keys(a), HandAfter(p, |a|, |a|), None)
  {
    KeysCleared(a, p, |a|);
  }

  /** `a` after the hand, starting at `p`, has passed `steps` chunks and
      cleared their bits. */
  function Cleared<V>(a: seq<Chunk<V>>, p: nat, steps: nat): (r: seq<Chunk<V>>)
    requires p < |a|
    ensures |r| == |a|
    ensures forall i :: 0 <= i < |a| ==> r[i] == if Offset(i, p, |a|) < steps then a[i].(ref := false) else a[i]
  {
    seq(|a|, i requires 0 <= i < |a| => if Offset(i, p, |a|) < steps then a[i].(ref := false) else a[i])
  }

  /** The scan from `p` stops at `q`: every chunk before it had its bit set,
      and the chunk at `q`, returned as `c`, did not. */
  ghost predicate HotScanFound<V>(a: seq<Chunk<V>>, p: nat, q: nat, c: Chunk<V>)
    requires p < |a| && q < |a|
  {
    && c == a[q] && !c.ref
    && forall i :: 0 <= i < |a| && Offset(i, p, |a|) < Offset(q, p, |a|) ==> a[i].ref
  }

  /** The hot hand's stop is determined by the list and the start: two
      chunks that both satisfy the scan's stopping rule are the same one. */
  lemma HotScanUnique<V>(a: seq<Chunk<V>>, p: nat, q1: nat, q2: nat, c1: Chunk<V>, c2: Chunk<V>)
    requires p < |a| && q1 < |a| && q2 < |a|
    requires HotScanFound(a, p, q1, c1) && HotScanFound(a, p, q2, c2)
    ensures q1 == q2 && c1 == c2
  {
  }

  lemma ClearedStep<V>(a: seq<Chunk<V>>, p: nat, steps: nat, h: nat)
    requires p < |a| && h < |a| && Offset(h, p, |a|) == steps
    ensures Cleared(a, p, steps)[h := Cleared(a, p, steps)[h].(ref := false)] == Cleared(a, p, steps + 1)
  {
  }

  lemma KeysSameKeys<V>(a: seq<Chunk<V>>, b: seq<Chunk<V>>)
    requires |a| == |b| && forall j :: 0 <= j < |a| ==> a[j].key == b[j].key
    ensures Keys(a) == Keys(b)
    ensures DistinctKeys(a) ==> DistinctKeys(b)
  {
    forall k | k in Keys(a)
      ensures k in Keys(b)
    {
      var i :| 0 <= i < |a| && a[i].key == k;
      assert b[i].key == k;
    }
  }

  lemma KeysCleared<V>(a: seq<Chunk<V>>, p: nat, steps: nat)
    requires p < |a|
    ensures Keys(Cleared(a, p, steps)) == Keys(a)
    ensures DistinctKeys(a) ==> DistinctKeys(Cleared(a, p, steps))
  {
    var c := Cleared(a, p, steps);
    assert forall i :: 0 <= i < |a| ==> c[i].key == a[i].key;
    forall k | k in Keys(a)
      ensures k in Keys(c)
    {
      var i :| 0 <= i < |a| && a[i].key == k;
      assert c[i].key == k;
    }
  }

  function Find<V>(s: seq<Chunk<V>>, k: int): (r: nat)
    requires k in Keys(s)
    ensures r < |s| && s[r].key == k
  {
    if s[0].key == k then 0
    else
      assert k in Keys(s[1..]) by {
        var i :| 0 <= i < |s| && s[i].key == k;
        assert s[1..][i - 1].key == k;
      }
      1 + Find(s[1..], k)
  }
}
