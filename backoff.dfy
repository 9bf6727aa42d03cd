/** The reconnect back-off of `reconnect_client`: a ladder of waits from
    none to 30 minutes, climbed one rung per failed reconnect and reset on
    success. */
module Backoff {
  import opened Wire

  /** The enum's values in declaration order: the clamp table. */
  const Ladder: seq<u16> := [0, 1, 3, 5, 10, 20, 30, 60, 300, 600, 1800]
  const BackoffNone: u16 := 0
  const BackoffMax: u16 := 1800

  lemma LadderSorted()
    ensures forall i, j :: 0 <= i < j < |Ladder| ==> Ladder[i] < Ladder[j]
  {
  }

  /** The first rung from index `i` on that is at least `b`; past the
      table, the maximum. */
  function ClampFrom(b: int, i: nat): (r: u16)
    requires i <= |Ladder|
    decreases |Ladder| - i
  {
    if i == |Ladder| then BackoffMax
    else if b <= Ladder[i] then Ladder[i]
    else ClampFrom(b, i + 1)
  }

  /** `++b`: the successor, narrowed back to 16 bits by the cast, clamped up
      to the next rung. */
  function NextBackoff(v: u16): (r: u16)
    ensures r in Ladder
    ensures v < BackoffMax ==> v < r
  {
    ClampFromLeast((v + 1) % 0x1_0000, 0);
    ClampFrom((v + 1) % 0x1_0000, 0)
  }

  /** The clamp lands on the least rung that is at least its input. */
  lemma {:induction false} ClampFromLeast(b: int, i: nat)
    requires i <= |Ladder|
    requires forall j :: 0 <= j < i ==> Ladder[j] < b
    ensures ClampFrom(b, i) in Ladder
    ensures b <= BackoffMax ==> b <= ClampFrom(b, i)
    ensures b <= BackoffMax ==> forall x :: x in Ladder && b <= x ==> ClampFrom(b, i) <= x
    ensures b > BackoffMax ==> ClampFrom(b, i) == BackoffMax
    decreases |Ladder| - i
  {
    LadderSorted();
    if i == |Ladder| {
      assert Ladder[10] < b;
    } else if b <= Ladder[i] {
      forall x | x in Ladder && b <= x
        ensures Ladder[i] <= x
      {
        var j :| 0 <= j < |Ladder| && Ladder[j] == x;
        assert i <= j;
      }
    } else {
      ClampFromLeast(b, i + 1);
    }
  }

  /** `operator++` always yields a rung: the least one above the current
      value, or the maximum when nothing above it is left. */
  lemma NextBackoffRung(v: u16)
    ensures NextBackoff(v) in Ladder
    ensures v < BackoffMax ==> v < NextBackoff(v)
    ensures v < BackoffMax ==> forall x :: x in Ladder && v < x ==> NextBackoff(v) <= x
    ensures BackoffMax <= v < 0xFFFF ==> NextBackoff(v) == BackoffMax
  {
    ClampFromLeast((v + 1) % 0x1_0000, 0);
  }

  /** The rungs are in order, so rung order is index order. */
  lemma RungOrder(j: nat, k: nat)
    requires j < |Ladder| && k < |Ladder|
    ensures Ladder[j] < Ladder[k] <==> j < k
  {
    LadderSorted();
  }

  /** The index of the last rung, for a count of climbs. */
  function Rung(k: nat): (r: nat)
    ensures r < |Ladder| && (k < |Ladder| ==> r == k)
  {
    if k < |Ladder| then k else |Ladder| - 1
  }

  /** On the ladder itself, each increment climbs exactly one rung and the
      top rung stays put. */
  lemma NextBackoffClimbs(i: nat)
    requires i < |Ladder|
    ensures NextBackoff(Ladder[i]) == Ladder[Rung(i + 1)]
  {
    NextBackoffRung(Ladder[i]);
    var r := NextBackoff(Ladder[i]);
    if i + 1 < |Ladder| {
      var j :| 0 <= j < |Ladder| && Ladder[j] == r;
      assert Ladder[i + 1] in Ladder;
      RungOrder(i, j);
      RungOrder(i + 1, j);
    }
  }

  /** The wait after `k` failures in a row, starting from none. */
  function AfterFailures(k: nat): (r: u16)
  {
    if k == 0 then BackoffNone else NextBackoff(AfterFailures(k - 1))
  }

  lemma {:induction false} AfterFailuresRung(k: nat)
    ensures AfterFailures(k) == Ladder[Rung(k)]
  {
    if k == 0 {
      assert Ladder[Rung(0)] == BackoffNone;
    } else {
      AfterFailuresRung(k - 1);
      var i := Rung(k - 1);
      NextBackoffClimbs(i);
      assert AfterFailures(k) == NextBackoff(Ladder[i]);
      assert Rung(i + 1) == Rung(k);
    }
  }

  /** `operator++` as written: a scan of the clamp table. */
  method Increment(b: u16) returns (next: u16)
    ensures next == NextBackoff(b)
  {
    var candidate := (b + 1) % 0x1_0000;
    var i := 0;
    while i < |Ladder|
      invariant 0 <= i <= |Ladder|
      invariant ClampFrom(candidate, i) == NextBackoff(b)
    {
      if candidate <= Ladder[i] {
        return Ladder[i];
      }
      i := i + 1;
    }
    next := BackoffMax;
  }

  /** What one `connect` call observes of its client. */
  datatype ConnectAttempt =
    | AlreadyConnected
    | GateClosed
    | Reconnected
    | ReconnectFailed(jitterDraw: nat)

  /** The back-off state of `reconnect_client`. */
  class ReconnectClient {
    var bo: u16

    constructor ()
      ensures bo == BackoffNone
    {
      bo := BackoffNone;
    }

    /** `connect` for one attempt: a success resets the back-off, a failure
        raises it and schedules the retry after that many seconds plus up to
        99 ms of jitter (returned in milliseconds). */
    method Connect(attempt: ConnectAttempt) returns (sleepMillis: nat)
      modifies this
      ensures attempt.Reconnected? ==> bo == BackoffNone && sleepMillis == 0
      ensures (attempt.AlreadyConnected? || attempt.GateClosed?) ==> bo == old(bo) && sleepMillis == 0
      ensures attempt.ReconnectFailed? ==>
        && bo == NextBackoff(old(bo))
        && sleepMillis == 1000 * bo + attempt.jitterDraw % 100
    {
      match attempt
      case AlreadyConnected => sleepMillis := 0;
      case GateClosed => sleepMillis := 0;
      case Reconnected =>
        bo := BackoffNone;
        sleepMillis := 0;
      case ReconnectFailed(draw) =>
        bo := Increment(bo);
        sleepMillis := draw % 100 + 1000 * bo;
    }
  }
}
