/** The Java client's session-id allocator: a shared `int` counter and the
    set of ids in flight. `next` increments the counter, reduces it to 16 bits
    and claims the id with a put-if-absent; on a miss it retries, and it gives
    up when a miss happens with the retry counter already past MAX_RETRIES. */
module SessionIds {
  import opened Wire
  import opened Wrappers

  const MaxRetries: nat := 5
  const UShrtMaxPlusOne: nat := 65536
  /** Attempts before giving up: iterations 0 ..= MaxRetries + 1. */
  const MaxAttempts: nat := MaxRetries + 2

  datatype GenerationError = SessionIdGenerationException

  /** How a counter value becomes a candidate id. */
  type CandidateRule = int -> int

  /** As written: Java's truncating `%`. */
  function JavaRemCandidate(counter: int): int { JavaRem(counter, UShrtMaxPlusOne) }

  /** Corrected: a remainder that is never negative (`Math.floorMod`). */
  function FloorModCandidate(counter: int): int { counter % UShrtMaxPlusOne }

  /** The candidate of the k-th attempt of a call that starts at `counter`. */
  function Attempt(rule: CandidateRule, counter: int, k: int): int
  {
    rule(WrapInt32(counter + k))
  }

  datatype Outcome = Outcome(result: Result<int, GenerationError>, counter: int, pending: set<int>)

  /** The rest of a call of `next` from loop iteration `iteration` on. */
  function NextFrom(rule: CandidateRule, pending: set<int>, counter: int, iteration: nat): (o: Outcome)
    requires iteration <= MaxRetries + 1
    ensures o.result.Ok? ==> o.result.value !in pending && o.pending == pending + {o.result.value}
    ensures o.result.Err? ==> o.pending == pending
    decreases MaxRetries + 1 - iteration
  {
    var c := WrapInt32(counter + 1);
    var attempt := rule(c);
    if attempt !in pending then Outcome(Ok(attempt), c, pending + {attempt})
    else if iteration > MaxRetries then Outcome(Err(SessionIdGenerationException), c, pending)
    else NextFrom(rule, pending, c, iteration + 1)
  }

  /** What a call does, counting attempts from `i + 1`: it fails exactly
      when every remaining candidate is taken, and then changes nothing but
      the counter; otherwise it returns the first free candidate, which was
      not pending and now is. The counter moves on by one per attempt,
      successful or not. */
  ghost predicate Expected(rule: CandidateRule, pending: set<int>, counter: int, i: nat, o: Outcome)
  {
    && (o.result.Err? <==> forall k :: i < k <= MaxAttempts ==> Attempt(rule, counter, k) in pending)
    && (o.result.Err? ==> o.pending == pending && o.counter == WrapInt32(counter + MaxAttempts))
    && (o.result.Ok? ==>
          o.result.value !in pending && o.pending == pending + {o.result.value}
          && exists k :: i < k <= MaxAttempts && o.result.value == Attempt(rule, counter, k)
               && o.counter == WrapInt32(counter + k)
               && forall j :: i < j < k ==> Attempt(rule, counter, j) in pending)
  }

  /** A taken candidate at attempt `i + 1` leaves the outcome to the
      attempts after it. */
  lemma ExpectedStep(rule: CandidateRule, pending: set<int>, counter: int, i: nat, o: Outcome)
    requires Attempt(rule, counter, i + 1) in pending
    requires Expected(rule, pending, counter, i + 1, o)
    ensures Expected(rule, pending, counter, i, o)
  {
    if o.result.Ok? {
      var k :| i + 1 < k <= MaxAttempts && o.result.value == Attempt(rule, counter, k)
               && o.counter == WrapInt32(counter + k)
               && forall j :: i + 1 < j < k ==> Attempt(rule, counter, j) in pending;
      assert forall j :: i < j < k ==> Attempt(rule, counter, j) in pending;
    }
  }

  /** The loop from iteration `i`, started at `counter + i`. */
  lemma {:induction false} NextFromAttempts(rule: CandidateRule, pending: set<int>, counter: int, i: nat)
    requires i <= MaxRetries + 1
    decreases MaxRetries + 1 - i
    ensures Expected(rule, pending, counter, i, NextFrom(rule, pending, WrapInt32(counter + i), i))
  {
    WrapInt32Add(counter + i, 1);
    var c := WrapInt32(counter + (i + 1));
    assert WrapInt32(WrapInt32(counter + i) + 1) == c;
    assert Attempt(rule, counter, i + 1) == rule(c);
    var o := NextFrom(rule, pending, WrapInt32(counter + i), i);
    if rule(c) !in pending {
      assert o == Outcome(Ok(rule(c)), c, pending + {rule(c)});
      assert Expected(rule, pending, counter, i, o);
    } else if i > MaxRetries {
      assert o == Outcome(Err(SessionIdGenerationException), c, pending);
      assert i + 1 == MaxAttempts;
      assert Expected(rule, pending, counter, i, o);
    } else {
      assert o == NextFrom(rule, pending, c, i + 1);
      NextFromAttempts(rule, pending, counter, i + 1);
      ExpectedStep(rule, pending, counter, i, o);
    }
  }

  /** A whole call of `next` on a Java `int` counter. */
  lemma NextSpec(rule: CandidateRule, pending: set<int>, counter: int)
    requires IsInt32(counter)
    ensures Expected(rule, pending, counter, 0, NextFrom(rule, pending, counter, 0))
  {
    NextFromAttempts(rule, pending, counter, 0);
    assert WrapInt32(counter + 0) == counter;
  }

  /** Corrected: every id handed out fits the 16-bit session field. */
  lemma NextInRange(pending: set<int>, counter: int)
    requires IsInt32(counter)
    ensures var o := NextFrom(FloorModCandidate, pending, counter, 0);
      o.result.Ok? ==> 0 <= o.result.value < UShrtMaxPlusOne
  {
    NextSpec(FloorModCandidate, pending, counter);
  }

  /** As written: once the counter has wrapped to Integer.MIN_VALUE, the
      next id is negative. */
  lemma JavaRemGivesNegativeId()
    ensures NextFrom(JavaRemCandidate, {}, Int32Min, 0).result == Ok(-65535)
  {
    assert WrapInt32(Int32Min + 1) == Int32Min + 1;
    assert JavaRem(Int32Min + 1, UShrtMaxPlusOne) == -65535;
  }

  class SessionIdGenerator {
    /** The keys of `pendingSessions`. */
    var pendingSessions: set<int>
    /** `sessionIdGen`, an `AtomicInteger`. */
    var sessionIdGen: int

    ghost predicate Valid()
      reads this
    {
      IsInt32(sessionIdGen)
    }

    constructor ()
      ensures Valid() && pendingSessions == {} && sessionIdGen == 0
    {
      pendingSessions, sessionIdGen := {}, 0;
    }

    /** `next()`, with the Java `%` as written. */
    method Next() returns (r: Result<int, GenerationError>)
      requires Valid()
      modifies this
      ensures Valid()
      ensures var o := NextFrom(JavaRemCandidate, old(pendingSessions), old(sessionIdGen), 0);
        r == o.result && sessionIdGen == o.counter && pendingSessions == o.pending
    {
      var iteration: nat := 0;
      while true
        invariant iteration <= MaxRetries + 1 && Valid()
        invariant NextFrom(JavaRemCandidate, pendingSessions, sessionIdGen, iteration)
               == NextFrom(JavaRemCandidate, old(pendingSessions), old(sessionIdGen), 0)
        decreases MaxRetries + 1 - iteration
      {
        sessionIdGen := WrapInt32(sessionIdGen + 1);
        var sessionIdAttempt := JavaRem(sessionIdGen, UShrtMaxPlusOne);
        if sessionIdAttempt !in pendingSessions {
          pendingSessions := pendingSessions + {sessionIdAttempt};
          return Ok(sessionIdAttempt);
        }
        if iteration > MaxRetries {
          return Err(SessionIdGenerationException);
        }
        iteration := iteration + 1;
      }
    }

    /** `release`: a map `remove`, a no-op for an id not pending. */
    method Release(sessionId: int)
      modifies this`pendingSessions
      ensures pendingSessions == old(pendingSessions) - {sessionId}
      ensures sessionId !in old(pendingSessions) ==> pendingSessions == old(pendingSessions)
    {
      pendingSessions := pendingSessions - {sessionId};
    }
  }
}
