/** The consumer loop as a pure function of what it reads and changes. The
    state is a World (the sorted set, the commands sent on the connection,
    the clock with the sleeps it was asked for, and the log of handler
    calls); what the loop cannot know in advance (cancellation, connection
    failures, handler results) is an Oracle. Dequeue is proved to compute
    exactly Run, and the properties of the delay queue are lemmas about Run
    and its parts. */
module Consumer {
  import opened Base
  import opened ZSet
  import opened Message

  /** One handler call: the message handed over and the clock at that moment. */
  datatype Delivery = Delivery(msg: Msg, at: int)

  datatype World = World(zset: map<Bytes, int>, sent: nat, now: int, sleeps: seq<int>, log: seq<Delivery>)

  /** ctx(i): the context's error seen at the top of the i-th pass;
      fault(n): the failure of the n-th command on the connection;
      outcome(n): the result of the n-th handler call. */
  datatype Oracle = Oracle(ctx: nat -> Option<Error>, fault: nat -> Option<Error>, outcome: nat -> Option<Error>)

  /** How the loop ends: with an error, or still polling when the bound on
      passes is reached (the source never returns without an error). */
  datatype Stop = Failed(err: Error) | Polling

  /** The result of delivering one fetched batch: the new world, the error
      that ended it if any, and how many tuples were handled and removed. */
  datatype Batch = Batch(world: World, err: Option<Error>, acked: nat)

  /** One second, in nanoseconds. */
  const DefaultPollPeriod: int := 1_000_000_000

  function Max(a: int, b: int): int { if a < b then b else a }

  /** The test clock's sleep: the clock moves by d and d is recorded. */
  function Sleep(w: World, d: int): World
  {
    w.(now := w.now + d, sleeps := w.sleeps + [d])
  }

  /** The consumer's wait for a deadline: sleep for the remaining time if
      the deadline is still ahead, otherwise go on at once. */
  function WaitFor(w: World, deadline: int): (r: World)
    ensures r.now == Max(w.now, deadline) && r.log == w.log && r.zset == w.zset && r.sent == w.sent
    ensures r.sleeps == if deadline > w.now then w.sleeps + [deadline - w.now] else w.sleeps
  {
    if deadline > w.now then Sleep(w, deadline - w.now) else w
  }

  /** The message the handler receives for a tuple: the decoded member with
      the tuple's score as its deadline; None if the member does not decode. */
  function Received(t: Tuple): (r: Option<Msg>)
    ensures r.Some? ==> r.value.deadline == t.score
  {
    match Unmarshal(t.member)
    case None => None
    case Some(m) => Some(m.(deadline := t.score))
  }

  /** Handles one fetched tuple: decode the member, sleep until the
      deadline if it is still ahead, call the handler, then remove the
      member. Returns the new world and the error that stopped it, if any. */
  function HandleOne(o: Oracle, w: World, t: Tuple): (World, Option<Error>)
  {
    match Received(t)
    case None => (w, Some(BadMember))
    case Some(m) =>
      var w1 := WaitFor(w, m.deadline);
      var w2 := w1.(log := w1.log + [Delivery(m, w1.now)]);
      var handled := o.outcome(|w1.log|);
      if handled.Some? then (w2, handled)
      else
        var removed := o.fault(w2.sent);
        var w3 := w2.(sent := w2.sent + 1);
        if removed.Some? then (w3, removed)
        else (w3.(zset := w3.zset - {t.member}), None)
  }

  /** Handles the tuples of a batch in order; the first failure ends it. */
  function Deliver(o: Oracle, w: World, batch: seq<Tuple>): Batch
    decreases |batch|
  {
    if batch == [] then Batch(w, None, 0)
    else
      var (w1, err) := HandleOne(o, w, batch[0]);
      if err.Some? then Batch(w1, err, 0)
      else
        var rest := Deliver(o, w1, batch[1..]);
        rest.(acked := rest.acked + 1)
  }

  /** What handling one tuple does, in the terms the batch lemmas use: at
      most one handler call, made at the later of the clock and the
      deadline; the member is removed only when the call succeeded; a failed
      call's error is the result. */
  lemma HandleOneFacts(o: Oracle, w: World, t: Tuple)
    ensures var (w', e) := HandleOne(o, w, t);
      w'.log == w.log || (Received(t).Some? && w'.log == w.log + [Delivery(Received(t).value, Max(w.now, t.score))])
    ensures var (w', e) := HandleOne(o, w, t);
      w'.now == if w'.log == w.log then w.now else Max(w.now, t.score)
    ensures var (w', e) := HandleOne(o, w, t);
      w'.sleeps == w.sleeps || (w'.sleeps == w.sleeps + [t.score - w.now] && w.now < t.score)
    ensures var (w', e) := HandleOne(o, w, t);
      e.None? ==> |w'.log| == |w.log| + 1 && o.outcome(|w.log|).None? && w'.zset == w.zset - {t.member}
    ensures var (w', e) := HandleOne(o, w, t);
      e.Some? ==> w'.zset == w.zset
    ensures var (w', e) := HandleOne(o, w, t);
      |w'.log| == |w.log| + 1 && o.outcome(|w.log|).Some? ==> e == o.outcome(|w.log|)
  {
  }

  /** The rest of a pass over a non-empty batch is one tuple's handling
      followed, if that went through, by the rest of the pass over the
      remaining tuples. */
  lemma PassStep(o: Oracle, w: World, batch: seq<Tuple>, next: int)
    requires batch != []
    ensures var (w1, err) := HandleOne(o, w, batch[0]);
      Pass(o, w, batch, next) == if err.Some? then (w1, err) else Pass(o, w1, batch[1..], next)
  {
  }

  /** One pass of the loop: the cancellation check, the fetch of every entry
      due by the next poll, their delivery, and the sleep until the next poll. */
  function Poll(o: Oracle, w: World, period: int, iter: nat): (World, Option<Error>)
  {
    if o.ctx(iter).Some? then (w, o.ctx(iter))
    else
      var next := w.now + period;
      var fetched := o.fault(w.sent);
      var w1 := w.(sent := w.sent + 1);
      if fetched.Some? then (w1, fetched)
      else Pass(o, w1, Range(w1.zset, 0, next), next)
  }

  /** The rest of a pass once the fetch succeeded: the delivery of the
      fetched batch, then, if it went through, the sleep until next. */
  function Pass(o: Oracle, w: World, batch: seq<Tuple>, next: int): (World, Option<Error>)
  {
    var b := Deliver(o, w, batch);
    if b.err.Some? then (b.world, b.err)
    else (Sleep(b.world, next - b.world.now), None)
  }

  /** A run with passes left is one pass, then the rest of the run unless
      the pass failed. */
  lemma RunStep(o: Oracle, w: World, period: int, iter: nat, fuel: nat)
    requires fuel > 0
    ensures Run(o, w, period, iter, fuel) ==
      if Poll(o, w, period, iter).1.Some? then (Poll(o, w, period, iter).0, Failed(Poll(o, w, period, iter).1.value))
      else Run(o, Poll(o, w, period, iter).0, period, iter + 1, fuel - 1)
  {
  }

  /** A pass that was not cancelled and whose fetch went through is the rest
      of the pass over what the fetch returned. */
  lemma PollStep(o: Oracle, w: World, period: int, iter: nat)
    requires o.ctx(iter).None? && o.fault(w.sent).None?
    ensures Poll(o, w, period, iter) == Pass(o, w.(sent := w.sent + 1), Range(w.zset, 0, w.now + period), w.now + period)
  {
  }

  /** At most fuel passes, starting with pass number iter. */
  function Run(o: Oracle, w: World, period: int, iter: nat, fuel: nat): (World, Stop)
    decreases fuel
  {
    if fuel == 0 then (w, Polling)
    else
      var (w1, err) := Poll(o, w, period, iter);
      if err.Some? then (w1, Failed(err.value))
      else Run(o, w1, period, iter + 1, fuel - 1)
  }

  /** The handler sees the batch's tuples in batch order: the calls a batch
      adds to the log are, one by one, the messages of its first tuples.
      Every tuple handled and removed was called for; at most one more was
      (the one whose handling or removal failed). */
  lemma {:induction false} DeliverLog(o: Oracle, w: World, batch: seq<Tuple>)
    ensures var b := Deliver(o, w, batch);
      |w.log| + b.acked <= |b.world.log| <= |w.log| + b.acked + 1 && |b.world.log| <= |w.log| + |batch|
    ensures var b := Deliver(o, w, batch); b.world.log[..|w.log|] == w.log
    ensures var b := Deliver(o, w, batch);
      forall j :: |w.log| <= j < |b.world.log| ==> Received(batch[j - |w.log|]) == Some(b.world.log[j].msg)
    ensures var b := Deliver(o, w, batch); b.err.None? ==> b.acked == |batch|
    decreases |batch|
  {
    if batch != [] {
      HandleOneFacts(o, w, batch[0]);
      var (w1, err) := HandleOne(o, w, batch[0]);
      if err.None? {
        DeliverLog(o, w1, batch[1..]);
        var rest := Deliver(o, w1, batch[1..]);
        assert Deliver(o, w, batch) == rest.(acked := rest.acked + 1);
        var log := rest.world.log;
        assert log[..|w1.log|] == w1.log;
        assert w.log == w1.log[..|w.log|];
        forall j | |w.log| <= j < |log|
          ensures Received(batch[j - |w.log|]) == Some(log[j].msg)
        {
          if j == |w.log| {
            assert log[j] == w1.log[j];
          } else {
            assert batch[1..][j - |w1.log|] == batch[j - |w.log|];
          }
        }
      }
    }
  }

  /** A tuple is removed only after its handler call succeeded: the set
      loses exactly the members of the acknowledged prefix of the batch, the
      handler call for each of them returned no error, and the batch ends
      without error exactly when all of it was acknowledged. */
  lemma {:induction false} DeliverAcks(o: Oracle, w: World, batch: seq<Tuple>)
    ensures var b := Deliver(o, w, batch); b.acked <= |batch|
    ensures var b := Deliver(o, w, batch); b.world.zset == w.zset - Members(batch[..b.acked])
    ensures var b := Deliver(o, w, batch); forall j :: |w.log| <= j < |w.log| + b.acked ==> o.outcome(j).None?
    ensures var b := Deliver(o, w, batch); b.err.None? <==> b.acked == |batch|
    decreases |batch|
  {
    if batch != [] {
      HandleOneFacts(o, w, batch[0]);
      var (w1, err) := HandleOne(o, w, batch[0]);
      if err.None? {
        DeliverAcks(o, w1, batch[1..]);
        var rest := Deliver(o, w1, batch[1..]);
        var acked := rest.acked + 1;
        assert Deliver(o, w, batch) == rest.(acked := acked);
        assert rest.world.zset == w.zset - Members(batch[..acked]) by {
          var done := batch[1..][..rest.acked];
          assert batch[..acked] == [batch[0]] + done;
          MembersCons(batch[0], done);
          MapMinusMinus(w.zset, batch[0].member, Members(done));
        }
      } else {
        assert batch[..0] == [];
      }
    } else {
      assert batch[..0] == [];
    }
  }

  lemma MapMinusMinus(m: map<Bytes, int>, k: Bytes, s: set<Bytes>)
    ensures m - ({k} + s) == (m - {k}) - s
  {
  }

  /** A failing handler call is the last one of the batch, its error is the
      batch's error, and the tuple it was called for is not acknowledged. */
  lemma {:induction false} DeliverHandlerError(o: Oracle, w: World, batch: seq<Tuple>)
    ensures var b := Deliver(o, w, batch);
      forall j :: |w.log| <= j < |b.world.log| && o.outcome(j).Some? ==>
        j == |b.world.log| - 1 && b.err == o.outcome(j) && b.acked == j - |w.log|
    decreases |batch|
  {
    if batch != [] {
      HandleOneFacts(o, w, batch[0]);
      var (w1, err) := HandleOne(o, w, batch[0]);
      if err.None? {
        DeliverHandlerError(o, w1, batch[1..]);
      }
    }
  }

  /** When a batch fails, whatever the cause, the tuple it failed on and
      every later tuple are still in the set with their scores, so a later
      run delivers them again. */
  lemma DeliverRetains(o: Oracle, w: World, batch: seq<Tuple>)
    requires Within(batch, w.zset) && Distinct(batch)
    ensures var b := Deliver(o, w, batch);
      forall j :: b.acked <= j < |batch| ==>
        batch[j].member in b.world.zset && b.world.zset[batch[j].member] == batch[j].score
  {
    DeliverAcks(o, w, batch);
    var b := Deliver(o, w, batch);
    forall j | b.acked <= j < |batch|
      ensures batch[j].member in b.world.zset && b.world.zset[batch[j].member] == batch[j].score
    {
      assert forall i :: 0 <= i < b.acked ==> batch[..b.acked][i].member != batch[j].member;
      assert batch[j].member !in Members(batch[..b.acked]);
    }
  }

  /** Deadline accuracy within a batch: each handler call happens at the
      later of the previous moment and the message's deadline, so with no
      extra delay, and the clock ends at the moment of the last call. */
  lemma {:induction false} DeliverTiming(o: Oracle, w: World, batch: seq<Tuple>)
    ensures var log := Deliver(o, w, batch).world.log;
      |w.log| < |log| ==> log[|w.log|].at == Max(w.now, log[|w.log|].msg.deadline)
    ensures var log := Deliver(o, w, batch).world.log;
      forall j :: |w.log| < j < |log| ==> log[j].at == Max(log[j - 1].at, log[j].msg.deadline)
    ensures var b := Deliver(o, w, batch);
      b.world.now == if |b.world.log| <= |w.log| then w.now else b.world.log[|b.world.log| - 1].at
    decreases |batch|
  {
    if batch != [] {
      HandleOneFacts(o, w, batch[0]);
      var (w1, err) := HandleOne(o, w, batch[0]);
      if err.None? {
        DeliverTiming(o, w1, batch[1..]);
        DeliverLog(o, w1, batch[1..]);
        var rest := Deliver(o, w1, batch[1..]);
        assert Deliver(o, w, batch).world == rest.world;
        var log := rest.world.log;
        assert log[..|w1.log|] == w1.log;
        assert log[|w.log|] == w1.log[|w.log|];
        assert w1.now == log[|w.log|].at;
        forall j | |w.log| < j < |log| ensures log[j].at == Max(log[j - 1].at, log[j].msg.deadline) {
          if j == |w1.log| {
            assert log[j - 1].at == w1.now;
          }
        }
      }
    }
  }

  /** A handler is never called before its message's deadline. */
  lemma DeliverNeverEarly(o: Oracle, w: World, batch: seq<Tuple>)
    ensures var log := Deliver(o, w, batch).world.log;
      forall j :: |w.log| <= j < |log| ==> log[j].msg.deadline <= log[j].at
  {
    DeliverTiming(o, w, batch);
    var log := Deliver(o, w, batch).world.log;
    forall j | |w.log| <= j < |log| ensures log[j].msg.deadline <= log[j].at {
      if j > |w.log| {
        assert log[j].at == Max(log[j - 1].at, log[j].msg.deadline);
      }
    }
  }

  /** The clock never runs backwards within a batch: it moves only by
      positive sleeps, appended to the ones already recorded. */
  lemma {:induction false} DeliverSleeps(o: Oracle, w: World, batch: seq<Tuple>)
    ensures var b := Deliver(o, w, batch);
      w.now <= b.world.now && |w.sleeps| <= |b.world.sleeps| && b.world.sleeps[..|w.sleeps|] == w.sleeps
    ensures var b := Deliver(o, w, batch);
      forall i :: |w.sleeps| <= i < |b.world.sleeps| ==> 0 < b.world.sleeps[i]
    decreases |batch|
  {
    if batch != [] {
      HandleOneFacts(o, w, batch[0]);
      var (w1, err) := HandleOne(o, w, batch[0]);
      if err.None? {
        DeliverSleeps(o, w1, batch[1..]);
        var rest := Deliver(o, w1, batch[1..]);
        assert Deliver(o, w, batch).world == rest.world;
        assert rest.world.sleeps[..|w1.sleeps|] == w1.sleeps;
        assert w.sleeps == w1.sleeps[..|w.sleeps|];
      }
    }
  }

  /** A batch whose scores are all at most bound, started no later than
      bound, ends no later than bound. */
  lemma {:induction false} DeliverClockBound(o: Oracle, w: World, batch: seq<Tuple>, bound: int)
    requires w.now <= bound
    requires forall j :: 0 <= j < |batch| ==> batch[j].score <= bound
    ensures Deliver(o, w, batch).world.now <= bound
    decreases |batch|
  {
    if batch != [] {
      HandleOneFacts(o, w, batch[0]);
      var (w1, err) := HandleOne(o, w, batch[0]);
      if err.None? {
        DeliverClockBound(o, w1, batch[1..], bound);
      }
    }
  }

  /** A pass that ends without error handled every fetched tuple, and every
      one of those handler calls succeeded. */
  lemma DeliverAllOrNothing(o: Oracle, w: World, batch: seq<Tuple>)
    ensures var b := Deliver(o, w, batch);
      b.err.None? ==> |b.world.log| == |w.log| + |batch| && b.world.zset == w.zset - Members(batch)
    ensures var b := Deliver(o, w, batch);
      b.err.None? ==> forall j :: |w.log| <= j < |b.world.log| ==> o.outcome(j).None?
  {
    DeliverLog(o, w, batch);
    DeliverAcks(o, w, batch);
    assert batch[..|batch|] == batch;
  }

  /** The rest of a pass hands over, in batch order, messages whose
      deadlines are the scores of the fetched tuples, at most one per tuple,
      and keeps the earlier calls as they were. */
  lemma PassLog(o: Oracle, w: World, batch: seq<Tuple>, next: int)
    ensures var (w', err) := Pass(o, w, batch, next);
      |w.log| <= |w'.log| <= |w.log| + |batch| && w'.log[..|w.log|] == w.log
    ensures var (w', err) := Pass(o, w, batch, next);
      forall j :: |w.log| <= j < |w'.log| ==> w'.log[j].msg.deadline == batch[j - |w.log|].score
  {
    DeliverLog(o, w, batch);
    var log := Deliver(o, w, batch).world.log;
    forall j | |w.log| <= j < |log| ensures log[j].msg.deadline == batch[j - |w.log|].score {
      assert Received(batch[j - |w.log|]) == Some(log[j].msg);
    }
  }

  /** Every message one pass hands over has a deadline in [0, now + period],
      and the calls of earlier passes stay in the log as they were. */
  lemma PollLog(o: Oracle, w: World, period: int, iter: nat)
    ensures var (w', err) := Poll(o, w, period, iter);
      |w.log| <= |w'.log| && w'.log[..|w.log|] == w.log
    ensures var (w', err) := Poll(o, w, period, iter);
      forall j :: |w.log| <= j < |w'.log| ==> 0 <= w'.log[j].msg.deadline <= w.now + period
  {
    var next := w.now + period;
    if o.ctx(iter).None? && o.fault(w.sent).None? {
      var w1 := w.(sent := w.sent + 1);
      RangeScores(w1.zset, 0, next);
      PassLog(o, w1, Range(w1.zset, 0, next), next);
    }
  }

  /** The rest of a pass, when it ends without error, has removed exactly
      the fetched members and set the clock to next. */
  lemma PassDrains(o: Oracle, w: World, batch: seq<Tuple>, next: int)
    ensures var (w', err) := Pass(o, w, batch, next);
      err.None? ==> w'.now == next && w'.zset == w.zset - Members(batch)
  {
    DeliverAllOrNothing(o, w, batch);
  }

  /** A pass that ends without error has removed exactly the entries with a
      score in [0, now + period], left every other entry with its score, and
      set the clock to the next poll. */
  lemma PollDrains(o: Oracle, w: World, period: int, iter: nat)
    ensures var (w', err) := Poll(o, w, period, iter);
      err.None? ==> w'.now == w.now + period
    ensures var (w', err) := Poll(o, w, period, iter);
      err.None? ==> forall k :: k in w'.zset <==> k in w.zset && !(0 <= w.zset[k] <= w.now + period)
    ensures var (w', err) := Poll(o, w, period, iter);
      err.None? ==> forall k :: k in w'.zset ==> w'.zset[k] == w.zset[k]
  {
    var next := w.now + period;
    if o.ctx(iter).None? && o.fault(w.sent).None? {
      var w1 := w.(sent := w.sent + 1);
      RangeMembers(w1.zset, 0, next);
      PassDrains(o, w1, Range(w1.zset, 0, next), next);
    }
  }

  /** A pass that ends without error over a set whose every score lies in
      [0, now + period] leaves the set empty. */
  lemma PollEmpties(o: Oracle, w: World, period: int, iter: nat)
    requires forall k :: k in w.zset ==> 0 <= w.zset[k] <= w.now + period
    ensures var (w', err) := Poll(o, w, period, iter);
      err.None? ==> w'.zset == map[]
  {
    PollDrains(o, w, period, iter);
    var (w', err) := Poll(o, w, period, iter);
    if err.None? {
      assert w'.zset.Keys == {};
    }
  }

  /** When the handler call for the k-th tuple of a batch fails, the rest
      of the pass returns exactly that error; tuples 0..k-1 have been
      removed and tuple k and every later one are still in the set with
      their scores. */
  lemma PassHandlerFailure(o: Oracle, w: World, batch: seq<Tuple>, next: int)
    requires Within(batch, w.zset) && Distinct(batch)
    ensures var (w', err) := Pass(o, w, batch, next);
      var k := |w'.log| - 1 - |w.log|;
      |w.log| < |w'.log| && o.outcome(|w'.log| - 1).Some? ==>
        err == o.outcome(|w'.log| - 1) && k < |batch|
        && (forall j :: 0 <= j < k ==> batch[j].member !in w'.zset)
        && (forall j :: k <= j < |batch| ==> batch[j].member in w'.zset && w'.zset[batch[j].member] == batch[j].score)
  {
    var b := Deliver(o, w, batch);
    DeliverLog(o, w, batch);
    DeliverHandlerError(o, w, batch);
    DeliverAcks(o, w, batch);
    DeliverRetains(o, w, batch);
    if |w.log| < |b.world.log| && o.outcome(|b.world.log| - 1).Some? {
      assert b.err.Some?;
      var k := |b.world.log| - 1 - |w.log|;
      forall j | 0 <= j < k ensures batch[j].member !in b.world.zset {
        assert batch[..b.acked][j].member == batch[j].member;
      }
    }
  }

  /** When the handler fails on the k-th tuple of a pass's fetch, the pass
      returns exactly that error; tuples 0..k-1 have been removed and tuple
      k and every later one are still in the set with their scores. */
  lemma PollHandlerFailure(o: Oracle, w: World, period: int, iter: nat)
    ensures var (w', err) := Poll(o, w, period, iter);
      var batch := Range(w.zset, 0, w.now + period);
      var k := |w'.log| - 1 - |w.log|;
      |w.log| < |w'.log| && o.outcome(|w'.log| - 1).Some? ==>
        err == o.outcome(|w'.log| - 1) && k < |batch|
        && (forall j :: 0 <= j < k ==> batch[j].member !in w'.zset)
        && (forall j :: k <= j < |batch| ==> batch[j].member in w'.zset && w'.zset[batch[j].member] == batch[j].score)
  {
    var next := w.now + period;
    if o.ctx(iter).None? && o.fault(w.sent).None? {
      var w1 := w.(sent := w.sent + 1);
      RangeOrdered(w1.zset, 0, next);
      RangeWithin(w1.zset, 0, next);
      PassHandlerFailure(o, w1, Range(w1.zset, 0, next), next);
    }
  }

  /** The deadlines of log[base..] never decrease. */
  predicate Ordered(log: seq<Delivery>, base: nat)
  {
    forall i, j :: base <= i < j < |log| ==> log[i].msg.deadline <= log[j].msg.deadline
  }

  /** The calls since base are in deadline order and none of them had a
      deadline after that of any entry still waiting with a score of at
      least 0. */
  predicate Settled(w: World, base: nat)
  {
    base <= |w.log| && Ordered(w.log, base) &&
    forall i, k :: base <= i < |w.log| && k in w.zset && 0 <= w.zset[k] ==> w.log[i].msg.deadline <= w.zset[k]
  }

  /** After a pass: the calls since base are in deadline order, and the
      world is settled if the pass went through. */
  predicate KeptOrder(r: (World, Option<Error>), base: nat)
  {
    Ordered(r.0.log, base) && (r.1.None? ==> Settled(r.0, base))
  }

  /** The rest of a pass keeps the calls in deadline order when the batch
      is sorted, holds entries of the set, and is everything due by next. */
  lemma PassKeepsOrder(o: Oracle, w: World, batch: seq<Tuple>, next: int, base: nat)
    requires Settled(w, base)
    requires Sorted(batch) && Within(batch, w.zset)
    requires forall i :: 0 <= i < |batch| ==> 0 <= batch[i].score <= next
    requires forall k :: k in w.zset && 0 <= w.zset[k] <= next ==> k in Members(batch)
    ensures KeptOrder(Pass(o, w, batch, next), base)
  {
    var n := |w.log|;
    PassLog(o, w, batch, next);
    PassDrains(o, w, batch, next);
    var (w', err) := Pass(o, w, batch, next);
    var log := w'.log;
    forall i, j | base <= i < j < |log| ensures log[i].msg.deadline <= log[j].msg.deadline {
      if j >= n {
        if i >= n {
          assert Before(batch[i - n], batch[j - n]);
        } else {
          assert log[i] == w.log[i];
          assert batch[j - n].member in w.zset;
        }
      } else {
        assert log[i] == w.log[i] && log[j] == w.log[j];
      }
    }
    if err.None? {
      forall i, k | base <= i < |log| && k in w'.zset && 0 <= w'.zset[k]
        ensures log[i].msg.deadline <= w'.zset[k]
      {
        assert k in w.zset && k !in Members(batch);
        if i < n {
          assert log[i] == w.log[i];
        }
      }
    }
  }

  /** A pass keeps the calls in deadline order: what it fetches is sorted,
      and nothing it fetches is due before anything delivered earlier. */
  lemma PollKeepsOrder(o: Oracle, w: World, period: int, iter: nat, base: nat)
    requires Settled(w, base)
    ensures KeptOrder(Poll(o, w, period, iter), base)
  {
    var next := w.now + period;
    if o.ctx(iter).None? && o.fault(w.sent).None? {
      PollStep(o, w, period, iter);
      RangeOrdered(w.zset, 0, next);
      RangeWithin(w.zset, 0, next);
      RangeScores(w.zset, 0, next);
      RangeMembers(w.zset, 0, next);
      PassKeepsOrder(o, w.(sent := w.sent + 1), Range(w.zset, 0, next), next, base);
    }
  }

  /** The rest of a pass never calls a handler early, and a handler error
      is the last call of the pass and the pass's error. */
  lemma PassHandler(o: Oracle, w: World, batch: seq<Tuple>, next: int)
    ensures var (w', err) := Pass(o, w, batch, next);
      forall j :: |w.log| <= j < |w'.log| ==> w'.log[j].msg.deadline <= w'.log[j].at
    ensures var (w', err) := Pass(o, w, batch, next);
      forall j :: |w.log| <= j < |w'.log| && o.outcome(j).Some? ==> j == |w'.log| - 1 && err == o.outcome(j)
  {
    DeliverLog(o, w, batch);
    DeliverNeverEarly(o, w, batch);
    DeliverHandlerError(o, w, batch);
  }

  /** A pass never calls a handler before the message's deadline, and a
      handler error is the last call of the pass and the pass's error. */
  lemma PollHandler(o: Oracle, w: World, period: int, iter: nat)
    ensures var (w', err) := Poll(o, w, period, iter);
      |w.log| <= |w'.log| && w'.log[..|w.log|] == w.log
    ensures var (w', err) := Poll(o, w, period, iter);
      forall j :: |w.log| <= j < |w'.log| ==> w'.log[j].msg.deadline <= w'.log[j].at
    ensures var (w', err) := Poll(o, w, period, iter);
      forall j :: |w.log| <= j < |w'.log| && o.outcome(j).Some? ==> j == |w'.log| - 1 && err == o.outcome(j)
  {
    var next := w.now + period;
    PollLog(o, w, period, iter);
    if o.ctx(iter).None? && o.fault(w.sent).None? {
      var w1 := w.(sent := w.sent + 1);
      PassHandler(o, w1, Range(w1.zset, 0, next), next);
    }
  }

  /** Started no later than next, over tuples due by next, the rest of a
      pass moves the clock forward only, by non-negative sleeps, and ends
      exactly at next when it goes through. */
  lemma PassClock(o: Oracle, w: World, batch: seq<Tuple>, next: int)
    requires w.now <= next
    requires forall i :: 0 <= i < |batch| ==> batch[i].score <= next
    ensures var (w', err) := Pass(o, w, batch, next);
      w.now <= w'.now && |w.sleeps| <= |w'.sleeps| && w'.sleeps[..|w.sleeps|] == w.sleeps
    ensures var (w', err) := Pass(o, w, batch, next);
      forall i :: |w.sleeps| <= i < |w'.sleeps| ==> 0 <= w'.sleeps[i]
  {
    DeliverSleeps(o, w, batch);
    DeliverClockBound(o, w, batch, next);
    var b := Deliver(o, w, batch);
    if b.err.None? {
      var w' := Sleep(b.world, next - b.world.now);
      assert w'.sleeps[..|b.world.sleeps|] == b.world.sleeps;
      assert w'.sleeps[..|w.sleeps|] == b.world.sleeps[..|w.sleeps|];
    }
  }

  /** With a non-negative poll period a pass moves the clock forward only,
      by non-negative sleeps appended to those already recorded. */
  lemma PollClock(o: Oracle, w: World, period: int, iter: nat)
    requires 0 <= period
    ensures var (w', err) := Poll(o, w, period, iter);
      w.now <= w'.now && |w.sleeps| <= |w'.sleeps| && w'.sleeps[..|w.sleeps|] == w.sleeps
    ensures var (w', err) := Poll(o, w, period, iter);
      forall i :: |w.sleeps| <= i < |w'.sleeps| ==> 0 <= w'.sleeps[i]
  {
    var next := w.now + period;
    if o.ctx(iter).None? && o.fault(w.sent).None? {
      var w1 := w.(sent := w.sent + 1);
      RangeScores(w1.zset, 0, next);
      PassClock(o, w1, Range(w1.zset, 0, next), next);
    }
  }

  /** Over a whole run, no handler is called before its message's deadline,
      and a handler error ends the run right after that call, with that
      error. */
  lemma {:induction false} RunHandler(o: Oracle, w: World, period: int, iter: nat, fuel: nat)
    ensures var (w', stop) := Run(o, w, period, iter, fuel);
      |w.log| <= |w'.log| && w'.log[..|w.log|] == w.log
    ensures var (w', stop) := Run(o, w, period, iter, fuel);
      forall j :: |w.log| <= j < |w'.log| ==> w'.log[j].msg.deadline <= w'.log[j].at
    ensures var (w', stop) := Run(o, w, period, iter, fuel);
      forall j :: |w.log| <= j < |w'.log| && o.outcome(j).Some? ==> j == |w'.log| - 1 && stop == Failed(o.outcome(j).value)
    decreases fuel
  {
    if fuel > 0 {
      PollHandler(o, w, period, iter);
      var (w1, err) := Poll(o, w, period, iter);
      if err.None? {
        RunHandler(o, w1, period, iter + 1, fuel - 1);
        var (w', stop) := Run(o, w1, period, iter + 1, fuel - 1);
        assert w'.log[..|w1.log|] == w1.log;
        assert w'.log[..|w.log|] == w.log;
        forall j | |w.log| <= j < |w'.log| ensures w'.log[j].msg.deadline <= w'.log[j].at {
          if j < |w1.log| {
            assert w'.log[j] == w1.log[j];
          }
        }
        forall j | |w.log| <= j < |w'.log| && o.outcome(j).Some?
          ensures j == |w'.log| - 1 && stop == Failed(o.outcome(j).value)
        {
          assert j >= |w1.log|;
        }
      }
    }
  }

  /** With a non-negative poll period the clock of a run never goes back:
      every sleep it asks for is non-negative. */
  lemma {:induction false} RunClock(o: Oracle, w: World, period: int, iter: nat, fuel: nat)
    requires 0 <= period
    ensures var (w', stop) := Run(o, w, period, iter, fuel);
      w.now <= w'.now && |w.sleeps| <= |w'.sleeps| && w'.sleeps[..|w.sleeps|] == w.sleeps
    ensures var (w', stop) := Run(o, w, period, iter, fuel);
      forall i :: |w.sleeps| <= i < |w'.sleeps| ==> 0 <= w'.sleeps[i]
    decreases fuel
  {
    if fuel > 0 {
      PollClock(o, w, period, iter);
      var (w1, err) := Poll(o, w, period, iter);
      if err.None? {
        RunClock(o, w1, period, iter + 1, fuel - 1);
        var (w', stop) := Run(o, w1, period, iter + 1, fuel - 1);
        assert w'.sleeps[..|w1.sleeps|] == w1.sleeps;
        assert w'.sleeps[..|w.sleeps|] == w.sleeps;
        forall i | |w.sleeps| <= i < |w'.sleeps| ensures 0 <= w'.sleeps[i] {
          if i < |w1.sleeps| {
            assert w'.sleeps[i] == w1.sleeps[i];
          }
        }
      }
    }
  }

  lemma {:induction false} RunKeepsOrder(o: Oracle, w: World, period: int, iter: nat, fuel: nat, base: nat)
    requires Settled(w, base)
    ensures Ordered(Run(o, w, period, iter, fuel).0.log, base)
    decreases fuel
  {
    if fuel > 0 {
      PollKeepsOrder(o, w, period, iter, base);
      var (w1, err) := Poll(o, w, period, iter);
      if err.None? {
        RunKeepsOrder(o, w1, period, iter + 1, fuel - 1, base);
      }
    }
  }

  /** Delivery order: over the whole run, the handler sees messages in
      order of their deadlines, across passes as well as within one. */
  lemma DeliveredInDeadlineOrder(o: Oracle, w: World, period: int, iter: nat, fuel: nat)
    ensures Ordered(Run(o, w, period, iter, fuel).0.log, |w.log|)
  {
    RunKeepsOrder(o, w, period, iter, fuel, |w.log|);
  }

  /** The messages of a stretch of the log, in the order the handler got them. */
  function Seen(log: seq<Delivery>): (r: seq<Option<Msg>>)
    ensures |r| == |log|
  {
    seq(|log|, j requires 0 <= j < |log| => Some(log[j].msg))
  }

  /** What the handler gets for each tuple of a batch, in batch order. */
  function Decoded(r: seq<Tuple>): (d: seq<Option<Msg>>)
    ensures |d| == |r|
  {
    seq(|r|, j requires 0 <= j < |r| => Received(r[j]))
  }

  /** The calls log adds to before hand over the messages of the first
      tuples of r. */
  predicate DeliveredPrefix(log: seq<Delivery>, before: seq<Delivery>, r: seq<Tuple>)
  {
    |before| <= |log| <= |before| + |r| && log[..|before|] == before &&
    Seen(log[|before|..]) == Decoded(r[..|log| - |before|])
  }

  /** DeliveredPrefix, call by call: the log keeps before, and each call
      after it is, in turn, the next tuple of r as the handler receives it;
      none skipped, none repeated, none added. */
  lemma DeliveredPrefixMeans(log: seq<Delivery>, before: seq<Delivery>, r: seq<Tuple>)
    ensures DeliveredPrefix(log, before, r) <==>
      |before| <= |log| <= |before| + |r| && log[..|before|] == before &&
      forall j :: |before| <= j < |log| ==> Received(r[j - |before|]) == Some(log[j].msg)
  {
    if |before| <= |log| <= |before| + |r| && log[..|before|] == before {
      var s := Seen(log[|before|..]);
      var d := Decoded(r[..|log| - |before|]);
      if forall j :: |before| <= j < |log| ==> Received(r[j - |before|]) == Some(log[j].msg) {
        forall i | 0 <= i < |s| ensures s[i] == d[i] {
          assert log[|before|..][i] == log[|before| + i];
          assert r[..|log| - |before|][i] == r[|before| + i - |before|];
        }
      }
      if s == d {
        forall j | |before| <= j < |log| ensures Received(r[j - |before|]) == Some(log[j].msg) {
          assert s[j - |before|] == d[j - |before|];
          assert log[|before|..][j - |before|] == log[j];
          assert r[..|log| - |before|][j - |before|] == r[j - |before|];
        }
      }
    }
  }

  /** The rest of a pass hands over the messages of a prefix of its batch;
      when it goes through, of all of it, and exactly the batch is removed. */
  lemma PassDelivers(o: Oracle, w: World, batch: seq<Tuple>, next: int)
    ensures var (w', err) := Pass(o, w, batch, next);
      DeliveredPrefix(w'.log, w.log, batch)
    ensures var (w', err) := Pass(o, w, batch, next);
      err.None? ==> |w'.log| == |w.log| + |batch| && w'.zset == w.zset - Members(batch) && w'.now == next
  {
    DeliverLog(o, w, batch);
    DeliveredPrefixMeans(Pass(o, w, batch, next).0.log, w.log, batch);
    DeliverAllOrNothing(o, w, batch);
    PassDrains(o, w, batch, next);
  }

  /** One pass hands over the messages of a prefix of the entries due by
      now + period; when it goes through, of all of them, and exactly those
      entries are removed. */
  lemma PollDelivers(o: Oracle, w: World, period: int, iter: nat)
    ensures var (w', err) := Poll(o, w, period, iter);
      DeliveredPrefix(w'.log, w.log, Range(w.zset, 0, w.now + period))
    ensures var (w', err) := Poll(o, w, period, iter);
      var r := Range(w.zset, 0, w.now + period);
      err.None? ==> |w'.log| == |w.log| + |r| && w'.zset == w.zset - Members(r) && w'.now == w.now + period
  {
    if o.ctx(iter).None? && o.fault(w.sent).None? {
      PollStep(o, w, period, iter);
      PassDelivers(o, w.(sent := w.sent + 1), Range(w.zset, 0, w.now + period), w.now + period);
    }
  }

  /** A prefix of the shorter of two nested ranges is a prefix of the longer. */
  lemma PrefixOfSplit(log: seq<Delivery>, before: seq<Delivery>, r1: seq<Tuple>, r2: seq<Tuple>)
    requires DeliveredPrefix(log, before, r1)
    ensures DeliveredPrefix(log, before, r1 + r2)
  {
    assert (r1 + r2)[..|log| - |before|] == r1[..|log| - |before|];
  }

  /** The calls of a whole batch, then of a prefix of the next, are a
      prefix of the two batches one after the other. */
  lemma PrefixAfterBatch(log: seq<Delivery>, log1: seq<Delivery>, before: seq<Delivery>, r1: seq<Tuple>, r2: seq<Tuple>)
    requires DeliveredPrefix(log1, before, r1) && |log1| == |before| + |r1|
    requires DeliveredPrefix(log, log1, r2)
    ensures DeliveredPrefix(log, before, r1 + r2)
  {
    assert log[..|before|] == log[..|log1|][..|before|];
    assert log[|before|..] == log1[|before|..] + log[|log1|..];
    assert (r1 + r2)[..|log| - |before|] == r1[..|log1| - |before|] + r2[..|log| - |log1|];
    SeenConcat(log1[|before|..], log[|log1|..]);
    DecodedConcat(r1[..|log1| - |before|], r2[..|log| - |log1|]);
  }

  lemma SeenConcat(a: seq<Delivery>, b: seq<Delivery>)
    ensures Seen(a + b) == Seen(a) + Seen(b)
  {
    forall j | 0 <= j < |a| + |b| ensures Seen(a + b)[j] == (Seen(a) + Seen(b))[j] {
      if j >= |a| { assert (a + b)[j] == b[j - |a|]; }
    }
  }

  lemma DecodedConcat(a: seq<Tuple>, b: seq<Tuple>)
    ensures Decoded(a + b) == Decoded(a) + Decoded(b)
  {
    forall j | 0 <= j < |a| + |b| ensures Decoded(a + b)[j] == (Decoded(a) + Decoded(b))[j] {
      if j >= |a| { assert (a + b)[j] == b[j - |a|]; }
    }
  }

  lemma MapMinusUnion(m: map<Bytes, int>, s1: set<Bytes>, s2: set<Bytes>)
    ensures (m - s1) - s2 == m - (s1 + s2)
  {
  }

  /** How far the due window of passes polls reaches, one period at a
      time from now. */
  function Horizon(now: int, period: int, passes: nat): int
    decreases passes
  {
    if passes == 0 then now else Horizon(now + period, period, passes - 1)
  }

  /** The window of passes polls ends passes periods after now. */
  lemma {:induction false} HorizonIs(now: int, period: int, passes: nat)
    ensures Horizon(now, period, passes) == now + passes * period
    decreases passes
  {
    if passes > 0 {
      HorizonIs(now + period, period, passes - 1);
      assert passes * period == (passes - 1) * period + period;
    }
  }

  /** With a non-negative period the window never ends before now. */
  lemma {:induction false} HorizonAhead(now: int, period: int, passes: nat)
    requires 0 <= period
    ensures now <= Horizon(now, period, passes)
    decreases passes
  {
    if passes > 0 {
      HorizonAhead(now + period, period, passes - 1);
    }
  }

  /** What passes polls of a sorted set m, starting at now, are to hand
      over if none fails: each pass's due range of what the earlier passes
      left, one after the other. */
  function Expected(m: map<Bytes, int>, now: int, period: int, passes: nat): seq<Tuple>
    decreases passes
  {
    if passes == 0 then []
    else
      var r1 := Range(m, 0, now + period);
      r1 + Expected(m - Members(r1), now + period, period, passes - 1)
  }

  /** With a non-negative period, what the passes are to hand over is the
      whole range due by the end of their window. */
  lemma {:induction false} ExpectedIsRange(m: map<Bytes, int>, now: int, period: int, passes: nat)
    requires 0 <= period && 0 < passes
    ensures Expected(m, now, period, passes) == Range(m, 0, Horizon(now, period, passes))
    decreases passes
  {
    var a := now + period;
    var r1 := Range(m, 0, a);
    var m1 := m - Members(r1);
    if passes == 1 {
      assert Expected(m, now, period, passes) == r1 + [];
    } else {
      var hi := Horizon(a, period, passes - 1);
      assert Expected(m1, a, period, passes - 1) == Range(m1, 0, hi) by {
        ExpectedIsRange(m1, a, period, passes - 1);
      }
      assert Range(m, 0, hi) == r1 + Range(m1, 0, hi) by {
        HorizonAhead(a, period, passes - 1);
        RangeSplitAt(m, m1, 0, a, hi);
      }
    }
  }

  /** The step of RunDeliversExpected for a pass that went through: its
      whole batch r1, then a prefix of r2 from the rest of the run, is a
      prefix of r1 + r2; when the rest drained r2, both batches are gone. */
  lemma GoodPassDelivers(w: World, w1: World, w': World, polling: bool, r1: seq<Tuple>, r2: seq<Tuple>)
    requires DeliveredPrefix(w1.log, w.log, r1) && |w1.log| == |w.log| + |r1| && w1.zset == w.zset - Members(r1)
    requires DeliveredPrefix(w'.log, w1.log, r2)
    requires polling ==> |w'.log| == |w1.log| + |r2| && w'.zset == w1.zset - Members(r2)
    ensures DeliveredPrefix(w'.log, w.log, r1 + r2)
    ensures polling ==> |w'.log| == |w.log| + |r1 + r2| && w'.zset == w.zset - Members(r1 + r2)
  {
    PrefixAfterBatch(w'.log, w1.log, w.log, r1, r2);
    MembersConcat(r1, r2);
    MapMinusUnion(w.zset, Members(r1), Members(r2));
  }

  /** A run hands over, one by one and in order, a prefix of what its
      passes are to hand over; a run that used up its passes without an
      error hands over all of it and removes exactly that. */
  lemma {:induction false} RunDeliversExpected(o: Oracle, w: World, period: int, iter: nat, fuel: nat)
    ensures var (w', stop) := Run(o, w, period, iter, fuel);
      var r := Expected(w.zset, w.now, period, fuel);
      DeliveredPrefix(w'.log, w.log, r) &&
      (stop == Polling ==> |w'.log| == |w.log| + |r| && w'.zset == w.zset - Members(r))
    decreases fuel, 1
  {
    if fuel == 0 {
      assert w.log[..|w.log|] == w.log;
      assert w.zset - Members([]) == w.zset;
    } else {
      var (w', stop) := Run(o, w, period, iter, fuel);
      PollDelivers(o, w, period, iter);
      var (w1, err) := Poll(o, w, period, iter);
      if err.Some? {
        assert w' == w1 && stop.Failed?;
        FailedDeliversExpected(w, w1, period, fuel);
      } else {
        assert (w', stop) == Run(o, w1, period, iter + 1, fuel - 1);
        RestDeliversExpected(o, w, w1, period, iter, fuel);
      }
    }
  }

  /** What passes are to hand over is the first pass's range, then what
      the other passes are to hand over from what it left. */
  lemma ExpectedStep(m: map<Bytes, int>, m1: map<Bytes, int>, now: int, next: int, period: int, passes: nat)
    requires 0 < passes && next == now + period && m1 == m - Members(Range(m, 0, now + period))
    ensures Expected(m, now, period, passes) == Range(m, 0, now + period) + Expected(m1, next, period, passes - 1)
  {
  }

  /** A first pass that failed handed over a prefix of its range, so a
      prefix of what all the passes were to hand over. */
  lemma FailedDeliversExpected(w: World, w1: World, period: int, fuel: nat)
    requires 0 < fuel && DeliveredPrefix(w1.log, w.log, Range(w.zset, 0, w.now + period))
    ensures DeliveredPrefix(w1.log, w.log, Expected(w.zset, w.now, period, fuel))
  {
    var r1 := Range(w.zset, 0, w.now + period);
    var r2 := Expected(w.zset - Members(r1), w.now + period, period, fuel - 1);
    ExpectedStep(w.zset, w.zset - Members(r1), w.now, w.now + period, period, fuel);
    PrefixOfSplit(w1.log, w.log, r1, r2);
  }

  /** The rest of RunDeliversExpected once the first pass went through and
      left the world w1. */
  lemma {:induction false} RestDeliversExpected(o: Oracle, w: World, w1: World, period: int, iter: nat, fuel: nat)
    requires 0 < fuel
    requires var r1 := Range(w.zset, 0, w.now + period);
      DeliveredPrefix(w1.log, w.log, r1) && |w1.log| == |w.log| + |r1| &&
      w1.zset == w.zset - Members(r1) && w1.now == w.now + period
    ensures var (w', stop) := Run(o, w1, period, iter + 1, fuel - 1);
      var r := Expected(w.zset, w.now, period, fuel);
      DeliveredPrefix(w'.log, w.log, r) &&
      (stop == Polling ==> |w'.log| == |w.log| + |r| && w'.zset == w.zset - Members(r))
    decreases fuel, 0
  {
    var r1 := Range(w.zset, 0, w.now + period);
    var r2 := Expected(w1.zset, w1.now, period, fuel - 1);
    assert Expected(w.zset, w.now, period, fuel) == r1 + r2 by {
      ExpectedStep(w.zset, w1.zset, w.now, w1.now, period, fuel);
    }
    RunDeliversExpected(o, w1, period, iter + 1, fuel - 1);
    var (w', stop) := Run(o, w1, period, iter + 1, fuel - 1);
    GoodPassDelivers(w, w1, w', stop == Polling, r1, r2);
  }

  /** Which messages a run hands over: after fuel passes with a
      non-negative period, the handler has seen, one by one and in order,
      the messages of a prefix of the entries that were due by
      now + fuel * period, none skipped and none repeated. A run that used
      up its passes without an error has seen all of them and removed
      exactly them. */
  lemma RunDelivers(o: Oracle, w: World, period: int, iter: nat, fuel: nat)
    requires 0 <= period
    ensures var (w', stop) := Run(o, w, period, iter, fuel);
      DeliveredPrefix(w'.log, w.log, Range(w.zset, 0, w.now + fuel * period))
    ensures var (w', stop) := Run(o, w, period, iter, fuel);
      var r := Range(w.zset, 0, w.now + fuel * period);
      0 < fuel && stop == Polling ==> |w'.log| == |w.log| + |r| && w'.zset == w.zset - Members(r)
  {
    RunDeliversExpected(o, w, period, iter, fuel);
    var (w', stop) := Run(o, w, period, iter, fuel);
    WindowDelivers(w, w', stop, period, fuel);
  }

  /** RunDelivers for any outcome of fuel passes that handed over a prefix
      of what they were to, or all of it when they ran out. */
  lemma WindowDelivers(w: World, w': World, stop: Stop, period: int, fuel: nat)
    requires 0 <= period
    requires var r := Expected(w.zset, w.now, period, fuel);
      DeliveredPrefix(w'.log, w.log, r) &&
      (stop == Polling ==> |w'.log| == |w.log| + |r| && w'.zset == w.zset - Members(r))
    ensures DeliveredPrefix(w'.log, w.log, Range(w.zset, 0, w.now + fuel * period))
    ensures var r := Range(w.zset, 0, w.now + fuel * period);
      0 < fuel && stop == Polling ==> |w'.log| == |w.log| + |r| && w'.zset == w.zset - Members(r)
  {
    var r := Range(w.zset, 0, w.now + fuel * period);
    if fuel == 0 {
      PrefixOfSplit(w'.log, w.log, [], r);
      assert [] + r == r;
    } else {
      assert Expected(w.zset, w.now, period, fuel) == r by {
        ExpectedIsRange(w.zset, w.now, period, fuel);
        HorizonIs(w.now, period, fuel);
      }
    }
  }
}
