/** The delay queue itself: producers add messages to the sorted set with
    their deadline as score, and the consumer loop polls the set, waits for
    each due message's deadline, hands it to the handler and removes it.
    The clock and the handler are objects the loop changes; the consumer
    loop is proved to do exactly what the pure model Consumer.Run says. */
module DelayQ {
  import opened Base
  import opened ZSet
  import opened Message
  import opened Redis
  import opened DqRadix
  import opened Consumer

  /** The clock the queue reads and sleeps on. As in the tests, a sleep of
      d moves the clock by exactly d and is recorded. */
  class Clock {
    var now: int
    var sleeps: seq<int>

    constructor (start: int)
      ensures now == start && sleeps == []
    {
      now := start;
      sleeps := [];
    }

    method Sleep(d: int)
      modifies this
      ensures now == old(now) + d && sleeps == old(sleeps) + [d]
    {
      now := now + d;
      sleeps := sleeps + [d];
    }
  }

  /** A handler that follows a script: its n-th call returns outcome(n).
      Every call is recorded with the clock at the moment of the call. */
  class Handler {
    const outcome: nat -> Option<Error>
    var log: seq<Delivery>

    constructor (outcome: nat -> Option<Error>)
      ensures this.outcome == outcome && log == []
    {
      this.outcome := outcome;
      log := [];
    }

    method Handle(m: Msg, at: int) returns (err: Option<Error>)
      modifies this
      ensures log == old(log) + [Delivery(m, at)]
      ensures err == outcome(|old(log)|)
    {
      err := outcome(|log|);
      log := log + [Delivery(m, at)];
    }
  }

  /** Everything the consumer loop reads and changes, as one value. */
  ghost function Observe(conn: Server, clock: Clock, handler: Handler): World
    reads conn, clock, handler
  {
    World(conn.zset, conn.sent, clock.now, clock.sleeps, handler.log)
  }

  class Queue {
    const cl: Client

    constructor (cl: Client)
      ensures this.cl == cl
    {
      this.cl := cl;
    }

    /** Adds a message with its deadline as score. The member is the
        encoding of the id and the data only, so a message whose id and
        data are already queued is refused with ErrExists, whatever its
        deadline, and the queued one keeps its score. */
    method AddMsg(m: Msg) returns (err: Option<Error>)
      modifies cl.conn
      ensures cl.conn.sent == old(cl.conn.sent) + 1
      ensures cl.conn.fault(old(cl.conn.sent)).Some? ==>
        err == cl.conn.fault(old(cl.conn.sent)) && cl.conn.zset == old(cl.conn.zset)
      ensures cl.conn.fault(old(cl.conn.sent)).None? && Marshal(m) in old(cl.conn.zset) ==>
        err == Some(ErrExists) && cl.conn.zset == old(cl.conn.zset)
      ensures cl.conn.fault(old(cl.conn.sent)).None? && Marshal(m) !in old(cl.conn.zset) ==>
        err.None? && cl.conn.zset == old(cl.conn.zset)[Marshal(m) := m.deadline]
    {
      var b := Marshal(m);
      var count, e := cl.ZAddNX(m.deadline, b);
      if e.Some? {
        return e;
      } else if count == 0 {
        return Some(ErrExists);
      }
      return None;
    }

    /** Adds data to be delivered delay nanoseconds from now, under the
        fresh id the caller generated; returns that id, or the empty id and
        the error. */
    method Add(clock: Clock, id: Bytes, data: Bytes, delay: int) returns (r: Bytes, err: Option<Error>)
      modifies cl.conn
      ensures var m := Msg(id, data, clock.now + delay);
        cl.conn.sent == old(cl.conn.sent) + 1 &&
        (cl.conn.fault(old(cl.conn.sent)).Some? ==>
          err == cl.conn.fault(old(cl.conn.sent)) && cl.conn.zset == old(cl.conn.zset)) &&
        (cl.conn.fault(old(cl.conn.sent)).None? && Marshal(m) in old(cl.conn.zset) ==>
          err == Some(ErrExists) && cl.conn.zset == old(cl.conn.zset)) &&
        (cl.conn.fault(old(cl.conn.sent)).None? && Marshal(m) !in old(cl.conn.zset) ==>
          err.None? && cl.conn.zset == old(cl.conn.zset)[Marshal(m) := clock.now + delay])
      ensures r == if err.None? then id else []
    {
      err := AddMsg(Msg(id, data, clock.now + delay));
      if err.Some? {
        return [], err;
      }
      return id, None;
    }

    /** One step of the inner loop: decode the member, sleep until the
        deadline if it is still ahead, call the handler, and remove the
        member, stopping at the first error. */
    method HandleTuple(ghost o: Oracle, handler: Handler, clock: Clock, t: Tuple) returns (err: Option<Error>)
      requires o.fault == cl.conn.fault && o.outcome == handler.outcome
      modifies cl.conn, clock, handler
      ensures (Observe(cl.conn, clock, handler), err) == HandleOne(o, old(Observe(cl.conn, clock, handler)), t)
    {
      ghost var w := Observe(cl.conn, clock, handler);
      var decoded := Unmarshal(t.member);
      if decoded.None? {
        return Some(BadMember);
      }
      var m := decoded.value.(deadline := t.score);
      var n := clock.now;
      if m.deadline > n {
        clock.Sleep(m.deadline - n);
      }
      assert Observe(cl.conn, clock, handler) == WaitFor(w, m.deadline);
      err := handler.Handle(m, clock.now);
      if err.Some? {
        return err;
      }
      err := cl.ZRem(t.member);
    }

    /** The rest of one pass once the fetch succeeded: each fetched tuple in
        order, then the sleep until the next poll. The first error ends it. */
    method DeliverFetched(ghost o: Oracle, handler: Handler, clock: Clock, batch: seq<Tuple>, nextPoll: int)
      returns (err: Option<Error>)
      requires o.fault == cl.conn.fault && o.outcome == handler.outcome
      modifies cl.conn, clock, handler
      ensures (Observe(cl.conn, clock, handler), err) == Pass(o, old(Observe(cl.conn, clock, handler)), batch, nextPoll)
    {
      ghost var goal := Pass(o, Observe(cl.conn, clock, handler), batch, nextPoll);
      var i := 0;
      while i < |batch|
        invariant i <= |batch|
        invariant goal == Pass(o, Observe(cl.conn, clock, handler), batch[i..], nextPoll)
      {
        assert batch[i..][0] == batch[i] && batch[i..][1..] == batch[i + 1..];
        PassStep(o, Observe(cl.conn, clock, handler), batch[i..], nextPoll);
        err := HandleTuple(o, handler, clock, batch[i]);
        if err.Some? {
          return err;
        }
        i := i + 1;
      }
      clock.Sleep(nextPoll - clock.now);
      return None;
    }

    /** One pass of the consumer loop: the cancellation check, the fetch of
        every entry due by the next poll, and the rest of the pass. */
    method PollOnce(ghost o: Oracle, ctx: nat -> Option<Error>, handler: Handler, clock: Clock, pollPeriod: int, iter: nat)
      returns (err: Option<Error>)
      requires o.ctx == ctx && o.fault == cl.conn.fault && o.outcome == handler.outcome
      modifies cl.conn, clock, handler
      ensures (Observe(cl.conn, clock, handler), err) == Poll(o, old(Observe(cl.conn, clock, handler)), pollPeriod, iter)
    {
      ghost var w := Observe(cl.conn, clock, handler);
      err := ctx(iter);
      if err.Some? {
        return err;
      }
      var nextPoll := clock.now + pollPeriod;
      var el := cl.ZRangeByScore(0, nextPoll);
      if el.Err? {
        return Some(el.error);
      }
      assert Observe(cl.conn, clock, handler) == w.(sent := w.sent + 1);
      PollStep(o, w, pollPeriod, iter);
      err := DeliverFetched(o, handler, clock, el.value, nextPoll);
    }

    /** The consumer loop: each pass checks for cancellation, fetches every
        entry due by the next poll, delivers it, and sleeps until the next
        poll; the first error ends the loop and is returned. At most fuel
        passes are made; the loop ends Polling only when they are used up.
        The poll period is one second unless the caller gives another.
        What the loop does to the set, the clock and the handler is exactly
        Run of the pure model, so every lemma about Run holds of it. */
    method Dequeue(ctx: nat -> Option<Error>, handler: Handler, clock: Clock, fuel: nat, pollPeriod: int := DefaultPollPeriod)
      returns (stop: Stop)
      modifies cl.conn, clock, handler
      ensures (Observe(cl.conn, clock, handler), stop) ==
        Run(Oracle(ctx, cl.conn.fault, handler.outcome), old(Observe(cl.conn, clock, handler)), pollPeriod, 0, fuel)
    {
      ghost var o := Oracle(ctx, cl.conn.fault, handler.outcome);
      ghost var goal := Run(o, Observe(cl.conn, clock, handler), pollPeriod, 0, fuel);
      var iter: nat := 0;
      while iter < fuel
        invariant iter <= fuel
        invariant goal == Run(o, Observe(cl.conn, clock, handler), pollPeriod, iter, fuel - iter)
      {
        RunStep(o, Observe(cl.conn, clock, handler), pollPeriod, iter, fuel - iter);
        var err := PollOnce(o, ctx, handler, clock, pollPeriod, iter);
        if err.Some? {
          return Failed(err.value);
        }
        iter := iter + 1;
      }
      return Polling;
    }
  }

  /** What Dequeue hands the handler for an entry that AddMsg stored is
      the message that was added, deadline included. */
  lemma AddedIsReceived(m: Msg)
    ensures Received(Tuple(Marshal(m), m.deadline)) == Some(m)
  {
    UnmarshalMarshal(m);
  }
}
