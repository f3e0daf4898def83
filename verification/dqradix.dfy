/** The delay queue's Redis client: thin pass-throughs for ZADD NX and ZREM,
    and the decoding of a flat ZRANGEBYSCORE WITHSCORES reply into tuples. */
module DqRadix {
  import opened Base
  import opened Decimal
  import opened ZSet
  import opened Redis

  /** The k-th member of a flat reply. */
  function MemberAt(res: seq<Bytes>, k: nat): Bytes
    requires 2 * k < |res|
  {
    res[2 * k]
  }

  /** The score text of the k-th pair of a flat reply. */
  function ScoreAt(res: seq<Bytes>, k: nat): Bytes
    requires 2 * k + 1 < |res|
  {
    res[2 * k + 1]
  }

  /** Pairs up a flat reply. An odd-length reply is an error; so is a score
      that does not parse, and then the first such score is reported and no
      tuple is returned. Otherwise tuple k is (res[2k], parse(res[2k+1])). */
  method DecodeReply(res: seq<Bytes>) returns (r: Result<seq<Tuple>>)
    ensures |res| % 2 != 0 ==> r == Err(OddReply)
    ensures r.Ok? <==> |res| % 2 == 0 && forall k :: 0 <= k < |res| / 2 ==> Parse(ScoreAt(res, k)).Some?
    ensures r.Ok? ==> |r.value| == |res| / 2
    ensures r.Ok? ==> forall k :: 0 <= k < |r.value| ==> r.value[k] == Tuple(MemberAt(res, k), Parse(ScoreAt(res, k)).value)
    ensures r.Err? && |res| % 2 == 0 ==>
      exists k :: 0 <= k < |res| / 2 && Parse(ScoreAt(res, k)).None? && r.error == BadScore(ScoreAt(res, k))
        && forall j :: 0 <= j < k ==> Parse(ScoreAt(res, j)).Some?
  {
    if |res| % 2 != 0 {
      return Err(OddReply);
    }
    var tuples: seq<Tuple> := [];
    var tuple := Tuple([], 0);
    var i := 0;
    while i < |res|
      invariant 0 <= i <= |res|
      invariant |tuples| == i / 2
      invariant i % 2 == 1 ==> tuple.member == res[i - 1]
      invariant forall k :: 0 <= k < i / 2 ==> Parse(ScoreAt(res, k)).Some?
      invariant forall k :: 0 <= k < i / 2 ==> tuples[k] == Tuple(MemberAt(res, k), Parse(ScoreAt(res, k)).value)
    {
      if i % 2 == 0 {
        tuple := tuple.(member := res[i]);
        i := i + 1;
        continue;
      }
      var f := Parse(res[i]);
      if f.None? {
        assert res[i] == ScoreAt(res, i / 2);
        return Err(BadScore(res[i]));
      }
      tuple := tuple.(score := f.value);
      tuples := tuples + [tuple];
      i := i + 1;
    }
    return Ok(tuples);
  }

  /** Every pair of the reply a server writes for s reads back as the
      corresponding tuple of s. */
  lemma FlattenReadsBack(s: seq<Tuple>)
    ensures |Flatten(s)| % 2 == 0 && |Flatten(s)| / 2 == |s|
    ensures forall k :: 0 <= k < |s| ==>
      MemberAt(Flatten(s), k) == s[k].member && Parse(ScoreAt(Flatten(s), k)) == Some(s[k].score)
  {
    forall k | 0 <= k < |s|
      ensures Parse(ScoreAt(Flatten(s), k)) == Some(s[k].score)
    {
      ParseFormat(s[k].score);
    }
  }

  class Client {
    const conn: Server

    constructor (conn: Server)
      ensures this.conn == conn
    {
      this.conn := conn;
    }

    /** ZAddNX: on a connection error the count is 0 and the error is passed
        on; otherwise the server's count, 1 for a new member and 0 for one
        already present whatever its score. */
    method ZAddNX(score: int, member: Bytes) returns (count: int, err: Option<Error>)
      modifies conn
      ensures conn.sent == old(conn.sent) + 1
      ensures conn.fault(old(conn.sent)).Some? ==>
        count == 0 && err == conn.fault(old(conn.sent)) && conn.zset == old(conn.zset)
      ensures conn.fault(old(conn.sent)).None? && member in old(conn.zset) ==>
        count == 0 && err.None? && conn.zset == old(conn.zset)
      ensures conn.fault(old(conn.sent)).None? && member !in old(conn.zset) ==>
        count == 1 && err.None? && conn.zset == old(conn.zset)[member := score]
    {
      var r := conn.ZAddNX(score, member);
      if r.Err? {
        return 0, Some(r.error);
      }
      return r.value, None;
    }

    method ZRem(member: Bytes) returns (err: Option<Error>)
      modifies conn
      ensures conn.sent == old(conn.sent) + 1
      ensures err == conn.fault(old(conn.sent))
      ensures conn.zset == if err.Some? then old(conn.zset) else old(conn.zset) - {member}
    {
      err := conn.ZRem(member);
    }

    /** ZRangeByScore: the entries with a score in [min, max] in sorted-set
        order, or the connection's error. */
    method ZRangeByScore(min: int, max: int) returns (r: Result<seq<Tuple>>)
      modifies conn
      ensures conn.sent == old(conn.sent) + 1 && conn.zset == old(conn.zset)
      ensures r == if conn.fault(old(conn.sent)).Some? then Err(conn.fault(old(conn.sent)).value)
                   else Ok(Range(conn.zset, min, max))
    {
      var reply := conn.ZRangeByScore(min, max);
      if reply.Err? {
        return Err(reply.error);
      }
      ghost var s := Range(conn.zset, min, max);
      r := DecodeReply(reply.value);
      FlattenReadsBack(s);
      assert r.Ok?;
      assert r.value == s;
    }
  }

  /** The members the client's own test uses: "member1", "member2", "member3". */
  const Member1: Bytes := [109, 101, 109, 98, 101, 114, 49]
  const Member2: Bytes := [109, 101, 109, 98, 101, 114, 50]
  const Member3: Bytes := [109, 101, 109, 98, 101, 114, 51]

  /** The writes of the client's basic scenario against an empty set on a
      connection that never fails: remove a missing member, add member1
      twice, remove it, add it again at score 1 and then at score 2, add
      member2 at 2 and member3 at 3. */
  method BasicWrites(cl: Client) returns (counts: seq<int>)
    requires cl.conn.zset == map[] && forall n :: cl.conn.fault(n) == None
    modifies cl.conn
    ensures counts == [1, 0, 1, 0, 1, 1]
    ensures cl.conn.zset == map[Member1 := 1, Member2 := 2, Member3 := 3]
  {
    var err := cl.ZRem(Member1);
    assert cl.conn.zset == map[];
    var c1, _ := cl.ZAddNX(1, Member1);
    assert cl.conn.zset == map[Member1 := 1];
    var c2, _ := cl.ZAddNX(1, Member1);
    err := cl.ZRem(Member1);
    assert cl.conn.zset == map[];
    var c3, _ := cl.ZAddNX(1, Member1);
    assert cl.conn.zset == map[Member1 := 1];
    var c4, _ := cl.ZAddNX(2, Member1);
    assert Member2 !in cl.conn.zset;
    var c5, _ := cl.ZAddNX(2, Member2);
    assert Member3 !in cl.conn.zset;
    var c6, _ := cl.ZAddNX(3, Member3);
    counts := [c1, c2, c3, c4, c5, c6];
  }

  /** The whole basic scenario: the writes above, then the ranges [1, 3]
      and [2, 2] read back in score order. */
  method Basic() returns (counts: seq<int>, all: seq<Tuple>, two: seq<Tuple>)
    ensures counts == [1, 0, 1, 0, 1, 1]
    ensures all == [Tuple(Member1, 1), Tuple(Member2, 2), Tuple(Member3, 3)]
    ensures two == [Tuple(Member2, 2)]
  {
    var conn := new Server(n => None);
    var cl := new Client(conn);
    counts := BasicWrites(cl);
    var r := cl.ZRangeByScore(1, 3);
    ThreeEntries(conn.zset);
    all := r.value;
    r := cl.ZRangeByScore(2, 2);
    MiddleEntry(conn.zset);
    two := r.value;
  }

  lemma ThreeEntries(m: map<Bytes, int>)
    requires m == map[Member1 := 1, Member2 := 2, Member3 := 3]
    ensures Range(m, 1, 3) == [Tuple(Member1, 1), Tuple(Member2, 2), Tuple(Member3, 3)]
  {
    var r := Range(m, 1, 3);
    RangeOrdered(m, 1, 3);
    RangeWithin(m, 1, 3);
    RangeMembers(m, 1, 3);
    DistinctCount(r);
    assert m.Keys == {Member1, Member2, Member3};
    assert Members(r) == m.Keys;
    ThreeSorted(r);
  }

  lemma MiddleEntry(m: map<Bytes, int>)
    requires m == map[Member1 := 1, Member2 := 2, Member3 := 3]
    ensures Range(m, 2, 2) == [Tuple(Member2, 2)]
  {
    var r := Range(m, 2, 2);
    RangeWithin(m, 2, 2);
    RangeMembers(m, 2, 2);
    RangeOrdered(m, 2, 2);
    DistinctCount(r);
    assert Members(r) == {Member2};
    assert |r| == 1;
  }

  /** Three distinct tuples with scores 1, 2 and 3 and members member1 to
      member3, in score order, are those three in that order. */
  lemma ThreeSorted(r: seq<Tuple>)
    requires |r| == 3 && Sorted(r) && Members(r) == {Member1, Member2, Member3}
    requires Within(r, map[Member1 := 1, Member2 := 2, Member3 := 3])
    ensures r == [Tuple(Member1, 1), Tuple(Member2, 2), Tuple(Member3, 3)]
  {
    assert Before(r[0], r[1]) && Before(r[1], r[2]);
  }
}
