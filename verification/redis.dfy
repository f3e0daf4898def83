/** The Redis server seen through one connection: the sorted set stored
    under the queue's name, and the commands the delay queue sends to it.
    A connection may fail any command; which ones fail is fixed up front by
    the oracle `fault`, indexed by how many commands were sent before. */
module Redis {
  import opened Base
  import opened Decimal
  import opened ZSet

  /** The flat WITHSCORES reply: member, score text, member, score text, ... */
  function Flatten(s: seq<Tuple>): (res: seq<Bytes>)
    ensures |res| == 2 * |s|
    ensures forall k :: 0 <= k < |s| ==> res[2 * k] == s[k].member && res[2 * k + 1] == Format(s[k].score)
  {
    if s == [] then []
    else
      var init := Flatten(s[..|s| - 1]);
      var last := s[|s| - 1];
      assert forall k :: 0 <= k < |s| - 1 ==> s[..|s| - 1][k] == s[k];
      init + [last.member, Format(last.score)]
  }

  class Server {
    /** member -> score of the sorted set */
    var zset: map<Bytes, int>
    /** commands sent so far */
    var sent: nat
    /** the failure, if any, of the n-th command */
    const fault: nat -> Option<Error>

    constructor (fault: nat -> Option<Error>)
      ensures zset == map[] && sent == 0 && this.fault == fault
    {
      zset := map[];
      sent := 0;
      this.fault := fault;
    }

    /** ZADD key NX score member: adds member unless it is already present,
        and replies with the number of members added. */
    method ZAddNX(score: int, member: Bytes) returns (r: Result<int>)
      modifies this
      ensures sent == old(sent) + 1
      ensures fault(old(sent)).Some? ==> r == Err(fault(old(sent)).value) && zset == old(zset)
      ensures fault(old(sent)).None? && member in old(zset) ==> r == Ok(0) && zset == old(zset)
      ensures fault(old(sent)).None? && member !in old(zset) ==> r == Ok(1) && zset == old(zset)[member := score]
    {
      var f := fault(sent);
      sent := sent + 1;
      if f.Some? {
        return Err(f.value);
      }
      if member in zset {
        return Ok(0);
      }
      zset := zset[member := score];
      return Ok(1);
    }

    /** ZREM key member: removes member if it is present. */
    method ZRem(member: Bytes) returns (err: Option<Error>)
      modifies this
      ensures sent == old(sent) + 1
      ensures err == fault(old(sent))
      ensures zset == if err.Some? then old(zset) else old(zset) - {member}
    {
      err := fault(sent);
      sent := sent + 1;
      if err.None? {
        zset := zset - {member};
      }
    }

    /** ZRANGEBYSCORE key min max WITHSCORES, as the flat reply. */
    method ZRangeByScore(min: int, max: int) returns (r: Result<seq<Bytes>>)
      modifies this
      ensures sent == old(sent) + 1 && zset == old(zset)
      ensures r == if fault(old(sent)).Some? then Err(fault(old(sent)).value)
                   else Ok(Flatten(Range(zset, min, max)))
    {
      var f := fault(sent);
      sent := sent + 1;
      if f.Some? {
        return Err(f.value);
      }
      return Ok(Flatten(Range(zset, min, max)));
    }
  }
}
