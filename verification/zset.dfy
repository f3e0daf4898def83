/** The ordering and range semantics of a Redis sorted set, as pure
    functions on a map from member to score. Redis orders entries by score
    and breaks ties by comparing member bytes; ZRANGEBYSCORE returns the
    entries whose score lies between two inclusive bounds in that order. */
module ZSet {
  import opened Base

  /** One (member, score) pair of a sorted set, as the client hands it on. */
  datatype Tuple = Tuple(member: Bytes, score: int)

  /** Byte order of members: the first differing byte decides, and a proper
      prefix comes first. */
  predicate MemberLe(a: Bytes, b: Bytes)
  {
    a == [] || (b != [] && (a[0] < b[0] || (a[0] == b[0] && MemberLe(a[1..], b[1..]))))
  }

  lemma MemberLeTotal(a: Bytes, b: Bytes)
    ensures MemberLe(a, b) || MemberLe(b, a)
  {
  }

  lemma MemberLeAntisymmetric(a: Bytes, b: Bytes)
    requires MemberLe(a, b) && MemberLe(b, a)
    ensures a == b
  {
  }

  lemma MemberLeTransitive(a: Bytes, b: Bytes, c: Bytes)
    requires MemberLe(a, b) && MemberLe(b, c)
    ensures MemberLe(a, c)
  {
  }

  /** x comes no later than y in a sorted set. */
  predicate Before(x: Tuple, y: Tuple)
  {
    x.score < y.score || (x.score == y.score && MemberLe(x.member, y.member))
  }

  lemma BeforeTotal(x: Tuple, y: Tuple)
    ensures Before(x, y) || Before(y, x)
  {
    MemberLeTotal(x.member, y.member);
  }

  lemma BeforeTransitive(x: Tuple, y: Tuple, z: Tuple)
    requires Before(x, y) && Before(y, z)
    ensures Before(x, z)
  {
    if x.score == y.score == z.score {
      MemberLeTransitive(x.member, y.member, z.member);
    }
  }

  /** k holds the first entry of m. */
  predicate IsFirst(m: map<Bytes, int>, k: Bytes)
  {
    k in m && forall k' :: k' in m ==> Before(Tuple(k, m[k]), Tuple(k', m[k']))
  }

  lemma {:induction false} FirstExists(m: map<Bytes, int>)
    requires |m| > 0
    ensures exists k :: IsFirst(m, k)
    decreases |m|
  {
    var k0 :| k0 in m;
    var t0 := Tuple(k0, m[k0]);
    BeforeTotal(t0, t0);
    var rest := m - {k0};
    assert rest.Keys == m.Keys - {k0};
    if |rest| == 0 {
      assert rest.Keys == {};
      assert m.Keys == {k0};
      assert IsFirst(m, k0);
    } else {
      FirstExists(rest);
      var k1 :| IsFirst(rest, k1);
      var t1 := Tuple(k1, m[k1]);
      BeforeTotal(t0, t1);
      if Before(t0, t1) {
        forall k | k in m ensures Before(t0, Tuple(k, m[k])) {
          if k != k0 {
            assert k in rest;
            BeforeTransitive(t0, t1, Tuple(k, m[k]));
          }
        }
        assert IsFirst(m, k0);
      } else {
        forall k | k in m ensures Before(t1, Tuple(k, m[k])) {
          if k != k0 {
            assert k in rest;
          }
        }
        assert IsFirst(m, k1);
      }
    }
  }

  lemma FirstUnique(m: map<Bytes, int>)
    ensures forall k1, k2 :: IsFirst(m, k1) && IsFirst(m, k2) ==> k1 == k2
  {
    forall k1, k2 | IsFirst(m, k1) && IsFirst(m, k2) ensures k1 == k2 {
      assert Before(Tuple(k1, m[k1]), Tuple(k2, m[k2]));
      assert Before(Tuple(k2, m[k2]), Tuple(k1, m[k1]));
      MemberLeAntisymmetric(k1, k2);
    }
  }

  /** Every entry of m in sorted-set order. */
  function Listing(m: map<Bytes, int>): seq<Tuple>
    decreases |m|
  {
    if |m| == 0 then []
    else
      FirstExists(m);
      FirstUnique(m);
      var k :| IsFirst(m, k);
      assert (m - {k}).Keys == m.Keys - {k};
      [Tuple(k, m[k])] + Listing(m - {k})
  }

  lemma ListingCons(m: map<Bytes, int>)
    requires |m| > 0
    ensures 0 < |Listing(m)| && IsFirst(m, Listing(m)[0].member)
    ensures Listing(m) == [Tuple(Listing(m)[0].member, m[Listing(m)[0].member])] + Listing(m - {Listing(m)[0].member})
  {
  }

  function Members(s: seq<Tuple>): set<Bytes>
  {
    set i | 0 <= i < |s| :: s[i].member
  }

  predicate Sorted(s: seq<Tuple>)
  {
    forall i, j :: 0 <= i < j < |s| ==> Before(s[i], s[j])
  }

  predicate Distinct(s: seq<Tuple>)
  {
    forall i, j :: 0 <= i < j < |s| ==> s[i].member != s[j].member
  }

  /** Every tuple of s is an entry of m. */
  predicate Within(s: seq<Tuple>, m: map<Bytes, int>)
  {
    forall i :: 0 <= i < |s| ==> s[i].member in m && m[s[i].member] == s[i].score
  }

  lemma MembersCons(t: Tuple, s: seq<Tuple>)
    ensures Members([t] + s) == {t.member} + Members(s)
  {
    var c := [t] + s;
    forall x | x in Members(c) ensures x in {t.member} + Members(s) {
      var i :| 0 <= i < |c| && c[i].member == x;
      if i > 0 { assert s[i - 1].member == x; }
    }
    forall x | x in Members(s) ensures x in Members(c) {
      var i :| 0 <= i < |s| && s[i].member == x;
      assert c[i + 1].member == x;
    }
    assert c[0].member == t.member;
  }

  /** Putting in front a tuple that comes before, and differs from, every
      tuple of a sorted, duplicate-free sequence keeps it so. */
  lemma ConsSorted(t: Tuple, s: seq<Tuple>)
    requires Sorted(s) && Distinct(s)
    requires forall j :: 0 <= j < |s| ==> Before(t, s[j]) && t.member != s[j].member
    ensures Sorted([t] + s) && Distinct([t] + s)
  {
    var c := [t] + s;
    forall i, j | 0 <= i < j < |c| ensures Before(c[i], c[j]) && c[i].member != c[j].member {
      assert c[j] == s[j - 1];
      if i > 0 {
        assert c[i] == s[i - 1];
      }
    }
  }

  /** The listing holds the entries of m and names every member of m. */
  lemma ListingEntries(m: map<Bytes, int>)
    ensures Within(Listing(m), m) && Members(Listing(m)) == m.Keys
  {
    ListingWithin(m);
    ListingMembers(m);
  }

  lemma {:induction false} ListingWithin(m: map<Bytes, int>)
    ensures Within(Listing(m), m)
    decreases |m|
  {
    if |m| > 0 {
      ListingCons(m);
      var s := Listing(m);
      var k := s[0].member;
      var rest := m - {k};
      ListingWithin(rest);
      var tail := Listing(rest);
      forall i | 0 <= i < |s| ensures s[i].member in m && m[s[i].member] == s[i].score {
        if i > 0 {
          assert s[i] == tail[i - 1];
          assert s[i].member in rest;
        }
      }
    }
  }

  lemma {:induction false} ListingMembers(m: map<Bytes, int>)
    ensures Members(Listing(m)) == m.Keys
    decreases |m|
  {
    if |m| > 0 {
      ListingCons(m);
      var s := Listing(m);
      var k := s[0].member;
      var rest := m - {k};
      assert rest.Keys == m.Keys - {k};
      ListingMembers(rest);
      MembersCons(Tuple(k, m[k]), Listing(rest));
    }
  }

  /** The listing is in sorted-set order and names no member twice. */
  lemma {:induction false} ListingOrdered(m: map<Bytes, int>)
    ensures Sorted(Listing(m)) && Distinct(Listing(m))
    decreases |m|
  {
    if |m| > 0 {
      ListingCons(m);
      var s := Listing(m);
      var k := s[0].member;
      var t := Tuple(k, m[k]);
      var rest := m - {k};
      assert rest.Keys == m.Keys - {k};
      ListingOrdered(rest);
      ListingEntries(rest);
      var tail := Listing(rest);
      assert s == [t] + tail;
      forall j | 0 <= j < |tail| ensures Before(t, tail[j]) && t.member != tail[j].member {
        assert tail[j].member in rest;
      }
      ConsSorted(t, tail);
    }
  }

  /** The tuples of s whose score lies in [lo, hi], in the order of s. */
  function Between(s: seq<Tuple>, lo: int, hi: int): seq<Tuple>
  {
    if s == [] then []
    else if lo <= s[0].score <= hi then [s[0]] + Between(s[1..], lo, hi)
    else Between(s[1..], lo, hi)
  }

  /** Between keeps exactly the tuples of s with a score in [lo, hi]. */
  lemma {:induction false} BetweenKeeps(s: seq<Tuple>, lo: int, hi: int)
    ensures forall t :: t in Between(s, lo, hi) <==> t in s && lo <= t.score <= hi
  {
    if s != [] {
      BetweenKeeps(s[1..], lo, hi);
      assert s == [s[0]] + s[1..];
    }
  }

  /** Between keeps a sorted, duplicate-free sequence so. */
  lemma {:induction false} BetweenSorted(s: seq<Tuple>, lo: int, hi: int)
    requires Sorted(s) && Distinct(s)
    ensures Sorted(Between(s, lo, hi)) && Distinct(Between(s, lo, hi))
  {
    if s != [] {
      var tail := s[1..];
      assert Sorted(tail) && Distinct(tail);
      BetweenSorted(tail, lo, hi);
      if lo <= s[0].score <= hi {
        var r := Between(tail, lo, hi);
        BetweenKeeps(tail, lo, hi);
        forall j | 0 <= j < |r| ensures Before(s[0], r[j]) && s[0].member != r[j].member {
          assert r[j] in tail;
          var i :| 0 <= i < |tail| && tail[i] == r[j];
          assert s[i + 1] == r[j];
        }
        ConsSorted(s[0], r);
      }
    }
  }

  /** ZRANGEBYSCORE lo hi: the entries with a score in [lo, hi]. */
  function Range(m: map<Bytes, int>, lo: int, hi: int): seq<Tuple>
  {
    Between(Listing(m), lo, hi)
  }

  /** A range is ascending by score, ties in member byte order, and names
      no member twice. */
  lemma RangeOrdered(m: map<Bytes, int>, lo: int, hi: int)
    ensures Sorted(Range(m, lo, hi)) && Distinct(Range(m, lo, hi))
  {
    ListingOrdered(m);
    BetweenSorted(Listing(m), lo, hi);
  }

  /** Every tuple of a range is an entry of m. */
  lemma RangeWithin(m: map<Bytes, int>, lo: int, hi: int)
    ensures Within(Range(m, lo, hi), m)
  {
    ListingEntries(m);
    BetweenWithin(Listing(m), lo, hi, m);
  }

  /** Between keeps only entries of m when given only entries of m. */
  lemma {:induction false} BetweenWithin(s: seq<Tuple>, lo: int, hi: int, m: map<Bytes, int>)
    requires Within(s, m)
    ensures Within(Between(s, lo, hi), m)
  {
    if s != [] {
      assert Within(s[1..], m) by {
        forall i | 0 <= i < |s[1..]| ensures s[1..][i] == s[i + 1] { }
      }
      BetweenWithin(s[1..], lo, hi, m);
    }
  }

  /** Every tuple of a range has a score in [lo, hi]. */
  lemma RangeScores(m: map<Bytes, int>, lo: int, hi: int)
    ensures forall i :: 0 <= i < |Range(m, lo, hi)| ==> lo <= Range(m, lo, hi)[i].score <= hi
  {
    var r := Range(m, lo, hi);
    BetweenKeeps(Listing(m), lo, hi);
    assert forall i :: 0 <= i < |r| ==> r[i] in r;
  }

  /** A range names exactly the members of m whose score lies in [lo, hi]. */
  lemma RangeMembers(m: map<Bytes, int>, lo: int, hi: int)
    ensures forall k :: k in Members(Range(m, lo, hi)) <==> k in m && lo <= m[k] <= hi
  {
    forall k ensures k in Members(Range(m, lo, hi)) <==> k in m && lo <= m[k] <= hi {
      RangeMember(m, lo, hi, k);
    }
  }

  lemma RangeMember(m: map<Bytes, int>, lo: int, hi: int, k: Bytes)
    ensures k in Members(Range(m, lo, hi)) <==> k in m && lo <= m[k] <= hi
  {
    ListingEntries(m);
    BetweenMember(Listing(m), lo, hi, m, k);
  }

  /** Between of entries of m names exactly the members it was given whose
      score lies in [lo, hi]. */
  lemma {:induction false} BetweenMember(s: seq<Tuple>, lo: int, hi: int, m: map<Bytes, int>, k: Bytes)
    requires Within(s, m)
    ensures k in Members(Between(s, lo, hi)) <==> k in Members(s) && lo <= m[k] <= hi
  {
    if s != [] {
      var tail := s[1..];
      assert Within(tail, m) by {
        forall i | 0 <= i < |tail| ensures tail[i] == s[i + 1] { }
      }
      BetweenMember(tail, lo, hi, m, k);
      assert s == [s[0]] + tail;
      MembersCons(s[0], tail);
      if lo <= s[0].score <= hi {
        MembersCons(s[0], Between(tail, lo, hi));
      }
    }
  }

  /** A duplicate-free sequence names as many members as it has tuples. */
  lemma {:induction false} DistinctCount(s: seq<Tuple>)
    requires Distinct(s)
    ensures |Members(s)| == |s|
  {
    if s != [] {
      assert Distinct(s[1..]);
      DistinctCount(s[1..]);
      assert s == [s[0]] + s[1..];
      MembersCons(s[0], s[1..]);
      forall i | 0 <= i < |s[1..]| ensures s[1..][i].member != s[0].member {
        assert s[1..][i] == s[i + 1];
      }
      assert s[0].member !in Members(s[1..]);
    }
  }

  lemma MembersConcat(s: seq<Tuple>, t: seq<Tuple>)
    ensures Members(s + t) == Members(s) + Members(t)
  {
    var c := s + t;
    forall x | x in Members(c) ensures x in Members(s) + Members(t) {
      var i :| 0 <= i < |c| && c[i].member == x;
      if i < |s| { assert s[i].member == x; } else { assert t[i - |s|].member == x; }
    }
    forall x | x in Members(s) + Members(t) ensures x in Members(c) {
      if x in Members(s) {
        var i :| 0 <= i < |s| && s[i].member == x;
        assert c[i].member == x;
      } else {
        var i :| 0 <= i < |t| && t[i].member == x;
        assert c[|s| + i].member == x;
      }
    }
  }

  /** Two non-empty ordered sequences of entries of m that name the same
      members start with the same entry: the least one. */
  lemma HeadsAgree(s: seq<Tuple>, t: seq<Tuple>, m: map<Bytes, int>)
    requires Sorted(s) && Within(s, m) && Sorted(t) && Within(t, m)
    requires Members(s) == Members(t) && s != []
    ensures t != [] && s[0] == t[0]
  {
    assert s[0].member in Members(t);
    var j :| 0 <= j < |t| && t[j].member == s[0].member;
    assert t[0].member in Members(s);
    var i :| 0 <= i < |s| && s[i].member == t[0].member;
    assert s[0].member == t[0].member by {
      if i > 0 && j > 0 {
        assert Before(s[0], s[i]) && Before(t[0], t[j]);
        MemberLeAntisymmetric(s[0].member, t[0].member);
      }
    }
  }

  /** Dropping the head of an ordered, duplicate-free sequence of entries of
      m leaves one, naming every member but the head's. */
  lemma TailFacts(s: seq<Tuple>, m: map<Bytes, int>)
    requires Sorted(s) && Distinct(s) && Within(s, m) && s != []
    ensures Sorted(s[1..]) && Distinct(s[1..]) && Within(s[1..], m)
    ensures Members(s[1..]) == Members(s) - {s[0].member}
  {
    var s' := s[1..];
    assert s == [s[0]] + s';
    MembersCons(s[0], s');
    assert s[0].member !in Members(s') by {
      forall k | 0 <= k < |s'| ensures s'[k].member != s[0].member { assert s'[k] == s[k + 1]; }
    }
  }

  /** Two ordered, duplicate-free sequences of entries of m that name the
      same members are the same sequence: a sorted set has one listing. */
  lemma {:induction false} SortedUnique(s: seq<Tuple>, t: seq<Tuple>, m: map<Bytes, int>)
    requires Sorted(s) && Distinct(s) && Within(s, m)
    requires Sorted(t) && Distinct(t) && Within(t, m)
    requires Members(s) == Members(t)
    ensures s == t
    decreases |s|
  {
    if s != [] {
      HeadsAgree(s, t, m);
      TailFacts(s, m);
      TailFacts(t, m);
      SortedUnique(s[1..], t[1..], m);
      assert s == [s[0]] + s[1..] && t == [t[0]] + t[1..];
    } else if t != [] {
      HeadsAgree(t, s, m);
    }
  }

  /** Appending a sorted sequence whose scores are all above those of a
      sorted one, and whose members are new, keeps it sorted. */
  lemma ConcatSorted(r1: seq<Tuple>, r2: seq<Tuple>, a: int)
    requires Sorted(r1) && Distinct(r1) && Sorted(r2) && Distinct(r2)
    requires forall i :: 0 <= i < |r1| ==> r1[i].score <= a
    requires forall j :: 0 <= j < |r2| ==> a < r2[j].score && r2[j].member !in Members(r1)
    ensures Sorted(r1 + r2) && Distinct(r1 + r2)
  {
    var c := r1 + r2;
    forall i, j | 0 <= i < j < |c| ensures Before(c[i], c[j]) && c[i].member != c[j].member {
      if j < |r1| {
        assert c[i] == r1[i] && c[j] == r1[j];
      } else if i >= |r1| {
        assert c[i] == r2[i - |r1|] && c[j] == r2[j - |r1|];
      } else {
        assert c[i] == r1[i] && c[j] == r2[j - |r1|];
        assert c[i].member in Members(r1);
      }
    }
  }

  /** What is left in range once the range up to a is removed lies above a. */
  lemma RangeRest(m: map<Bytes, int>, lo: int, a: int, b: int)
    ensures var r1 := Range(m, lo, a);
      var r2 := Range(m - Members(r1), lo, b);
      forall j :: 0 <= j < |r2| ==> a < r2[j].score && r2[j].member !in Members(r1)
  {
    var r1 := Range(m, lo, a);
    var m1 := m - Members(r1);
    var r2 := Range(m1, lo, b);
    RangeWithin(m1, lo, b);
    RangeScores(m1, lo, b);
    RangeMembers(m, lo, a);
    forall j | 0 <= j < |r2| ensures a < r2[j].score && r2[j].member !in Members(r1) {
      var k := r2[j].member;
      assert k in m1 && m1[k] == r2[j].score;
    }
  }

  /** The two ranges together name what the range up to b names. */
  lemma RangeSplitMembers(m: map<Bytes, int>, lo: int, a: int, b: int)
    requires a <= b
    ensures var r1 := Range(m, lo, a);
      Members(r1) + Members(Range(m - Members(r1), lo, b)) == Members(Range(m, lo, b))
  {
    var r1 := Range(m, lo, a);
    var m1 := m - Members(r1);
    RangeMembers(m, lo, a);
    RangeMembers(m1, lo, b);
    RangeMembers(m, lo, b);
  }

  /** Ranges nest: the range up to b is the range up to a, followed by the
      range up to b of what is left once the first range is removed. */
  lemma RangeSplit(m: map<Bytes, int>, lo: int, a: int, b: int)
    requires a <= b
    ensures Range(m, lo, b) == Range(m, lo, a) + Range(m - Members(Range(m, lo, a)), lo, b)
  {
    var r1 := Range(m, lo, a);
    var m1 := m - Members(r1);
    var r2 := Range(m1, lo, b);
    var c := r1 + r2;
    RangeOrdered(m, lo, a);
    RangeScores(m, lo, a);
    RangeOrdered(m1, lo, b);
    RangeRest(m, lo, a, b);
    ConcatSorted(r1, r2, a);
    RangeWithin(m, lo, a);
    RangeWithin(m1, lo, b);
    assert Within(c, m) by {
      forall i | 0 <= i < |c| ensures c[i].member in m && m[c[i].member] == c[i].score {
        if i >= |r1| { assert c[i] == r2[i - |r1|]; }
      }
    }
    MembersConcat(r1, r2);
    RangeSplitMembers(m, lo, a, b);
    RangeOrdered(m, lo, b);
    RangeWithin(m, lo, b);
    SortedUnique(c, Range(m, lo, b), m);
  }

  /** RangeSplit, with the map left after the first range is removed
      given by name. */
  lemma RangeSplitAt(m: map<Bytes, int>, rest: map<Bytes, int>, lo: int, a: int, b: int)
    requires a <= b && rest == m - Members(Range(m, lo, a))
    ensures Range(m, lo, b) == Range(m, lo, a) + Range(rest, lo, b)
  {
    RangeSplit(m, lo, a, b);
  }
}
