/** The merge pools the registry builds during its orphan pass: each pool is a
    set of controllers that are about to touch and must be merged into one.
    Pools are kept in the order they were created, because merges run in that
    order. */
module Pools {

  /** Every element of every pool. */
  function Union<T>(pools: seq<set<T>>): set<T> {
    if pools == [] then {} else Union(pools[..|pools| - 1]) + pools[|pools| - 1]
  }

  /** No controller is in two pools. */
  predicate PairwiseDisjoint<T>(pools: seq<set<T>>) {
    forall i, j :: 0 <= i < j < |pools| ==> pools[i] !! pools[j]
  }

  lemma PoolInUnion<T>(pools: seq<set<T>>, i: nat)
    requires i < |pools|
    ensures pools[i] <= Union(pools)
  {
    forall x | x in pools[i] ensures x in Union(pools) {
      UnionMembers(pools, x);
    }
  }

  lemma UnionPrefix<T>(pools: seq<set<T>>, i: nat)
    requires i < |pools|
    ensures Union(pools[..i + 1]) == Union(pools[..i]) + pools[i]
  {
    assert pools[..i + 1][..i] == pools[..i];
  }

  /** With pairwise disjoint pools, a pool shares nothing with the pools
      before it. */
  lemma PriorPoolsApart<T>(pools: seq<set<T>>, i: nat)
    requires PairwiseDisjoint(pools) && i < |pools|
    ensures Union(pools[..i]) !! pools[i]
  {
    forall x | x in Union(pools[..i]) ensures x !in pools[i] {
      UnionMembers(pools[..i], x);
      var k :| 0 <= k < i && x in pools[..i][k];
      assert pools[k] !! pools[i];
    }
  }

  // ---------------------------------------------------------------------------
  // The pool step as the registry writes it

  /** `s` joins the first pool it shares an element with, and the search stops
      there; a set that meets no pool becomes a new pool at the end. */
  function FirstMeet<T>(pools: seq<set<T>>, s: set<T>): seq<set<T>> {
    if pools == [] then [s]
    else if pools[0] !! s then [pools[0]] + FirstMeet(pools[1..], s)
    else [pools[0] + s] + pools[1..]
  }

  /** The pools before the first one that meets `s` are passed over unchanged. */
  lemma {:induction false} FirstMeetAfter<T>(pools: seq<set<T>>, s: set<T>, i: nat)
    requires i <= |pools| && forall k :: 0 <= k < i ==> pools[k] !! s
    ensures FirstMeet(pools, s) == pools[..i] + FirstMeet(pools[i..], s)
  {
    if i > 0 {
      assert pools[0] !! s;
      FirstMeetAfter(pools[1..], s, i - 1);
      assert pools[1..][..i - 1] == pools[1..i];
      assert pools[1..][i - 1..] == pools[i..];
      assert pools[..i] == [pools[0]] + pools[1..i];
    }
  }

  /** The loop of the orphan pass that looks for a pool sharing a controller
      with the new compatible set, adds the set to it and stops, or appends
      the set as a new pool. */
  method AddToFirstPool<T>(pools: seq<set<T>>, s: set<T>) returns (r: seq<set<T>>)
    ensures r == FirstMeet(pools, s)
    ensures Union(r) == Union(pools) + s
  {
    var i := 0;
    while i < |pools|
      invariant 0 <= i <= |pools|
      invariant forall k :: 0 <= k < i ==> pools[k] !! s
    {
      if !(pools[i] !! s) {
        FirstMeetAt(pools, s, i);
        r := pools[..i] + [pools[i] + s] + pools[i + 1..];
        FirstMeetUnion(pools, s);
        return;
      }
      i := i + 1;
    }
    FirstMeetNone(pools, s);
    r := pools + [s];
    FirstMeetUnion(pools, s);
  }

  /** `s` joins pool `i` when it is the first pool that meets `s`. */
  lemma FirstMeetAt<T>(pools: seq<set<T>>, s: set<T>, i: nat)
    requires i < |pools| && !(pools[i] !! s) && forall k :: 0 <= k < i ==> pools[k] !! s
    ensures FirstMeet(pools, s) == pools[..i] + [pools[i] + s] + pools[i + 1..]
  {
    FirstMeetAfter(pools, s, i);
    assert pools[i..][1..] == pools[i + 1..];
  }

  /** `s` becomes a new last pool when no pool meets it. */
  lemma FirstMeetNone<T>(pools: seq<set<T>>, s: set<T>)
    requires forall k :: 0 <= k < |pools| ==> pools[k] !! s
    ensures FirstMeet(pools, s) == pools + [s]
  {
    FirstMeetAfter(pools, s, |pools|);
    assert pools[..|pools|] == pools;
  }

  lemma {:induction false} UnionAppend<T>(a: seq<set<T>>, b: seq<set<T>>)
    ensures Union(a + b) == Union(a) + Union(b)
    decreases |b|
  {
    if b == [] {
      assert a + b == a;
    } else {
      var init := b[..|b| - 1];
      assert (a + b)[..|a + b| - 1] == a + init;
      assert (a + b)[|a + b| - 1] == b[|b| - 1];
      UnionAppend(a, init);
    }
  }

  /** An element is in the union exactly when some pool holds it. */
  lemma {:induction false} UnionMembers<T>(pools: seq<set<T>>, x: T)
    ensures x in Union(pools) <==> exists k :: 0 <= k < |pools| && x in pools[k]
  {
    if pools != [] {
      var init := pools[..|pools| - 1];
      UnionMembers(init, x);
      if x in Union(init) {
        var k :| 0 <= k < |init| && x in init[k];
        assert x in pools[k];
      }
    }
  }

  /** Adding to the first pool met loses and invents no controller. */
  lemma {:induction false} FirstMeetUnion<T>(pools: seq<set<T>>, s: set<T>)
    ensures Union(FirstMeet(pools, s)) == Union(pools) + s
  {
    if pools == [] {
      assert Union([s]) == Union([]) + s by { assert [s][..0] == []; }
    } else if pools[0] !! s {
      FirstMeetUnion(pools[1..], s);
      UnionAppend([pools[0]], FirstMeet(pools[1..], s));
      UnionAppend([pools[0]], pools[1..]);
      assert [pools[0]] + pools[1..] == pools;
      assert Union([pools[0]]) == pools[0] by { assert [pools[0]][..0] == []; }
    } else {
      UnionAppend([pools[0] + s], pools[1..]);
      UnionAppend([pools[0]], pools[1..]);
      assert [pools[0]] + pools[1..] == pools;
      assert Union([pools[0]]) == pools[0] by { assert [pools[0]][..0] == []; }
      assert Union([pools[0] + s]) == pools[0] + s by { assert [pools[0] + s][..0] == []; }
    }
  }

  /** Joining only the first pool met can leave two pools sharing a
      controller: with pools {1, 2} and {3, 4}, the set {2, 3} is added to the
      first pool only, and 3 is then in both. */
  lemma FirstMeetCanOverlap()
    ensures PairwiseDisjoint([{1, 2}, {3, 4}])
    ensures FirstMeet([{1, 2}, {3, 4}], {2, 3}) == [{1, 2, 3}, {3, 4}]
    ensures !PairwiseDisjoint(FirstMeet([{1, 2}, {3, 4}], {2, 3}))
  {
    var p: seq<set<int>> := [{1, 2}, {3, 4}];
    assert !(p[0] !! {2, 3}) by { assert 2 in p[0]; }
    assert FirstMeet(p, {2, 3}) == [p[0] + {2, 3}] + p[1..];
    assert p[1..] == [{3, 4}];
    assert p[0] + {2, 3} == {1, 2, 3};
    var r := FirstMeet(p, {2, 3});
    assert 3 in r[0] && 3 in r[1];
  }

  // ---------------------------------------------------------------------------
  // The pool step as intended

  /** The pools that share nothing with `s`, in order. */
  function Apart<T>(pools: seq<set<T>>, s: set<T>): seq<set<T>> {
    if pools == [] then []
    else Apart(pools[..|pools| - 1], s) + (if pools[|pools| - 1] !! s then [pools[|pools| - 1]] else [])
  }

  /** Everything in the pools that share something with `s`. */
  function Meeting<T>(pools: seq<set<T>>, s: set<T>): set<T> {
    if pools == [] then {}
    else Meeting(pools[..|pools| - 1], s) + (if pools[|pools| - 1] !! s then {} else pools[|pools| - 1])
  }

  /** `s` and every pool it touches become one pool, placed last; the other
      pools stay as they are. */
  function Gathered<T>(pools: seq<set<T>>, s: set<T>): seq<set<T>> {
    Apart(pools, s) + [s + Meeting(pools, s)]
  }

  /** The loop that builds the gathered pools: one pass over every pool. */
  method AddToPools<T>(pools: seq<set<T>>, s: set<T>) returns (r: seq<set<T>>)
    ensures r == Gathered(pools, s)
    ensures Union(r) == Union(pools) + s
    ensures PairwiseDisjoint(pools) ==> PairwiseDisjoint(r)
    ensures s <= r[|r| - 1]
    ensures forall k :: 0 <= k < |pools| && !(pools[k] !! s) ==> pools[k] <= r[|r| - 1]
    ensures forall k :: 0 <= k < |pools| && pools[k] !! s ==> pools[k] in r[..|r| - 1]
    ensures forall k :: 0 <= k < |r| - 1 ==> r[k] in pools
  {
    var apart: seq<set<T>> := [];
    var merged := s;
    var i := 0;
    while i < |pools|
      invariant 0 <= i <= |pools|
      invariant apart == Apart(pools[..i], s) && merged == s + Meeting(pools[..i], s)
    {
      assert pools[..i + 1][..i] == pools[..i];
      if pools[i] !! s {
        apart := apart + [pools[i]];
      } else {
        merged := merged + pools[i];
      }
      i := i + 1;
    }
    assert pools[..i] == pools;
    r := apart + [merged];
    GatheredProperties(pools, s);
    ApartMeetingSplit(pools, s);
    assert r[..|r| - 1] == apart;
    forall k | 0 <= k < |r| - 1
      ensures r[k] in pools
    {
      assert r[k] in apart;
      var j :| 0 <= j < |pools| && pools[j] == r[k];
    }
  }

  /** What gathering keeps and what it merges. */
  lemma GatheredProperties<T>(pools: seq<set<T>>, s: set<T>)
    ensures Union(Gathered(pools, s)) == Union(pools) + s
    ensures PairwiseDisjoint(pools) ==> PairwiseDisjoint(Gathered(pools, s))
    ensures forall k :: 0 <= k < |pools| && !(pools[k] !! s) ==> pools[k] <= Meeting(pools, s)
    ensures forall k :: 0 <= k < |pools| && pools[k] !! s ==> pools[k] in Apart(pools, s)
  {
    ApartMeetingSplit(pools, s);
    var g := Gathered(pools, s);
    var a := Apart(pools, s);
    UnionAppend(a, [s + Meeting(pools, s)]);
    assert Union([s + Meeting(pools, s)]) == s + Meeting(pools, s) by {
      assert [s + Meeting(pools, s)][..0] == [];
    }
    if PairwiseDisjoint(pools) {
      ApartDisjoint(pools, s);
      forall i, j | 0 <= i < j < |g|
        ensures g[i] !! g[j]
      {
        if j == |g| - 1 {
          assert g[i] == a[i];
          ApartFromMeeting(pools, s, a[i]);
        } else {
          assert g[i] == a[i] && g[j] == a[j];
        }
      }
    }
  }

  /** The kept pools and the merged part together hold what the pools held;
      a pool meeting `s` is in the merged part and one apart from it is kept. */
  lemma {:induction false} ApartMeetingSplit<T>(pools: seq<set<T>>, s: set<T>)
    ensures Union(Apart(pools, s)) + Meeting(pools, s) == Union(pools)
    ensures forall k :: 0 <= k < |pools| && !(pools[k] !! s) ==> pools[k] <= Meeting(pools, s)
    ensures forall k :: 0 <= k < |pools| && pools[k] !! s ==> pools[k] in Apart(pools, s)
    ensures forall x :: x in Apart(pools, s) ==> x !! s && exists k :: 0 <= k < |pools| && pools[k] == x
  {
    if pools != [] {
      var n := |pools| - 1;
      var init := pools[..n];
      ApartMeetingSplit(init, s);
      var last := pools[n];
      assert Union(pools) == Union(init) + last;
      if last !! s {
        UnionAppend(Apart(init, s), [last]);
        assert Union([last]) == last by { assert [last][..0] == []; }
        assert Apart(pools, s) == Apart(init, s) + [last];
        assert Meeting(pools, s) == Meeting(init, s);
      } else {
        assert Apart(pools, s) == Apart(init, s);
        assert Meeting(pools, s) == Meeting(init, s) + last;
      }
      forall k | 0 <= k < n
        ensures pools[k] == init[k]
      {
      }
      forall x | x in Apart(pools, s)
        ensures x !! s && exists k :: 0 <= k < |pools| && pools[k] == x
      {
        if x in Apart(init, s) {
          var k :| 0 <= k < |init| && init[k] == x;
          assert pools[k] == x;
        } else {
          assert pools[n] == x;
        }
      }
    }
  }

  /** The kept pools are still pairwise disjoint. */
  lemma {:induction false} ApartDisjoint<T>(pools: seq<set<T>>, s: set<T>)
    requires PairwiseDisjoint(pools)
    ensures PairwiseDisjoint(Apart(pools, s))
  {
    if pools != [] {
      var n := |pools| - 1;
      var init := pools[..n];
      assert PairwiseDisjoint(init);
      ApartDisjoint(init, s);
      var ai := Apart(init, s);
      if pools[n] !! s {
        ApartMeetingSplit(init, s);
        var a := Apart(pools, s);
        forall i, j | 0 <= i < j < |a|
          ensures a[i] !! a[j]
        {
          if j == |a| - 1 {
            assert a[i] in ai;
            var k :| 0 <= k < |init| && init[k] == a[i];
            assert pools[k] == a[i];
          } else {
            assert a[i] == ai[i] && a[j] == ai[j];
          }
        }
      }
    }
  }

  /** A kept pool shares nothing with the merged part. */
  lemma ApartFromMeeting<T>(pools: seq<set<T>>, s: set<T>, x: set<T>)
    requires PairwiseDisjoint(pools) && x in Apart(pools, s)
    ensures x !! s + Meeting(pools, s)
  {
    ApartMeetingSplit(pools, s);
    var k :| 0 <= k < |pools| && pools[k] == x;
    forall y | y in Meeting(pools, s)
      ensures y !in x
    {
      MeetingMembers(pools, s, y);
      var j :| 0 <= j < |pools| && y in pools[j] && !(pools[j] !! s);
      assert j != k;
    }
  }

  /** An element of the merged part comes from a pool that meets `s`. */
  lemma {:induction false} MeetingMembers<T>(pools: seq<set<T>>, s: set<T>, y: T)
    requires y in Meeting(pools, s)
    ensures exists j :: 0 <= j < |pools| && y in pools[j] && !(pools[j] !! s)
  {
    var n := |pools| - 1;
    var init := pools[..n];
    if y in Meeting(init, s) {
      MeetingMembers(init, s, y);
      var j :| 0 <= j < |init| && y in init[j] && !(init[j] !! s);
      assert pools[j] == init[j];
    } else {
      assert y in pools[n] && !(pools[n] !! s);
    }
  }

  /** Merge pools as the orphan pass leaves them: pairwise disjoint, none
      empty, and drawn from `cs`. */
  ghost predicate Pooled<T>(pools: seq<set<T>>, cs: set<T>) {
    && PairwiseDisjoint(pools) && (forall i :: 0 <= i < |pools| ==> pools[i] != {})
    && Union(pools) <= cs
  }

  lemma PooledGrows<T>(pools: seq<set<T>>, cs: set<T>, more: set<T>)
    requires Pooled(pools, cs)
    ensures Pooled(pools, cs + more)
  {
  }

  /** Gathering a non-empty set drawn from `cs` keeps the pools pooled. */
  lemma GatherPooled<T>(pools: seq<set<T>>, s: set<T>, cs: set<T>)
    requires Pooled(pools, cs) && s != {} && s <= cs
    ensures Pooled(Gathered(pools, s), cs)
  {
    GatheredProperties(pools, s);
    ApartMeetingSplit(pools, s);
    var g := Gathered(pools, s);
    forall k | 0 <= k < |g|
      ensures g[k] != {}
    {
      if k < |g| - 1 {
        assert g[k] in Apart(pools, s);
        var j :| 0 <= j < |pools| && pools[j] == g[k];
      } else {
        assert s <= g[k];
      }
    }
  }

  /** On the overlapping example, gathering merges all four into one pool. */
  lemma GatheringJoinsTheExample()
    ensures Gathered([{1, 2}, {3, 4}], {2, 3}) == [{1, 2, 3, 4}]
    ensures PairwiseDisjoint(Gathered([{1, 2}, {3, 4}], {2, 3}))
  {
    var p: seq<set<int>> := [{1, 2}, {3, 4}];
    var s: set<int> := {2, 3};
    var p1 := p[..1];
    assert p1 == [{1, 2}];
    assert p1[..0] == [];
    assert !(p[1] !! s) by { assert 3 in p[1] && 3 in s; }
    assert !(p1[0] !! s) by { assert 2 in p1[0] && 2 in s; }
    assert Apart(p1[..0], s) == [] && Meeting(p1[..0], s) == {};
    assert Apart(p1, s) == [] && Meeting(p1, s) == {1, 2};
    assert Apart(p, s) == [] && Meeting(p, s) == {1, 2, 3, 4};
    assert s + Meeting(p, s) == {1, 2, 3, 4};
  }
}
