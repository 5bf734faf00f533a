/**
 * The usort comparator of painel/index.php and the sort it drives.
 *
 * The comparator is modelled as written (nested branches returning `<=>`),
 * and checked against an independent description: every agent gets a
 * five-part integer key (group, sub-group, queue position, timestamp,
 * numeric id) and agents compare lexicographically by key.
 */
module Ranking {
  import opened Text
  import opened Agents

  /** PHP's `$x <=> $y` on integers. */
  function Spaceship(x: int, y: int): (r: int)
    ensures r == -1 || r == 0 || r == 1
    ensures r < 0 <==> x < y
    ensures r == 0 <==> x == y
  {
    if x < y then -1 else if x == y then 0 else 1
  }

  /** The position `$linePos[$a] ?? 99999` gives an agent missing from the queue. */
  const NotQueued: nat := 99999

  function QueueIndex(st: AgentState): nat
  {
    if st.pos.Some? then st.pos.value else NotQueued
  }

  /** The body of the usort closure, on the values it computes for `$a` and `$b`. */
  function CompareStates(x: AgentState, y: AgentState): (r: int)
    ensures r == -1 || r == 0 || r == 1
    ensures Group(x) != Group(y) ==> r == Spaceship(Group(x), Group(y))
    ensures r == 0 ==> x.id == y.id
  {
    var gx := Group(x);
    var gy := Group(y);
    if gx != gy then Spaceship(gx, gy)
    else if gx == 0 then
      var subX := if AtBase(x) then 0 else 1;
      var subY := if AtBase(y) then 0 else 1;
      if subX != subY then Spaceship(subX, subY)
      else if subX == 0 then
        if QueueIndex(x) != QueueIndex(y) then Spaceship(QueueIndex(x), QueueIndex(y))
        else if x.loginTs != y.loginTs then Spaceship(x.loginTs, y.loginTs)
        else Spaceship(x.id, y.id)
      else if x.loginTs != y.loginTs then Spaceship(x.loginTs, y.loginTs)
      else Spaceship(x.id, y.id)
    else if gx == 1 then
      if x.rideTs != y.rideTs then Spaceship(x.rideTs, y.rideTs)
      else Spaceship(x.id, y.id)
    else Spaceship(x.id, y.id)
  }

  /** The closure as usort calls it, on two agent ids. */
  function Compare(snap: Snapshot, a: string, b: string): (r: int)
    ensures r == -1 || r == 0 || r == 1
    ensures r == 0 ==> IntOf(a) == IntOf(b)
  {
    CompareStates(Classify(snap, a), Classify(snap, b))
  }

  // ---------------------------------------------------------------------
  // The reference order: lexicographic comparison of integer keys
  // ---------------------------------------------------------------------

  /** Lexicographic comparison of two keys of equal length, as `<=>` on arrays. */
  function LexCompare(u: seq<int>, v: seq<int>): int
    requires |u| == |v|
  {
    if |u| == 0 then 0
    else if u[0] != v[0] then Spaceship(u[0], v[0])
    else LexCompare(u[1..], v[1..])
  }

  /**
   * The priority key of an agent: group, then (idle only) at-base before
   * elsewhere, then queue position (at base only), then login or ride
   * timestamp, then numeric id. Levels a group does not use are 0.
   */
  function RankKey(st: AgentState): (k: seq<int>)
    ensures |k| == 5
  {
    var g := Group(st);
    if g == 0 && AtBase(st) then [0, 0, QueueIndex(st), st.loginTs, st.id]
    else if g == 0 then [0, 1, 0, st.loginTs, st.id]
    else if g == 1 then [1, 0, 0, st.rideTs, st.id]
    else [2, 0, 0, 0, st.id]
  }

  lemma {:induction false} LexAntisymmetric(u: seq<int>, v: seq<int>)
    requires |u| == |v|
    ensures LexCompare(u, v) == -LexCompare(v, u)
  {
    if |u| > 0 && u[0] == v[0] {
      LexAntisymmetric(u[1..], v[1..]);
    }
  }

  lemma {:induction false} LexTransitive(u: seq<int>, v: seq<int>, w: seq<int>)
    requires |u| == |v| == |w|
    requires LexCompare(u, v) <= 0 && LexCompare(v, w) <= 0
    ensures LexCompare(u, w) <= 0
  {
    if |u| > 0 && u[0] == v[0] == w[0] {
      LexTransitive(u[1..], v[1..], w[1..]);
    }
  }

  lemma {:induction false} LexZero(u: seq<int>, v: seq<int>)
    requires |u| == |v|
    ensures LexCompare(u, v) == 0 <==> u == v
  {
    if |u| > 0 {
      LexZero(u[1..], v[1..]);
      if u[0] == v[0] && u[1..] == v[1..] {
        assert u == [u[0]] + u[1..] && v == [v[0]] + v[1..];
      }
    }
  }

  lemma {:induction false} LexRange(u: seq<int>, v: seq<int>)
    requires |u| == |v|
    ensures -1 <= LexCompare(u, v) <= 1
  {
    if |u| > 0 && u[0] == v[0] {
      LexRange(u[1..], v[1..]);
    }
  }

  /** Comparing keys of length one, two, three and five, level by level. */
  lemma LexUnfold(u: seq<int>, v: seq<int>)
    requires |u| == |v| > 0
    ensures LexCompare(u, v) == if u[0] != v[0] then Spaceship(u[0], v[0]) else LexCompare(u[1..], v[1..])
  {
  }

  lemma Lex2(a: int, b: int, c: int, d: int)
    ensures LexCompare([a, b], [c, d]) == if a != c then Spaceship(a, c) else Spaceship(b, d)
  {
    LexUnfold([a, b], [c, d]);
    assert [a, b][1..] == [b] && [c, d][1..] == [d];
    LexUnfold([b], [d]);
    assert [b][1..] == [] == [d][1..];
  }

  lemma Lex3(a: int, b: int, c: int, d: int, e: int, f: int)
    ensures LexCompare([a, b, c], [d, e, f]) ==
      if a != d then Spaceship(a, d) else LexCompare([b, c], [e, f])
  {
    LexUnfold([a, b, c], [d, e, f]);
    assert [a, b, c][1..] == [b, c] && [d, e, f][1..] == [e, f];
  }

  lemma Lex5(u: seq<int>, v: seq<int>)
    requires |u| == 5 == |v|
    ensures LexCompare(u, v) ==
      if u[0] != v[0] then Spaceship(u[0], v[0])
      else LexCompare(u[1..], v[1..])
    ensures LexCompare(u[1..], v[1..]) ==
      if u[1] != v[1] then Spaceship(u[1], v[1])
      else LexCompare([u[2], u[3], u[4]], [v[2], v[3], v[4]])
  {
    LexUnfold(u, v);
    LexUnfold(u[1..], v[1..]);
    assert u[1..][1..] == [u[2], u[3], u[4]] && v[1..][1..] == [v[2], v[3], v[4]];
  }

  /** The nested branches of the closure compute exactly the lexicographic order of the keys. */
  lemma CompareIsKeyOrder(x: AgentState, y: AgentState)
    ensures CompareStates(x, y) == LexCompare(RankKey(x), RankKey(y))
  {
    var u := RankKey(x);
    var v := RankKey(y);
    Lex5(u, v);
    Lex3(u[2], u[3], u[4], v[2], v[3], v[4]);
    Lex2(u[3], u[4], v[3], v[4]);
  }

  // ---------------------------------------------------------------------
  // The comparator is a total preorder
  // ---------------------------------------------------------------------

  lemma CompareAntisymmetric(snap: Snapshot, a: string, b: string)
    ensures Compare(snap, a, b) == -Compare(snap, b, a)
  {
    var x := Classify(snap, a);
    var y := Classify(snap, b);
    CompareIsKeyOrder(x, y);
    CompareIsKeyOrder(y, x);
    LexAntisymmetric(RankKey(x), RankKey(y));
  }

  lemma CompareTransitive(snap: Snapshot, a: string, b: string, c: string)
    requires Compare(snap, a, b) <= 0 && Compare(snap, b, c) <= 0
    ensures Compare(snap, a, c) <= 0
  {
    var x := Classify(snap, a);
    var y := Classify(snap, b);
    var z := Classify(snap, c);
    CompareIsKeyOrder(x, y);
    CompareIsKeyOrder(y, z);
    CompareIsKeyOrder(x, z);
    LexTransitive(RankKey(x), RankKey(y), RankKey(z));
  }

  /** The closure answers -1, 0 or 1, and 0 only for agents with the same `(int)` id. */
  lemma CompareZeroSameId(snap: Snapshot, a: string, b: string)
    ensures -1 <= Compare(snap, a, b) <= 1
    ensures Compare(snap, a, b) == 0 ==> IntOf(a) == IntOf(b)
  {
    var x := Classify(snap, a);
    var y := Classify(snap, b);
    CompareIsKeyOrder(x, y);
    LexRange(RankKey(x), RankKey(y));
    LexZero(RankKey(x), RankKey(y));
    if Compare(snap, a, b) == 0 {
      assert RankKey(x)[4] == RankKey(y)[4];
    }
  }

  // ---------------------------------------------------------------------
  // The dispatch rules the comparator encodes
  // ---------------------------------------------------------------------

  /**
   * Idle logged-in agents come before agents in a ride, who come before
   * offline agents, whatever their other fields.
   */
  lemma GroupsInOrder(snap: Snapshot, a: string, b: string)
    ensures Group(Classify(snap, a)) < Group(Classify(snap, b)) ==> Compare(snap, a, b) < 0
    ensures Compare(snap, a, b) <= 0 ==> Group(Classify(snap, a)) <= Group(Classify(snap, b))
  {
  }

  /** An agent with a ride but no numeric login is offline, and so ranks after every logged-in agent. */
  lemma RideWithoutLoginIsOffline(snap: Snapshot, a: string, b: string)
    requires InRide(snap, a) && !LoggedIn(snap, a)
    requires LoggedIn(snap, b)
    ensures Group(Classify(snap, a)) == 2
    ensures Compare(snap, b, a) < 0
  {
  }

  /** Among idle agents, those at base come first, even if they logged in later. */
  lemma BaseBeforeElsewhere(snap: Snapshot, a: string, b: string)
    requires Group(Classify(snap, a)) == 0 == Group(Classify(snap, b))
    requires AtBase(Classify(snap, a)) && !AtBase(Classify(snap, b))
    ensures Compare(snap, a, b) < 0
  {
  }

  /** Two agents at base: queue position, then login time, then numeric id. */
  lemma AtBaseOrder(snap: Snapshot, a: string, b: string)
    requires AtBase(Classify(snap, a)) && AtBase(Classify(snap, b))
    ensures var x, y := Classify(snap, a), Classify(snap, b);
      Compare(snap, a, b) == LexCompare([QueueIndex(x), x.loginTs, x.id], [QueueIndex(y), y.loginTs, y.id])
  {
    var x, y := Classify(snap, a), Classify(snap, b);
    Lex3(QueueIndex(x), x.loginTs, x.id, QueueIndex(y), y.loginTs, y.id);
    Lex2(x.loginTs, x.id, y.loginTs, y.id);
  }

  /** A queued agent at base precedes an unqueued one at base, unless its index reaches the sentinel. */
  lemma QueuedBeforeUnqueued(snap: Snapshot, a: string, b: string)
    requires AtBase(Classify(snap, a)) && AtBase(Classify(snap, b))
    requires a in snap.linePos && snap.linePos[a] < NotQueued && b !in snap.linePos
    ensures Compare(snap, a, b) < 0
  {
  }

  /** Two idle agents away from base: login time, then numeric id. */
  lemma ElsewhereOrder(snap: Snapshot, a: string, b: string)
    requires Group(Classify(snap, a)) == 0 == Group(Classify(snap, b))
    requires !AtBase(Classify(snap, a)) && !AtBase(Classify(snap, b))
    ensures var x, y := Classify(snap, a), Classify(snap, b);
      Compare(snap, a, b) == LexCompare([x.loginTs, x.id], [y.loginTs, y.id])
  {
    var x, y := Classify(snap, a), Classify(snap, b);
    Lex2(x.loginTs, x.id, y.loginTs, y.id);
  }

  /** Two agents in a ride: ride start, then numeric id. */
  lemma RideOrder(snap: Snapshot, a: string, b: string)
    requires Group(Classify(snap, a)) == 1 == Group(Classify(snap, b))
    ensures var x, y := Classify(snap, a), Classify(snap, b);
      Compare(snap, a, b) == LexCompare([x.rideTs, x.id], [y.rideTs, y.id])
  {
    var x, y := Classify(snap, a), Classify(snap, b);
    Lex2(x.rideTs, x.id, y.rideTs, y.id);
  }

  /** Two offline agents: numeric id only. */
  lemma OfflineOrder(snap: Snapshot, a: string, b: string)
    requires Group(Classify(snap, a)) == 2 == Group(Classify(snap, b))
    ensures Compare(snap, a, b) == Spaceship(IntOf(a), IntOf(b))
  {
  }

  // ---------------------------------------------------------------------
  // Sorting
  // ---------------------------------------------------------------------

  /** Every earlier agent compares at most equal to every later one. */
  predicate Sorted(snap: Snapshot, s: seq<string>)
  {
    forall i, j :: 0 <= i < j < |s| ==> Compare(snap, s[i], s[j]) <= 0
  }

  /** A sorted sequence stays sorted under a new head that ranks at or before all of it. */
  lemma ConsSorted(snap: Snapshot, h: string, s: seq<string>)
    requires Sorted(snap, s)
    requires forall j :: 0 <= j < |s| ==> Compare(snap, h, s[j]) <= 0
    ensures Sorted(snap, [h] + s)
  {
    var r := [h] + s;
    forall i, j | 0 <= i < j < |r|
      ensures Compare(snap, r[i], r[j]) <= 0
    {
      assert r[j] == s[j - 1];
      if i > 0 {
        assert r[i] == s[i - 1];
      }
    }
  }

  /** What ranks at or before the head of a sorted sequence ranks at or before all of it. */
  lemma PrecedesAll(snap: Snapshot, x: string, s: seq<string>)
    requires Sorted(snap, s) && |s| > 0
    requires Compare(snap, x, s[0]) <= 0
    ensures forall j :: 0 <= j < |s| ==> Compare(snap, x, s[j]) <= 0
  {
    forall j | 0 < j < |s|
      ensures Compare(snap, x, s[j]) <= 0
    {
      CompareTransitive(snap, x, s[0], s[j]);
    }
  }

  /** The head of `s` ranks at or before everything in `s[1..]` with `x` inserted, when `x` ranks after it. */
  lemma HeadPrecedesRest(snap: Snapshot, x: string, s: seq<string>, rest: seq<string>)
    requires Sorted(snap, s) && |s| > 0
    requires Compare(snap, x, s[0]) > 0
    requires multiset(rest) == multiset(s[1..]) + multiset{x}
    ensures forall j :: 0 <= j < |rest| ==> Compare(snap, s[0], rest[j]) <= 0
  {
    CompareAntisymmetric(snap, x, s[0]);
    forall j | 0 <= j < |rest|
      ensures Compare(snap, s[0], rest[j]) <= 0
    {
      assert rest[j] in multiset(rest);
      if rest[j] != x {
        assert rest[j] in multiset(s[1..]);
        var k :| 0 <= k < |s[1..]| && s[1..][k] == rest[j];
        assert s[k + 1] == rest[j];
      }
    }
  }

  /**
   * Inserts `x` into a sorted sequence: the result holds one more `x` and
   * is still sorted.
   */
  function Insert(snap: Snapshot, x: string, s: seq<string>): (r: seq<string>)
    requires Sorted(snap, s)
    ensures Sorted(snap, r)
    ensures multiset(r) == multiset(s) + multiset{x}
    decreases |s|
  {
    if |s| == 0 then [x]
    else if Compare(snap, x, s[0]) <= 0 then
      PrecedesAll(snap, x, s);
      ConsSorted(snap, x, s);
      [x] + s
    else
      SortedTail(snap, s);
      var rest := Insert(snap, x, s[1..]);
      HeadPrecedesRest(snap, x, s, rest);
      ConsSorted(snap, s[0], rest);
      TailMultiset(s);
      [s[0]] + rest
  }

  lemma RepeatCountsTwice(s: seq<string>, i: nat, j: nat)
    requires i < j < |s| && s[i] == s[j]
    ensures multiset(s)[s[i]] >= 2
  {
    assert s == s[..j] + [s[j]] + s[j + 1..];
    assert s[..j][i] == s[i];
    assert multiset(s)[s[i]] == multiset(s[..j])[s[i]] + 1 + multiset(s[j + 1..])[s[i]];
  }

  /** A sequence with the multiset of a set holds each member of the set exactly once. */
  lemma DistinctFromSet(s: seq<string>, agents: set<string>)
    requires multiset(s) == multiset(agents)
    ensures |s| == |agents|
    ensures forall a :: a in s <==> a in agents
    ensures forall i, j :: 0 <= i < j < |s| ==> s[i] != s[j]
  {
    assert |multiset(s)| == |s|;
    assert forall a :: a in s <==> a in multiset(s);
    forall i, j | 0 <= i < j < |s|
      ensures s[i] != s[j]
    {
      if s[i] == s[j] {
        RepeatCountsTwice(s, i, j);
      }
    }
  }

  /**
   * `usort($agents, ...)` over the agent set: every agent appears exactly
   * once, and the result is sorted under the closure.
   */
  method Rank(snap: Snapshot, agents: set<string>) returns (ranked: seq<string>)
    ensures multiset(ranked) == multiset(agents)
    ensures |ranked| == |agents|
    ensures forall a :: a in ranked <==> a in agents
    ensures forall i, j :: 0 <= i < j < |ranked| ==> ranked[i] != ranked[j]
    ensures Sorted(snap, ranked)
  {
    ranked := [];
    var rest := agents;
    while rest != {}
      invariant rest <= agents
      invariant multiset(ranked) + multiset(rest) == multiset(agents)
      invariant Sorted(snap, ranked)
      decreases |rest|
    {
      var a :| a in rest;
      ranked := Insert(snap, a, ranked);
      assert multiset(rest) == multiset(rest - {a}) + multiset{a};
      rest := rest - {a};
    }
    DistinctFromSet(ranked, agents);
  }

  /** No two agents of `s` share a numeric id. */
  predicate DistinctIds(s: seq<string>)
  {
    forall i, j :: 0 <= i < j < |s| ==> IntOf(s[i]) != IntOf(s[j])
  }

  /** The head of a sorted sequence ranks at or before every other member. */
  lemma HeadFirst(snap: Snapshot, s: seq<string>, y: string)
    requires Sorted(snap, s)
    requires y in s && y != s[0]
    ensures Compare(snap, s[0], y) <= 0
  {
    var k :| 0 <= k < |s| && s[k] == y;
  }

  lemma SortedTail(snap: Snapshot, s: seq<string>)
    requires Sorted(snap, s) && |s| > 0
    ensures Sorted(snap, s[1..])
  {
    forall i, j | 0 <= i < j < |s| - 1
      ensures Compare(snap, s[1..][i], s[1..][j]) <= 0
    {
      assert s[1..][i] == s[i + 1] && s[1..][j] == s[j + 1];
    }
  }

  lemma DistinctIdsTail(s: seq<string>, y: string)
    requires DistinctIds(s) && |s| > 0
    ensures DistinctIds(s[1..])
    ensures y in s && y != s[0] ==> IntOf(y) != IntOf(s[0])
  {
    if y in s && y != s[0] {
      var k :| 0 <= k < |s| && s[k] == y;
    }
    forall i, j | 0 <= i < j < |s| - 1
      ensures IntOf(s[1..][i]) != IntOf(s[1..][j])
    {
      assert s[1..][i] == s[i + 1] && s[1..][j] == s[j + 1];
    }
  }

  /** Two sorted arrangements of the same agents with distinct ids start with the same agent. */
  lemma SameHead(snap: Snapshot, s: seq<string>, t: seq<string>)
    requires Sorted(snap, s) && Sorted(snap, t)
    requires multiset(s) == multiset(t)
    requires DistinctIds(s)
    requires |s| > 0 && |t| > 0
    ensures s[0] == t[0]
  {
    var x, y := s[0], t[0];
    assert y in multiset(s) && x in multiset(t);
    DistinctIdsTail(s, y);
    if x != y {
      HeadFirst(snap, s, y);
      HeadFirst(snap, t, x);
      CompareAntisymmetric(snap, x, y);
      CompareZeroSameId(snap, x, y);
      assert false;
    }
  }

  lemma TailMultiset(s: seq<string>)
    requires |s| > 0
    ensures multiset(s[1..]) == multiset(s) - multiset{s[0]}
  {
    assert s == [s[0]] + s[1..];
    assert multiset(s) == multiset([s[0]]) + multiset(s[1..]);
  }

  /**
   * When no two agents share a numeric id there is only one sorted
   * arrangement, so the ranking does not depend on the order usort was
   * given the agents in.
   */
  lemma {:induction false} SortedUnique(snap: Snapshot, s: seq<string>, t: seq<string>)
    requires Sorted(snap, s) && Sorted(snap, t)
    requires multiset(s) == multiset(t)
    requires DistinctIds(s)
    ensures s == t
    decreases |s|
  {
    assert |s| == |multiset(s)| == |multiset(t)| == |t|;
    if |s| > 0 {
      SameHead(snap, s, t);
      TailMultiset(s);
      TailMultiset(t);
      SortedTail(snap, s);
      SortedTail(snap, t);
      DistinctIdsTail(s, s[0]);
      SortedUnique(snap, s[1..], t[1..]);
      assert s == [s[0]] + s[1..] && t == [t[0]] + t[1..];
    }
  }
}
