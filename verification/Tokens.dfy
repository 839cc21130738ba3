/** Fetch tasks as tokens: every shard index has one task, and the lemmas here
    count how often an index occurs in the places a task can be. */
module Tokens {
  import opened Prelude

  datatype Task = Task(shard: nat, attempts: nat)

  const MAX_ATTEMPTS: nat := 5

  function Shards(tasks: seq<Task>): (s: seq<nat>)
    ensures |s| == |tasks|
  {
    seq(|tasks|, i requires 0 <= i < |tasks| => tasks[i].shard)
  }

  /** How often shard i occurs among tasks. */
  function Occurs(tasks: seq<Task>, i: nat): nat {
    multiset(Shards(tasks))[i]
  }

  function Without<T>(s: seq<T>, j: nat): seq<T>
    requires j < |s|
  {
    s[..j] + s[j + 1..]
  }

  /** All tasks a fetch starts with: one per shard, no attempts yet. */
  function AllTasks(n: nat): seq<Task> {
    seq(n, i requires i >= 0 => Task(i, 0))
  }

  lemma OccursAppend(tasks: seq<Task>, t: Task, i: nat)
    ensures Occurs(tasks + [t], i) == Occurs(tasks, i) + if t.shard == i then 1 else 0
  {
    assert Shards(tasks + [t]) == Shards(tasks) + [t.shard];
  }

  lemma OccursWithout(tasks: seq<Task>, j: nat, i: nat)
    requires j < |tasks|
    ensures Occurs(tasks, i) == Occurs(Without(tasks, j), i) + if tasks[j].shard == i then 1 else 0
  {
    var a, b := Shards(tasks[..j]), Shards(tasks[j + 1..]);
    assert Shards(Without(tasks, j)) == a + b;
    assert Shards(tasks) == a + [tasks[j].shard] + b;
  }

  lemma OccursMember(tasks: seq<Task>, j: nat)
    requires j < |tasks|
    ensures Occurs(tasks, tasks[j].shard) >= 1
  {
    assert Shards(tasks)[j] == tasks[j].shard;
  }

  lemma {:induction false} OccursAll(n: nat, i: nat)
    ensures Occurs(AllTasks(n), i) == if i < n then 1 else 0
  {
    if n == 0 {
      assert Shards(AllTasks(0)) == [];
    } else {
      OccursAll(n - 1, i);
      OccursAppend(AllTasks(n - 1), Task(n - 1, 0), i);
      assert AllTasks(n) == AllTasks(n - 1) + [Task(n - 1, 0)];
    }
  }

  /** Tasks of distinct shards below n, none of them x, leave room for one more in a queue of n. */
  lemma RoomForOne(tasks: seq<Task>, n: nat, x: nat)
    requires x < n && Occurs(tasks, x) == 0
    requires forall i: nat :: Occurs(tasks, i) <= if i < n then 1 else 0
    ensures |tasks| < n
  {
    var s := Shards(tasks);
    forall p, q | 0 <= p < q < |s| ensures s[p] != s[q] {
      if s[p] == s[q] {
        OccursWithout(tasks, p, s[q]);
        assert Without(tasks, p)[q - 1] == tasks[q];
        OccursMember(Without(tasks, p), q - 1);
      }
    }
    DistinctCardinality(s);
    forall i | i in Elements(s) ensures i in Range(n) - {x} {
      var p :| 0 <= p < |s| && s[p] == i;
      OccursMember(tasks, p);
    }
    SubsetCardinality(Elements(s), Range(n) - {x});
  }

  function Sum(s: seq<nat>): nat {
    if s == [] then 0 else Sum(s[..|s| - 1]) + s[|s| - 1]
  }

  lemma {:induction false} SumAtMost(s: seq<nat>, b: nat)
    requires forall i :: 0 <= i < |s| ==> s[i] <= b
    ensures Sum(s) <= b * |s|
  {
    if s != [] {
      SumAtMost(s[..|s| - 1], b);
      assert b * |s| == b * (|s| - 1) + b;
    }
  }

  // ----- attempts -----

  /** The tries of a shard after one more fetch of it. */
  function Bump(tries: seq<nat>, i: nat): (t: seq<nat>)
    ensures |t| == |tries|
  {
    if i < |tries| then tries[i := tries[i] + 1] else tries
  }

  /** The task carries as many attempts as its shard was tried, up to `more` fetches that are not yet added to it. */
  predicate Matches(tries: seq<nat>, t: Task, more: nat) {
    t.shard < |tries| ==> t.attempts + more == tries[t.shard]
  }

  lemma BumpMatches(tries: seq<nat>, i: nat)
    ensures forall t: Task, more: nat :: Matches(tries, t, more) ==>
      Matches(Bump(tries, i), t, if t.shard == i then more + 1 else more)
  {
  }

  // ----- tasks in workers' hands -----

  function One(b: bool): nat { if b then 1 else 0 }

  function InHand(hands: seq<Option<Task>>): seq<Task> {
    if hands == [] then []
    else
      var last := hands[|hands| - 1];
      InHand(hands[..|hands| - 1]) + if last.Some? then [last.value] else []
  }

  function Holds(hand: Option<Task>, i: nat): nat { One(hand.Some? && hand.value.shard == i) }

  lemma OccursLast(hands: seq<Option<Task>>, i: nat)
    requires hands != []
    ensures var n := |hands| - 1; Occurs(InHand(hands), i) == Occurs(InHand(hands[..n]), i) + Holds(hands[n], i)
  {
    var n := |hands| - 1;
    if hands[n].Some? {
      OccursAppend(InHand(hands[..n]), hands[n].value, i);
    } else {
      assert InHand(hands[..n]) + [] == InHand(hands[..n]);
    }
  }

  /** Changing one hand changes the count of a shard by what that hand held and holds. */
  lemma {:induction false} InHandUpdate(hands: seq<Option<Task>>, w: nat, h: Option<Task>, i: nat)
    requires w < |hands|
    ensures Occurs(InHand(hands[w := h]), i) + Holds(hands[w], i) == Occurs(InHand(hands), i) + Holds(h, i)
  {
    hide InHand, Occurs;
    var n := |hands| - 1;
    OccursLast(hands, i);
    OccursLast(hands[w := h], i);
    if w == n {
      assert hands[w := h][..n] == hands[..n];
    } else {
      assert hands[w := h][..n] == hands[..n][w := h];
      InHandUpdate(hands[..n], w, h, i);
    }
  }

  lemma InHandOccurs(hands: seq<Option<Task>>, w: nat)
    requires w < |hands| && hands[w].Some?
    ensures Occurs(InHand(hands), hands[w].value.shard) >= 1
  {
    InHandUpdate(hands, w, None, hands[w].value.shard);
  }

  lemma {:induction false} NoneInHand(hands: seq<Option<Task>>)
    requires forall w :: 0 <= w < |hands| ==> hands[w].None?
    ensures InHand(hands) == []
  {
    if hands != [] { NoneInHand(hands[..|hands| - 1]); }
  }

  // ----- counting workers -----

  /** The positions of x in s. */
  function Indices<T(==)>(s: seq<T>, x: T): set<nat> {
    set w: nat | w < |s| && s[w] == x
  }

  lemma OthersSame<T>(s: seq<T>, w: nat, x: T, y: T)
    requires w < |s|
    ensures Indices(s, y) - {w} == Indices(s[w := x], y) - {w}
  {
    var after := s[w := x];
    forall v: nat | v != w ensures v in Indices(s, y) <==> v in Indices(after, y) {
      if v < |s| { assert after[v] == s[v]; }
    }
  }

  lemma CardinalityWithout(s: set<nat>, w: nat)
    ensures |s| == |s - {w}| + One(w in s)
  {
    if w in s { assert s == (s - {w}) + {w}; } else { assert s == s - {w}; }
  }

  lemma IndicesUpdate<T>(s: seq<T>, w: nat, x: T, y: T)
    requires w < |s|
    ensures |Indices(s[w := x], y)| + One(s[w] == y) == |Indices(s, y)| + One(x == y)
  {
    OthersSame(s, w, x, y);
    CardinalityWithout(Indices(s, y), w);
    CardinalityWithout(Indices(s[w := x], y), w);
  }

  lemma TwoKinds<T>(s: seq<T>, x: T, y: T)
    requires x != y
    ensures |Indices(s, x)| + |Indices(s, y)| <= |s|
  {
    var a, b := Indices(s, x), Indices(s, y);
    assert a * b == {};
    assert |a + b| == |a| + |b|;
    SubsetCardinality(a + b, Range(|s|));
  }

  lemma OneMoreKey<T>(m: map<nat, T>, i: nat, b: T)
    requires i !in m
    ensures |m[i := b]| == |m| + 1
  {
    assert m[i := b].Keys == m.Keys + {i};
  }
}
