/** hops of scripts/bench/deriva_selectors.py: breadth-first distance over edges in both directions. */
module Hops {
  import opened Graphs

  type Person = nat

  /** Whether an edge joins the two, in either direction. */
  predicate Linked(edges: seq<(Person, Person)>, a: Person, b: Person) {
    (a, b) in edges || (b, a) in edges
  }

  /** People each linked to the next, from a to b. */
  ghost predicate IsPath(edges: seq<(Person, Person)>, p: seq<Person>, a: Person, b: Person) {
    && p != [] && p[0] == a && p[|p| - 1] == b
    && forall i :: 0 <= i < |p| - 1 ==> Linked(edges, p[i], p[i + 1])
  }

  predicate InRange(edges: seq<(Person, Person)>, people: nat) {
    forall i :: 0 <= i < |edges| ==> edges[i].0 < people && edges[i].1 < people
  }

  /** The lists of neighbours, filled edge by edge. */
  method Neighbours(people: nat, edges: seq<(Person, Person)>) returns (near: seq<seq<Person>>)
    requires InRange(edges, people)
    ensures |near| == people
    ensures forall a, b :: 0 <= a < people ==> (b in near[a] <==> Linked(edges, a, b))
  {
    near := seq(people, _ => []);
    for i := 0 to |edges|
      invariant |near| == people
      invariant forall a, b :: 0 <= a < people ==> (b in near[a] <==> Linked(edges[..i], a, b))
    {
      var (a, b) := edges[i];
      ghost var before := near;
      near := near[a := near[a] + [b]];
      near := near[b := near[b] + [a]];
      LinkedMore(edges, i);
      forall x, y | 0 <= x < people ensures y in near[x] <==> Linked(edges[..i + 1], x, y) {
        assert y in near[x] <==> y in before[x] || (x == a && y == b) || (x == b && y == a);
      }
    }
    assert edges[..|edges|] == edges;
  }

  lemma LinkedMore(edges: seq<(Person, Person)>, i: nat)
    requires i < |edges|
    ensures forall x: nat, y: nat :: Linked(edges[..i + 1], x, y) <==>
                             Linked(edges[..i], x, y) || edges[i] == (x, y) || edges[i] == (y, x)
  {
    assert edges[..i + 1] == edges[..i] + [edges[i]];
  }

  ghost function AsGraph(near: seq<seq<Person>>): map<Person, seq<Person>> {
    map a: nat | 0 <= a < |near| :: near[a]
  }

  lemma PathIsWalk(edges: seq<(Person, Person)>, near: seq<seq<Person>>, p: seq<Person>, a: Person, b: Person)
    requires InRange(edges, |near|)
    requires forall x, y :: 0 <= x < |near| ==> (y in near[x] <==> Linked(edges, x, y))
    ensures IsPath(edges, p, a, b) <==> WalksTo(AsGraph(near), p, a, b)
  {
    var g := AsGraph(near);
    forall x: nat, y ensures y in Next(g, x) <==> Linked(edges, x, y) {
      if x < |near| { assert y in near[x] <==> Linked(edges, x, y); }
    }
    if IsPath(edges, p, a, b) {
      forall i | 0 <= i < |p| - 1 ensures p[i + 1] in Next(g, p[i]) { assert Linked(edges, p[i], p[i + 1]); }
    }
    if WalksTo(g, p, a, b) {
      forall i | 0 <= i < |p| - 1 ensures Linked(edges, p[i], p[i + 1]) { assert p[i + 1] in Next(g, p[i]); }
    }
  }

  /** The shortest number of hops, -1 when there is no path; the queue grows while it is gone through. */
  method CountHops(people: nat, edges: seq<(Person, Person)>, start: Person, end: Person) returns (hops: int)
    requires InRange(edges, people) && start < people
    ensures hops >= 0 ==> exists p :: IsPath(edges, p, start, end) && |p| == hops + 1
    ensures hops >= 0 ==> forall p :: IsPath(edges, p, start, end) ==> |p| >= hops + 1
    ensures hops < 0 ==> hops == -1 && (start == end || !exists p :: IsPath(edges, p, start, end))
    ensures start == end ==> hops == -1
  {
    var near := Neighbours(people, edges);
    forall a, i | 0 <= a < people && 0 <= i < |near[a]| ensures near[a][i] < people {
      assert Linked(edges, a, near[a][i]);
    }
    hops := Search(near, start, end);
    ghost var g := AsGraph(near);
    forall p ensures IsPath(edges, p, start, end) <==> WalksTo(g, p, start, end) {
      PathIsWalk(edges, near, p, start, end);
    }
  }

  /** The search on the neighbour lists. */
  method Search(near: seq<seq<Person>>, start: Person, end: Person) returns (hops: int)
    requires start < |near|
    requires forall a, i :: 0 <= a < |near| && 0 <= i < |near[a]| ==> near[a][i] < |near|
    ensures var g := AsGraph(near);
            && (hops >= 0 ==> WalkOf(g, start, end, hops))
            && (hops >= 0 ==> forall p :: WalksTo(g, p, start, end) ==> |p| >= hops + 1)
            && (hops < 0 ==> hops == -1 && (start == end || !Reaches(g, start, end)))
            && (start == end ==> hops == -1)
  {
    hide Sound, WalkOf, WalksTo;
    ghost var g := AsGraph(near);
    var seen: map<Person, nat> := map[start := 0];
    var queue: seq<Person> := [start];
    BeginSound(g, start);
    var k := 0;
    while k < |queue|
      invariant k <= |queue| == |seen| && Sound(g, start, Graphs.Search(queue, seen, k))
      invariant end in seen <==> start == end
      invariant start in seen && forall x :: x in seen ==> x < |near|
      decreases |near| - k
    {
      Bounded(seen.Keys, |near|);
      FoundHasDepth(g, start, Graphs.Search(queue, seen, k), k);
      var node := queue[k];
      assert Next(g, node) == near[node];
      var j := 0;
      while j < |near[node]|
        invariant j <= |near[node]| && k < |queue| == |seen| && queue[k] == node && node in seen
        invariant Sound(g, start, Graphs.Search(queue, seen, k)) && (end in seen <==> start == end)
        invariant start in seen && forall x :: x in seen ==> x < |near|
        invariant forall i :: 0 <= i < j ==> near[node][i] in seen
      {
        var other := near[node][j];
        if other !in seen {
          ghost var s := Graphs.Search(queue, seen, k);
          FindSound(g, start, s, other);
          if other == end {
            Shortest(g, start, s, end);
            return seen[node] + 1;
          }
          seen := seen[other := seen[node] + 1];
          queue := queue + [other];
        }
        j := j + 1;
      }
      ExpandedSound(g, start, Graphs.Search(queue, seen, k));
      k := k + 1;
    }
    if start != end { NothingMore(g, start, Graphs.Search(queue, seen, k), end); }
    hops := -1;
  }

  /** At most n numbers are below n. */
  lemma {:induction false} Bounded(s: set<nat>, n: nat)
    requires forall x :: x in s ==> x < n
    ensures |s| <= n
  {
    if n == 0 {
      assert s == {};
    } else {
      Bounded(s - {n - 1}, n - 1);
      assert s <= (s - {n - 1}) + {n - 1};
    }
  }

  lemma FoundHasDepth(g: map<Person, seq<Person>>, start: Person, s: Graphs.Search<Person>, i: nat)
    requires Sound(g, start, s) && i < |s.order|
    ensures s.order[i] in s.depth
  {
  }

  /** A node found now is one further than the one being expanded, and no walk to it is shorter. */
  lemma Shortest(g: map<Person, seq<Person>>, start: Person, s: Graphs.Search<Person>, end: Person)
    requires Sound(g, start, s) && s.done < |s.order| && s.order[s.done] in s.depth && end !in s.depth
    requires Sound(g, start, Find(s, end))
    ensures var n := s.depth[s.order[s.done]] + 1;
            WalkOf(g, start, end, n) && forall p :: WalksTo(g, p, start, end) ==> |p| >= n + 1
  {
    hide WalksTo;
    forall p | WalksTo(g, p, start, end) ensures |p| >= s.depth[s.order[s.done]] + 2 {
      NoShorter(g, start, s, p, end);
    }
    assert end in Find(s, end).depth;
  }

  lemma NothingMore(g: map<Person, seq<Person>>, start: Person, s: Graphs.Search<Person>, end: Person)
    requires Sound(g, start, s) && s.done == |s.order| && end !in s.depth
    ensures !Reaches(g, start, end)
  {
    forall p | WalksTo(g, p, start, end) ensures false {
      NoShorter(g, start, s, p, end);
    }
  }
}
