/** Walks in a graph given by its successor lists, and what breadth-first search knows of them. */
module Graphs {

  /** edges.get(x, []): the successors of x. */
  function Next<T>(edges: map<T, seq<T>>, x: T): seq<T> {
    if x in edges then edges[x] else []
  }

  /** Nodes each of which has the next as a successor. */
  ghost predicate IsWalk<T>(edges: map<T, seq<T>>, p: seq<T>) {
    p != [] && forall i :: 0 <= i < |p| - 1 ==> p[i + 1] in Next(edges, p[i])
  }

  ghost predicate WalksTo<T>(edges: map<T, seq<T>>, p: seq<T>, a: T, b: T) {
    IsWalk(edges, p) && p[0] == a && p[|p| - 1] == b
  }

  ghost predicate Reaches<T(!new)>(edges: map<T, seq<T>>, a: T, b: T) {
    exists p :: WalksTo(edges, p, a, b)
  }

  lemma WalkMore<T>(edges: map<T, seq<T>>, p: seq<T>, a: T, b: T, c: T)
    requires WalksTo(edges, p, a, b) && c in Next(edges, b)
    ensures WalksTo(edges, p + [c], a, c)
  {
    var q := p + [c];
    forall i | 0 <= i < |q| - 1 ensures q[i + 1] in Next(edges, q[i]) {
      if i < |p| - 1 { assert q[i] == p[i] && q[i + 1] == p[i + 1]; }
    }
  }

  /** What a breadth-first search has found: the nodes in the order they were found, how far each is,
      and how many of them were expanded. */
  datatype Search<T> = Search(order: seq<T>, depth: map<T, nat>, done: nat)

  /** The found nodes are those with a depth. */
  ghost predicate Listed<T(!new)>(start: T, s: Search<T>) {
    && s.order != [] && s.order[0] == start && s.done <= |s.order|
    && (forall i :: 0 <= i < |s.order| ==> s.order[i] in s.depth)
    && (forall x :: x in s.depth ==> x in s.order)
    && start in s.depth && s.depth[start] == 0
  }

  /** Nearer nodes were found first, none more than one beyond the one being expanded. */
  ghost predicate Ordered<T(!new)>(s: Search<T>) {
    && (forall i :: 0 <= i < |s.order| ==> s.order[i] in s.depth)
    && (forall i, j :: 0 <= i <= j < |s.order| ==> s.depth[s.order[i]] <= s.depth[s.order[j]])
    && (s.done < |s.order| ==> forall x :: x in s.depth ==> s.depth[x] <= s.depth[s.order[s.done]] + 1)
  }

  /** Every found node is as far as some walk says. */
  ghost predicate Walked<T(!new)>(edges: map<T, seq<T>>, start: T, depth: map<T, nat>) {
    forall x :: x in depth ==> WalkOf(edges, start, x, depth[x])
  }

  ghost predicate WalkOf<T(!new)>(edges: map<T, seq<T>>, start: T, x: T, n: nat) {
    exists p :: WalksTo(edges, p, start, x) && |p| == n + 1
  }

  /** What leads out of expanded nodes was found, at most one further. */
  ghost predicate Covered<T(!new)>(edges: map<T, seq<T>>, s: Search<T>) {
    forall i, y :: 0 <= i < s.done && i < |s.order| && y in Next(edges, s.order[i]) ==>
                     s.order[i] in s.depth && y in s.depth && s.depth[y] <= s.depth[s.order[i]] + 1
  }

  ghost predicate Sound<T(!new)>(edges: map<T, seq<T>>, start: T, s: Search<T>) {
    Listed(start, s) && Ordered(s) && Walked(edges, start, s.depth) && Covered(edges, s)
  }

  /** No walk is shorter than the depth found; one that leads to a node not found yet is longer than the
      depth that is being expanded, and there is none when everything found was expanded. */
  lemma {:induction false} NoShorter<T(!new)>(edges: map<T, seq<T>>, start: T, s: Search<T>, p: seq<T>, x: T)
    requires Sound(edges, start, s) && WalksTo(edges, p, start, x)
    ensures || (x in s.depth && s.depth[x] + 1 <= |p|)
            || (s.done < |s.order| && |p| > s.depth[s.order[s.done]] + 1)
    decreases |p|
  {
    if |p| > 1 {
      var q, y := p[..|p| - 1], p[|p| - 2];
      assert IsWalk(edges, q) by {
        forall i | 0 <= i < |q| - 1 ensures q[i + 1] in Next(edges, q[i]) {
          assert q[i] == p[i] && q[i + 1] == p[i + 1];
        }
      }
      NoShorter(edges, start, s, q, y);
      assert x in Next(edges, y) by { assert p[|p| - 2 + 1] in Next(edges, p[|p| - 2]); }
      if y in s.depth && s.depth[y] + 1 <= |q| {
        var i :| 0 <= i < |s.order| && s.order[i] == y;
      }
    }
  }

  function Begin<T>(start: T): Search<T> {
    Search([start], map[start := 0], 0)
  }

  lemma BeginSound<T(!new)>(edges: map<T, seq<T>>, start: T)
    ensures Sound(edges, start, Begin(start))
  {
    assert WalksTo(edges, [start], start, start);
  }

  /** A node found from the one being expanded. */
  function Find<T>(s: Search<T>, y: T): Search<T>
    requires s.done < |s.order| && s.order[s.done] in s.depth
  {
    Search(s.order + [y], s.depth[y := s.depth[s.order[s.done]] + 1], s.done)
  }

  lemma FindSound<T(!new)>(edges: map<T, seq<T>>, start: T, s: Search<T>, y: T)
    requires Sound(edges, start, s) && s.done < |s.order|
    requires y !in s.depth && y in Next(edges, s.order[s.done])
    ensures Sound(edges, start, Find(s, y))
  {
    var x := s.order[s.done];
    assert WalkOf(edges, start, x, s.depth[x]);
    var p :| WalksTo(edges, p, start, x) && |p| == s.depth[x] + 1;
    WalkMore(edges, p, start, x, y);
    assert WalkOf(edges, start, y, s.depth[x] + 1);
    FindWalked(edges, start, s.depth, y, s.depth[x] + 1);
    FindListed(start, s, y);
    FindOrdered(start, s, y);
    FindCovered(edges, s, y);
  }

  lemma FindWalked<T(!new)>(edges: map<T, seq<T>>, start: T, depth: map<T, nat>, y: T, n: nat)
    requires Walked(edges, start, depth) && WalkOf(edges, start, y, n)
    ensures Walked(edges, start, depth[y := n])
  {
  }

  lemma FindListed<T(!new)>(start: T, s: Search<T>, y: T)
    requires Listed(start, s) && s.done < |s.order| && y !in s.depth
    ensures Listed(start, Find(s, y))
  {
    var t := Find(s, y);
    forall x | x in t.depth ensures x in t.order {
      if x == y {
        assert t.order[|s.order|] == y;
      } else {
        var i :| 0 <= i < |s.order| && s.order[i] == x;
        assert t.order[i] == x;
      }
    }
  }

  lemma FindOrdered<T(!new)>(start: T, s: Search<T>, y: T)
    requires Listed(start, s) && Ordered(s) && s.done < |s.order| && y !in s.depth
    ensures Ordered(Find(s, y))
  {
    var t, n := Find(s, y), |s.order|;
    assert forall i :: 0 <= i < n ==> t.order[i] == s.order[i] && t.depth[t.order[i]] == s.depth[s.order[i]];
    assert t.order[n] == y;
    forall i, j | 0 <= i <= j < |t.order| ensures t.depth[t.order[i]] <= t.depth[t.order[j]] {
      if j == n && i < n { assert s.depth[s.order[i]] <= s.depth[s.order[s.done]] + 1; }
    }
  }

  lemma FindCovered<T(!new)>(edges: map<T, seq<T>>, s: Search<T>, y: T)
    requires Covered(edges, s) && s.done < |s.order| && y !in s.depth && s.order[s.done] in s.depth
    ensures Covered(edges, Find(s, y))
  {
    hide Next;
    var t := Find(s, y);
    assert forall i :: 0 <= i < |s.order| ==> t.order[i] == s.order[i];
  }

  function Expanded<T>(s: Search<T>): Search<T> {
    s.(done := s.done + 1)
  }

  lemma ExpandedSound<T(!new)>(edges: map<T, seq<T>>, start: T, s: Search<T>)
    requires Sound(edges, start, s) && s.done < |s.order|
    requires forall y :: y in Next(edges, s.order[s.done]) ==> y in s.depth
    ensures Sound(edges, start, Expanded(s))
  {
    hide Walked, Next;
    ExpandedOrdered(s);
    ExpandedCovered(edges, s);
  }

  lemma ExpandedCovered<T(!new)>(edges: map<T, seq<T>>, s: Search<T>)
    requires Covered(edges, s) && Ordered(s) && s.done < |s.order|
    requires forall y :: y in Next(edges, s.order[s.done]) ==> y in s.depth
    ensures Covered(edges, Expanded(s))
  {
    hide Next;
    var x := s.order[s.done];
    assert forall y :: y in Next(edges, x) ==> s.depth[y] <= s.depth[x] + 1;
  }

  lemma ExpandedOrdered<T(!new)>(s: Search<T>)
    requires Ordered(s) && s.done < |s.order|
    ensures Ordered(Expanded(s))
  {
    if s.done + 1 < |s.order| {
      assert s.depth[s.order[s.done]] <= s.depth[s.order[s.done + 1]];
    }
  }
}
