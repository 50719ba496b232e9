/** The transitive part of boundary_findings in scripts/check_policy.py: which forbidden packages a
    crate reaches over its normal and build dependencies, and through what chain. */
module Boundary {
  import opened Options
  import opened Graphs

  type Id = string

  function Reversed<T>(s: seq<T>): seq<T> {
    if s == [] then [] else Reversed(s[1..]) + [s[0]]
  }

  lemma {:induction false} ReversedAppend<T>(s: seq<T>, x: T)
    ensures Reversed(s + [x]) == [x] + Reversed(s)
  {
    if s == [] {
      assert s + [x] == [x] && [x][1..] == [];
    } else {
      assert (s + [x])[1..] == s[1..] + [x];
      ReversedAppend(s[1..], x);
      assert [x] + Reversed(s[1..]) + [s[0]] == [x] + (Reversed(s[1..]) + [s[0]]);
    }
  }

  lemma {:induction false} ReversedTwice<T>(s: seq<T>)
    ensures Reversed(Reversed(s)) == s
  {
    if s != [] {
      ReversedTwice(s[1..]);
      ReversedAppend(Reversed(s[1..]), s[0]);
    }
  }

  function Names(name: Id -> string, p: seq<Id>): seq<string> {
    seq(|p|, i requires 0 <= i < |p| => name(p[i]))
  }

  /** The parents the search left: each found package but the crate was reached from one nearer by one. */
  ghost predicate Parents(edges: map<Id, seq<Id>>, crate: Id, depth: map<Id, nat>, parent: map<Id, Option<Id>>) {
    && parent.Keys == depth.Keys && crate in depth && parent[crate] == None
    && (forall x :: x in depth && x != crate ==>
          && parent[x].Some? && parent[x].value in depth
          && depth[x] == depth[parent[x].value] + 1 && x in Next(edges, parent[x].value))
  }

  /** The names on the way from the crate to a package, by going up the parents. */
  method ChainTo(edges: map<Id, seq<Id>>, name: Id -> string, crate: Id, ghost depth: map<Id, nat>,
                 parent: map<Id, Option<Id>>, target: Id) returns (chain: seq<string>, ghost walk: seq<Id>)
    requires Parents(edges, crate, depth, parent) && target in depth && depth[crate] == 0
    ensures WalksTo(edges, walk, crate, target) && |walk| == depth[target] + 1 && chain == Names(name, walk)
  {
    chain := [name(target)];
    var node := target;
    walk := [target];
    assert Reversed(Names(name, walk)) == chain by {
      assert Names(name, walk) == [name(target)] && [name(target)][1..] == [];
    }
    while parent[node].Some?
      invariant node in parent && WalksTo(edges, walk, node, target) && |walk| + depth[node] == depth[target] + 1
      invariant chain == Reversed(Names(name, walk))
      decreases depth[node]
    {
      var up := parent[node].value;
      WalkBefore(edges, up, walk, node, target);
      assert Names(name, [up] + walk)[1..] == Names(name, walk);
      node := up;
      chain := chain + [name(node)];
      walk := [node] + walk;
    }
    ReversedTwice(Names(name, walk));
    chain := Reversed(chain);
  }

  lemma WalkBefore(edges: map<Id, seq<Id>>, up: Id, p: seq<Id>, a: Id, b: Id)
    requires WalksTo(edges, p, a, b) && a in Next(edges, up)
    ensures WalksTo(edges, [up] + p, up, b)
  {
    var q := [up] + p;
    forall i | 0 <= i < |q| - 1 ensures q[i + 1] in Next(edges, q[i]) {
      if i > 0 { assert q[i] == p[i - 1] && q[i + 1] == p[i]; }
    }
  }

  /** Whether a package other than the crate bears the name and is reached over p. */
  ghost predicate LeadsTo(edges: map<Id, seq<Id>>, name: Id -> string, crate: Id, p: seq<Id>, target: string) {
    p != [] && p[|p| - 1] != crate && name(p[|p| - 1]) == target && WalksTo(edges, p, crate, p[|p| - 1])
  }

  /** Every package the search can meet. */
  ghost function Universe(edges: map<Id, seq<Id>>, crate: Id): set<Id> {
    {crate} + set x, i | x in edges && 0 <= i < |edges[x]| :: edges[x][i]
  }

  /** The first package found of each forbidden name is a nearest one. */
  ghost predicate NearestFound(name: Id -> string, crate: Id, forbidden: set<string>, depth: map<Id, nat>,
                               reached: map<string, Id>) {
    && (forall t :: t in reached ==>
          t in forbidden && reached[t] in depth && reached[t] != crate && name(reached[t]) == t)
    && (forall x :: x in depth && x != crate && name(x) in forbidden ==>
          name(x) in reached && depth[reached[name(x)]] <= depth[x])
  }

  /** What holds between two packages found: the queue is what was found and not taken yet. */
  ghost predicate Exploring(edges: map<Id, seq<Id>>, name: Id -> string, crate: Id, forbidden: set<string>,
                            parent: map<Id, Option<Id>>, reached: map<string, Id>, s: Search<Id>) {
    && Sound(edges, crate, s)
    && Parents(edges, crate, s.depth, parent)
    && NearestFound(name, crate, forbidden, s.depth, reached)
    && parent.Keys <= Universe(edges, crate)
  }

  /** The breadth-first search: parents of everything reached, and a nearest package of each forbidden name. */
  method Explore(edges: map<Id, seq<Id>>, name: Id -> string, crate: Id, forbidden: set<string>)
    returns (parent: map<Id, Option<Id>>, reached: map<string, Id>, ghost s: Search<Id>)
    ensures Exploring(edges, name, crate, forbidden, parent, reached, s) && s.done == |s.order|
  {
    parent := map[crate := None];
    var queue := [crate];
    reached := map[];
    s := Begin(crate);
    BeginSound(edges, crate);
    hide Exploring, Sound, Next, Universe;
    BeginExploring(edges, name, crate, forbidden);
    while queue != []
      invariant Exploring(edges, name, crate, forbidden, parent, reached, s)
      invariant s.done <= |s.order| && queue == s.order[s.done..]
      decreases |Universe(edges, crate) - parent.Keys|, |queue|
    {
      var current := queue[0];
      queue := queue[1..];
      ghost var before := parent.Keys;
      parent, reached, queue, s := Expand(edges, name, crate, forbidden, current, parent, reached, queue, s);
      Fewer(Universe(edges, crate), before, parent.Keys);
    }
  }

  lemma BeginExploring(edges: map<Id, seq<Id>>, name: Id -> string, crate: Id, forbidden: set<string>)
    requires Sound(edges, crate, Begin(crate))
    ensures Exploring(edges, name, crate, forbidden, map[crate := None], map[], Begin(crate))
  {
  }

  lemma Fewer(all: set<Id>, before: set<Id>, after: set<Id>)
    requires before <= after <= all
    ensures |all - after| <= |all - before|
    ensures before != after ==> |all - after| < |all - before|
  {
    assert all - before == (all - after) + (after - before);
    assert before != after ==> after - before != {};
  }

  /** The dependencies of one package, each unknown one entered at the back of the queue. */
  method Expand(edges: map<Id, seq<Id>>, name: Id -> string, crate: Id, forbidden: set<string>, current: Id,
                parent0: map<Id, Option<Id>>, reached0: map<string, Id>, queue0: seq<Id>, ghost s0: Search<Id>)
    returns (parent: map<Id, Option<Id>>, reached: map<string, Id>, queue: seq<Id>, ghost s: Search<Id>)
    requires Exploring(edges, name, crate, forbidden, parent0, reached0, s0)
    requires s0.done < |s0.order| && s0.order[s0.done] == current && queue0 == s0.order[s0.done + 1..]
    ensures Exploring(edges, name, crate, forbidden, parent, reached, s)
    ensures s.done <= |s.order| && queue == s.order[s.done..]
    ensures parent0.Keys <= parent.Keys <= Universe(edges, crate)
    ensures parent.Keys == parent0.Keys ==> queue == queue0
  {
    hide Exploring, Next, Universe;
    parent, reached, queue, s := parent0, reached0, queue0, s0;
    var deps := Next(edges, current);
    for j := 0 to |deps|
      invariant Exploring(edges, name, crate, forbidden, parent, reached, s)
      invariant s.done < |s.order| && s.order[s.done] == current && queue == s.order[s.done + 1..]
      invariant forall i :: 0 <= i < j ==> deps[i] in parent
      invariant parent0.Keys <= parent.Keys && (parent.Keys == parent0.Keys ==> queue == queue0)
    {
      var dep := deps[j];
      if dep !in parent {
        FindExploring(edges, name, crate, forbidden, parent, reached, s, dep);
        parent := parent[dep := Some(current)];
        if name(dep) in forbidden && name(dep) !in reached {
          reached := reached[name(dep) := dep];
        }
        queue := queue + [dep];
        s := Find(s, dep);
      }
    }
    ExpandedExploring(edges, name, crate, forbidden, parent, reached, s);
    s := Expanded(s);
  }

  lemma FindExploring(edges: map<Id, seq<Id>>, name: Id -> string, crate: Id, forbidden: set<string>,
                      parent: map<Id, Option<Id>>, reached: map<string, Id>, s: Search<Id>, dep: Id)
    requires Exploring(edges, name, crate, forbidden, parent, reached, s)
    requires s.done < |s.order| && dep in Next(edges, s.order[s.done]) && dep !in parent
    ensures s.order[s.done] in s.depth
    ensures var reached1 :=
              if name(dep) in forbidden && name(dep) !in reached then reached[name(dep) := dep] else reached;
            Exploring(edges, name, crate, forbidden, parent[dep := Some(s.order[s.done])], reached1, Find(s, dep))
  {
    var current := s.order[s.done];
    hide Sound, Parents, NearestFound, Universe, Next;
    ParentKeys(edges, crate, s.depth, parent);
    FindSound(edges, crate, s, dep);
    NotDeeper(edges, crate, s);
    InUniverse(edges, crate, current, dep);
    ParentsMore(edges, crate, s.depth, parent, current, dep);
    NearestMore(name, crate, forbidden, s.depth, reached, dep, s.depth[current] + 1);
  }

  lemma ParentKeys(edges: map<Id, seq<Id>>, crate: Id, depth: map<Id, nat>, parent: map<Id, Option<Id>>)
    requires Parents(edges, crate, depth, parent)
    ensures parent.Keys == depth.Keys && crate in depth
  {
  }

  lemma NotDeeper(edges: map<Id, seq<Id>>, crate: Id, s: Search<Id>)
    requires Sound(edges, crate, s) && s.done < |s.order|
    ensures s.order[s.done] in s.depth
    ensures forall x :: x in s.depth ==> s.depth[x] <= s.depth[s.order[s.done]] + 1
  {
  }

  lemma InUniverse(edges: map<Id, seq<Id>>, crate: Id, current: Id, dep: Id)
    requires dep in Next(edges, current)
    ensures dep in Universe(edges, crate)
  {
    var i :| 0 <= i < |edges[current]| && edges[current][i] == dep;
  }

  lemma ParentsMore(edges: map<Id, seq<Id>>, crate: Id, depth: map<Id, nat>, parent: map<Id, Option<Id>>,
                    current: Id, dep: Id)
    requires Parents(edges, crate, depth, parent) && current in depth && dep !in depth && dep in Next(edges, current)
    ensures Parents(edges, crate, depth[dep := depth[current] + 1], parent[dep := Some(current)])
  {
    hide Next;
  }

  lemma NearestMore(name: Id -> string, crate: Id, forbidden: set<string>, depth: map<Id, nat>,
                    reached: map<string, Id>, dep: Id, n: nat)
    requires NearestFound(name, crate, forbidden, depth, reached) && dep !in depth && crate in depth
    requires forall x :: x in depth ==> depth[x] <= n
    ensures var reached1 :=
              if name(dep) in forbidden && name(dep) !in reached then reached[name(dep) := dep] else reached;
            NearestFound(name, crate, forbidden, depth[dep := n], reached1)
  {
  }

  lemma ExpandedExploring(edges: map<Id, seq<Id>>, name: Id -> string, crate: Id, forbidden: set<string>,
                          parent: map<Id, Option<Id>>, reached: map<string, Id>, s: Search<Id>)
    requires Exploring(edges, name, crate, forbidden, parent, reached, s) && s.done < |s.order|
    requires forall i :: 0 <= i < |Next(edges, s.order[s.done])| ==> Next(edges, s.order[s.done])[i] in parent
    ensures Exploring(edges, name, crate, forbidden, parent, reached, Expanded(s))
    ensures parent.Keys <= Universe(edges, crate)
  {
    hide Sound, NearestFound, Universe;
    ExpandedSound(edges, crate, s);
  }

  /** For each forbidden name reported, a chain of names from the crate: the names of a shortest walk to a
      package of that name. A name is reported exactly when such a package can be reached. */
  method Findings(edges: map<Id, seq<Id>>, name: Id -> string, crate: Id, forbidden: set<string>)
    returns (chains: map<string, seq<string>>)
    ensures forall t :: t in chains <==> t in forbidden && Reachable(edges, name, crate, t)
    ensures forall t :: t in chains ==> Reported(edges, name, crate, t, chains[t])
  {
    hide Exploring, Reachable, Reported, Names, WalksTo;
    var parent, reached;
    ghost var s;
    parent, reached, s := Explore(edges, name, crate, forbidden);
    chains := map[];
    var todo := reached.Keys;
    ExploredAll(edges, name, crate, forbidden, parent, reached, s);
    while todo != {}
      invariant todo <= reached.Keys && chains.Keys == reached.Keys - todo
      invariant forall t :: t in chains ==> Reported(edges, name, crate, t, chains[t])
      decreases |todo|
    {
      var target :| target in todo;
      var chain;
      ghost var walk;
      chain, walk := ChainTo(edges, name, crate, s.depth, parent, reached[target]);
      ChainReported(edges, name, crate, forbidden, parent, reached, s, target, walk);
      chains := chains[target := chain];
      todo := todo - {target};
    }
  }

  /** Some package of the name, other than the crate, can be reached. */
  ghost predicate Reachable(edges: map<Id, seq<Id>>, name: Id -> string, crate: Id, t: string) {
    exists p :: LeadsTo(edges, name, crate, p, t)
  }

  /** The chain is the names of a walk to a package of the name, and no walk to one is shorter. */
  ghost predicate Reported(edges: map<Id, seq<Id>>, name: Id -> string, crate: Id, t: string, chain: seq<string>) {
    exists p :: LeadsTo(edges, name, crate, p, t) && chain == Names(name, p) &&
                forall q :: LeadsTo(edges, name, crate, q, t) ==> |p| <= |q|
  }

  lemma ExploredAll(edges: map<Id, seq<Id>>, name: Id -> string, crate: Id, forbidden: set<string>,
                    parent: map<Id, Option<Id>>, reached: map<string, Id>, s: Search<Id>)
    requires Exploring(edges, name, crate, forbidden, parent, reached, s) && s.done == |s.order|
    ensures Parents(edges, crate, s.depth, parent) && s.depth[crate] == 0
    ensures forall t :: t in reached ==> reached[t] in s.depth
    ensures forall t :: t in reached <==> t in forbidden && Reachable(edges, name, crate, t)
  {
    forall t, p | t in forbidden && LeadsTo(edges, name, crate, p, t) ensures t in reached {
      NoShorter(edges, crate, s, p, p[|p| - 1]);
    }
    forall t | t in reached ensures Reachable(edges, name, crate, t) {
      var x := reached[t];
      assert WalkOf(edges, crate, x, s.depth[x]);
      var p :| WalksTo(edges, p, crate, x) && |p| == s.depth[x] + 1;
      assert LeadsTo(edges, name, crate, p, t);
    }
  }

  lemma ChainReported(edges: map<Id, seq<Id>>, name: Id -> string, crate: Id, forbidden: set<string>,
                      parent: map<Id, Option<Id>>, reached: map<string, Id>, s: Search<Id>, t: string, walk: seq<Id>)
    requires Exploring(edges, name, crate, forbidden, parent, reached, s) && s.done == |s.order|
    requires t in reached && WalksTo(edges, walk, crate, reached[t]) && |walk| == s.depth[reached[t]] + 1
    ensures Reported(edges, name, crate, t, Names(name, walk))
  {
    assert LeadsTo(edges, name, crate, walk, t);
    forall q | LeadsTo(edges, name, crate, q, t) ensures |walk| <= |q| {
      NoShorter(edges, crate, s, q, q[|q| - 1]);
    }
  }

  // ---- the edges taken from cargo metadata

  datatype DepKind = NormalDep | BuildDep | DevDep

  /** One dependency of a resolved package, with the kinds it is declared as. */
  datatype Dep = Dep(pkg: Id, kinds: seq<DepKind>)

  /** A dependency counts when one of its kinds is normal or build. */
  predicate Counts(dep: Dep) {
    exists i :: 0 <= i < |dep.kinds| && dep.kinds[i] != DevDep
  }

  function KeptDeps(deps: seq<Dep>): seq<Id> {
    if deps == [] then []
    else (if Counts(deps[0]) then [deps[0].pkg] else []) + KeptDeps(deps[1..])
  }

  /** An edge stands exactly where a dependency of a kind that counts does. */
  lemma {:induction false} KeptDepsExact(deps: seq<Dep>, pkg: Id)
    ensures pkg in KeptDeps(deps) <==> exists i :: 0 <= i < |deps| && deps[i].pkg == pkg && Counts(deps[i])
  {
    if deps != [] {
      var rest := deps[1..];
      KeptDepsExact(rest, pkg);
      if pkg in KeptDeps(rest) {
        var i :| 0 <= i < |rest| && rest[i].pkg == pkg && Counts(rest[i]);
        assert deps[i + 1] == rest[i];
      }
      if i :| 0 <= i < |deps| && deps[i].pkg == pkg && Counts(deps[i]) {
        if i > 0 { assert rest[i - 1] == deps[i]; }
      }
    }
  }

  /** The edges the search goes over. */
  function EdgesOf(nodes: map<Id, seq<Dep>>): map<Id, seq<Id>> {
    map x | x in nodes :: KeptDeps(nodes[x])
  }

  lemma EdgesExact(nodes: map<Id, seq<Dep>>, x: Id, y: Id)
    ensures y in Next(EdgesOf(nodes), x) <==>
            x in nodes && exists i :: 0 <= i < |nodes[x]| && nodes[x][i].pkg == y &&
                                      (NormalDep in nodes[x][i].kinds || BuildDep in nodes[x][i].kinds)
  {
    if x in nodes {
      KeptDepsExact(nodes[x], y);
      forall i | 0 <= i < |nodes[x]| { CountsExact(nodes[x][i]); }
    }
    hide Counts;
  }

  lemma CountsExact(dep: Dep)
    ensures Counts(dep) <==> NormalDep in dep.kinds || BuildDep in dep.kinds
  {
  }
}
