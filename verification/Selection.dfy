/** owner and selection of scripts/precommit_clippy.py: the packages a commit can break. */
module Selection {
  import opened Options

  type Name = string
  type Parts = seq<string>

  /** owner: a package whose directory holds the path most closely, whatever order the packages come in. */
  method Owner(path: Parts, packages: map<Name, Parts>) returns (best: Option<Name>)
    ensures best.None? <==> Outside(path, packages)
    ensures best.Some? ==> Owns(best.value, path, packages)
  {
    best := None;
    var todo := packages.Keys;
    while todo != {}
      invariant todo <= packages.Keys
      invariant best.None? ==> forall n :: n in packages && n !in todo ==> !(packages[n] <= path)
      invariant best.Some? ==> best.value in packages && packages[best.value] <= path &&
                               forall n :: n in packages && n !in todo && packages[n] <= path ==>
                                             |packages[n]| <= |packages[best.value]|
      decreases |todo|
    {
      var name :| name in todo;
      if packages[name] <= path && (best.None? || |packages[name]| > |packages[best.value]|) {
        best := Some(name);
      }
      todo := todo - {name};
    }
  }

  /** The package's directory holds the path, and no deeper package directory does. */
  predicate Owns(n: Name, path: Parts, packages: map<Name, Parts>) {
    n in packages && packages[n] <= path &&
    forall other :: other in packages && packages[other] <= path ==> |packages[other]| <= |packages[n]|
  }

  // ---- the closure

  /** Packages each of which depends on the next, from x to a changed one. */
  ghost predicate Chain(dependsOn: map<Name, set<Name>>, changed: set<Name>, p: seq<Name>, x: Name) {
    && p != [] && p[0] == x && p[|p| - 1] in changed
    && forall i :: 0 <= i < |p| - 1 ==> p[i] in dependsOn && p[i + 1] in dependsOn[p[i]]
  }

  ghost predicate Affected(dependsOn: map<Name, set<Name>>, changed: set<Name>, x: Name) {
    exists p :: Chain(dependsOn, changed, p, x)
  }

  /** Whatever depends on a member is a member. */
  predicate Closed(dependsOn: map<Name, set<Name>>, s: set<Name>) {
    forall n :: n in dependsOn && dependsOn[n] * s != {} ==> n in s
  }

  lemma {:induction false} ChainInside(dependsOn: map<Name, set<Name>>, changed: set<Name>, s: set<Name>,
                                       p: seq<Name>, x: Name)
    requires changed <= s && Closed(dependsOn, s) && Chain(dependsOn, changed, p, x)
    ensures x in s
    decreases |p|
  {
    if |p| > 1 {
      var q := p[1..];
      assert forall i :: 0 <= i < |q| ==> q[i] == p[i + 1];
      ChainInside(dependsOn, changed, s, q, p[1]);
      assert p[1] in dependsOn[p[0]] * s;
    }
  }

  lemma ChainMore(dependsOn: map<Name, set<Name>>, changed: set<Name>, p: seq<Name>, x: Name, n: Name)
    requires Chain(dependsOn, changed, p, x) && n in dependsOn && x in dependsOn[n]
    ensures Chain(dependsOn, changed, [n] + p, n)
  {
    var q := [n] + p;
    forall i | 0 <= i < |q| - 1 ensures q[i] in dependsOn && q[i + 1] in dependsOn[q[i]] {
      if i > 0 { assert q[i] == p[i - 1] && q[i + 1] == p[i]; }
    }
  }

  lemma AffectedMore(dependsOn: map<Name, set<Name>>, changed: set<Name>, s: set<Name>, n: Name)
    requires AllAffected(dependsOn, changed, s) && n in dependsOn && dependsOn[n] * s != {}
    ensures Affected(dependsOn, changed, n)
  {
    var x :| x in dependsOn[n] * s;
    var p :| Chain(dependsOn, changed, p, x);
    ChainMore(dependsOn, changed, p, x, n);
  }

  /** Exactly the affected packages: the least set holding the changed ones that is closed. */
  ghost predicate Least(dependsOn: map<Name, set<Name>>, changed: set<Name>, selected: set<Name>) {
    && (forall x :: x in selected <==> Affected(dependsOn, changed, x))
    && changed <= selected && Closed(dependsOn, selected)
    && forall s :: changed <= s && Closed(dependsOn, s) ==> selected <= s
  }

  /** The set grown pass by pass until a pass adds nothing, in whatever order each pass goes. */
  method Grow(dependsOn: map<Name, set<Name>>, changed: set<Name>) returns (selected: set<Name>)
    ensures Least(dependsOn, changed, selected)
  {
    selected := changed;
    ChangedAffected(dependsOn, changed);
    hide *;
    var grown := true;
    while grown
      invariant changed <= selected && AllAffected(dependsOn, changed, selected)
      invariant !grown ==> Closed(dependsOn, selected)
      decreases |dependsOn.Keys - selected|, grown
    {
      selected, grown := Pass(dependsOn, changed, selected);
    }
    LeastClosed(dependsOn, changed, selected);
  }

  ghost predicate AllAffected(dependsOn: map<Name, set<Name>>, changed: set<Name>, s: set<Name>) {
    forall x :: x in s ==> Affected(dependsOn, changed, x)
  }

  lemma ChangedAffected(dependsOn: map<Name, set<Name>>, changed: set<Name>)
    ensures AllAffected(dependsOn, changed, changed)
  {
    forall x | x in changed ensures Affected(dependsOn, changed, x) {
      assert Chain(dependsOn, changed, [x], x);
    }
  }

  /** One pass over the packages. */
  method Pass(dependsOn: map<Name, set<Name>>, changed: set<Name>, before: set<Name>)
    returns (selected: set<Name>, grown: bool)
    requires changed <= before && AllAffected(dependsOn, changed, before)
    ensures before <= selected && AllAffected(dependsOn, changed, selected)
    ensures grown ==> |dependsOn.Keys - selected| < |dependsOn.Keys - before|
    ensures !grown ==> selected == before && Closed(dependsOn, selected)
  {
    hide Affected;
    selected, grown := before, false;
    var todo := dependsOn.Keys;
    while todo != {}
      invariant todo <= dependsOn.Keys && before <= selected
      invariant AllAffected(dependsOn, changed, selected)
      invariant grown ==> |dependsOn.Keys - selected| < |dependsOn.Keys - before|
      invariant !grown ==> selected == before
      invariant !grown ==> forall n :: n in dependsOn && n !in todo && dependsOn[n] * selected != {} ==> n in selected
      decreases |todo|
    {
      var name :| name in todo;
      if name !in selected && dependsOn[name] * selected != {} {
        AffectedMore(dependsOn, changed, selected, name);
        assert dependsOn.Keys - (selected + {name}) == (dependsOn.Keys - selected) - {name};
        selected := selected + {name};
        grown := true;
      }
      todo := todo - {name};
    }
  }

  lemma LeastClosed(dependsOn: map<Name, set<Name>>, changed: set<Name>, selected: set<Name>)
    requires changed <= selected && Closed(dependsOn, selected) && AllAffected(dependsOn, changed, selected)
    ensures Least(dependsOn, changed, selected)
  {
    forall x, s | Affected(dependsOn, changed, x) && changed <= s && Closed(dependsOn, s) ensures x in s {
      AffectedInside(dependsOn, changed, s, x);
    }
    hide Affected, Closed;
  }

  lemma AffectedInside(dependsOn: map<Name, set<Name>>, changed: set<Name>, s: set<Name>, x: Name)
    requires Affected(dependsOn, changed, x) && changed <= s && Closed(dependsOn, s)
    ensures x in s
  {
    var p :| Chain(dependsOn, changed, p, x);
    ChainInside(dependsOn, changed, s, p, x);
  }

  // ---- the selection

  predicate OwnsOne(n: Name, paths: seq<Parts>, packages: map<Name, Parts>) {
    exists i :: 0 <= i < |paths| && Owns(n, paths[i], packages)
  }

  predicate Owned(path: Parts, owners: set<Name>, packages: map<Name, Parts>) {
    exists n :: n in owners && Owns(n, path, packages)
  }

  /** The owners of the paths: one for every path, and nothing else. */
  predicate OwnersOf(owners: set<Name>, paths: seq<Parts>, packages: map<Name, Parts>) {
    && (forall n :: n in owners ==> OwnsOne(n, paths, packages))
    && (forall i :: 0 <= i < |paths| ==> Owned(paths[i], owners, packages))
  }

  predicate Outside(path: Parts, packages: map<Name, Parts>) {
    forall n :: n in packages ==> !(packages[n] <= path)
  }

  method Owners(rust: seq<Parts>, packages: map<Name, Parts>) returns (r: Option<set<Name>>)
    ensures r.None? <==> exists i :: 0 <= i < |rust| && Outside(rust[i], packages)
    ensures r.Some? ==> OwnersOf(r.value, rust, packages)
  {
    hide OwnersOf, Outside;
    var changed: set<Name> := {};
    NoOwners(packages);
    for i := 0 to |rust|
      invariant OwnersOf(changed, rust[..i], packages)
      invariant forall j :: 0 <= j < i ==> !Outside(rust[j], packages)
    {
      var name := Owner(rust[i], packages);
      if name.None? { return None; }
      assert rust[..i + 1] == rust[..i] + [rust[i]];
      AddOwner(changed, rust[..i], packages, name.value, rust[i]);
      changed := changed + {name.value};
    }
    assert rust[..|rust|] == rust;
    r := Some(changed);
  }

  lemma NoOwners(packages: map<Name, Parts>)
    ensures OwnersOf({}, [], packages)
  {
  }

  lemma AddOwner(owners: set<Name>, paths: seq<Parts>, packages: map<Name, Parts>, n: Name, path: Parts)
    requires OwnersOf(owners, paths, packages) && Owns(n, path, packages)
    ensures OwnersOf(owners + {n}, paths + [path], packages)
  {
    var more, all := owners + {n}, paths + [path];
    forall m | m in more ensures OwnsOne(m, all, packages) {
      assert all[|paths|] == path;
      if m in owners { OwnsOneMore(m, paths, path, packages); }
    }
    forall i | 0 <= i < |all| ensures Owned(all[i], more, packages) {
      if i < |paths| {
        var m :| m in owners && Owns(m, paths[i], packages);
        assert m in more;
      }
    }
  }

  lemma OwnsOneMore(n: Name, paths: seq<Parts>, path: Parts, packages: map<Name, Parts>)
    requires OwnsOne(n, paths, packages)
    ensures OwnsOne(n, paths + [path], packages)
  {
    var i :| 0 <= i < |paths| && Owns(n, paths[i], packages);
    assert (paths + [path])[i] == paths[i];
  }

  /** selection: the whole workspace (None) for no Rust file or one outside every package, otherwise
      exactly the packages that lead by dependencies to the owner of a staged file. */
  method Select(packages: map<Name, Parts>, dependencies: map<Name, set<Name>>, rust: seq<Parts>)
    returns (r: Option<set<Name>>)
    ensures r.None? <==> rust == [] || exists i :: 0 <= i < |rust| && Outside(rust[i], packages)
    ensures r.Some? ==> exists changed :: OwnersOf(changed, rust, packages) &&
                                          Least(Within(dependencies, packages.Keys), changed, r.value) &&
                                          forall x :: x in r.value <==> Leads(packages, dependencies, changed, x)
  {
    if rust == [] { return None; }
    var changed := Owners(rust, packages);
    if changed.None? { return None; }
    hide *;
    var selected := Grow(Within(dependencies, packages.Keys), changed.value);
    LeastLeads(packages, dependencies, changed.value, selected);
    r := Some(selected);
  }

  /** A chain of declared dependencies, each on a package of the workspace, from x to a changed one. */
  ghost predicate Leading(packages: map<Name, Parts>, dependencies: map<Name, set<Name>>, changed: set<Name>,
                          p: seq<Name>, x: Name)
  {
    && p != [] && p[0] == x && p[|p| - 1] in changed
    && (forall i :: 0 <= i < |p| - 1 ==> p[i] in dependencies && p[i + 1] in dependencies[p[i]])
    && forall i :: 0 < i < |p| ==> p[i] in packages
  }

  ghost predicate Leads(packages: map<Name, Parts>, dependencies: map<Name, set<Name>>, changed: set<Name>, x: Name) {
    exists p :: Leading(packages, dependencies, changed, p, x)
  }

  lemma ChainIs(packages: map<Name, Parts>, dependencies: map<Name, set<Name>>, changed: set<Name>, p: seq<Name>,
                x: Name)
    ensures Chain(Within(dependencies, packages.Keys), changed, p, x) <==>
            Leading(packages, dependencies, changed, p, x)
  {
    var within := Within(dependencies, packages.Keys);
    if Chain(within, changed, p, x) {
      forall i | 0 < i < |p| ensures p[i] in packages {
        var j := i - 1;
        assert p[j + 1] in within[p[j]];
      }
    }
  }

  lemma LeastLeads(packages: map<Name, Parts>, dependencies: map<Name, set<Name>>, changed: set<Name>,
                   selected: set<Name>)
    requires Least(Within(dependencies, packages.Keys), changed, selected)
    ensures forall x :: x in selected <==> Leads(packages, dependencies, changed, x)
  {
    forall p, x { ChainIs(packages, dependencies, changed, p, x); }
    hide Chain, Leading, Within, Closed;
  }

  /** Dependencies on packages of the workspace. */
  function Within(dependencies: map<Name, set<Name>>, names: set<Name>): map<Name, set<Name>> {
    map n | n in dependencies :: dependencies[n] * names
  }
}
