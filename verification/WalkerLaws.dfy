/** What the walker gives: the marker exactly where a path meets a key twice, the full encoding otherwise;
    and when that is exactly for values that hold themselves. */
module WalkerLaws {
  import opened Options
  import opened Codec
  import opened CodecLaws
  import opened Walker

  // ---- the marker and json.Marshal

  predicate Marked(w: Walked) {
    match w
    case Cycle => true
    case Plain(_) => false
    case Items(items) => exists i :: 0 <= i < |items| && Marked(items[i])
    case Fields(fields) => exists k :: k in fields && Marked(fields[k])
  }

  /** json.Marshal of a walked value fails on the marker; otherwise this is what it writes. */
  function Marshal(w: Walked): Any
    requires !Marked(w)
  {
    match w
    case Plain(v) => v
    case Items(items) => ListV(seq(|items|, i requires 0 <= i < |items| => Marshal(items[i])))
    case Fields(fields) => MapV(map k | k in fields :: Marshal(fields[k]))
  }

  // ---- holding, and holding itself

  /** Whether a value refers to container c directly, or inside an array. */
  predicate Holds(v: GoValue, c: Container) {
    match v
    case ArrayOf(elements) => exists i :: 0 <= i < |elements| && Holds(elements[i], c)
    case Ref(d) => d == c
    case _ => false
  }

  predicate Contains(x: Contents, c: Container) {
    match x
    case Entries(m) => exists k :: k in m && Holds(m[k], c)
    case Elements(s) => exists i :: 0 <= i < |s| && Holds(s[i], c)
    case Target(v) => Holds(v, c)
  }

  /** Containers each of which contains the next. */
  predicate Chain(h: Heap, p: seq<Container>) {
    && p != []
    && (forall i :: 0 <= i < |p| ==> p[i] in h)
    && (forall i :: 0 <= i < |p| - 1 ==> Contains(h[p[i]], p[i + 1]))
  }

  /** The last of a chain stands in it before. */
  predicate Returns(p: seq<Container>) {
    p != [] && exists i :: 0 <= i < |p| - 1 && p[i] == p[|p| - 1]
  }

  /** The key of the last of a chain stands in it before. */
  predicate Repeats(p: seq<Container>) {
    p != [] && exists i :: 0 <= i < |p| - 1 && KeyOf(p[i]) == KeyOf(p[|p| - 1])
  }

  /** The last of a chain has the key of a different container before it. */
  predicate Mistaken(p: seq<Container>) {
    p != [] && exists i :: 0 <= i < |p| - 1 && KeyOf(p[i]) == KeyOf(p[|p| - 1]) && p[i] != p[|p| - 1]
  }

  /** A container that v leads to leads back to itself. */
  ghost predicate HoldsItself(h: Heap, v: GoValue) {
    exists p :: Chain(h, p) && Holds(v, p[0]) && Returns(p)
  }

  /** A path from v meets a key twice. */
  ghost predicate MeetsKeyTwice(h: Heap, v: GoValue) {
    exists p :: Chain(h, p) && Holds(v, p[0]) && Repeats(p)
  }

  /** A path from v meets two different containers of one key. */
  ghost predicate Confuses(h: Heap, v: GoValue) {
    exists p :: Chain(h, p) && Holds(v, p[0]) && Mistaken(p)
  }

  /** In front of a chain. */
  lemma ChainMore(h: Heap, c: Container, p: seq<Container>)
    requires p != [] && c in h && Chain(h, p) && Contains(h[c], p[0])
    ensures Chain(h, [c] + p) && ([c] + p)[|p|] == p[|p| - 1]
  {
    hide Contains;
    var q := [c] + p;
    forall i | 0 <= i < |q| - 1 ensures Contains(h[q[i]], q[i + 1]) {
      if i > 0 { assert q[i] == p[i - 1] && q[i + 1] == p[i]; }
    }
  }

  lemma RepeatsMore(c: Container, p: seq<Container>)
    requires p != []
    ensures Returns(p) || p[|p| - 1] == c ==> Returns([c] + p)
    ensures Repeats(p) || KeyOf(p[|p| - 1]) == KeyOf(c) ==> Repeats([c] + p)
  {
    var q := [c] + p;
    assert q[0] == c && q[|q| - 1] == p[|p| - 1];
    if Returns(p) {
      var i :| 0 <= i < |p| - 1 && p[i] == p[|p| - 1];
      assert q[i + 1] == q[|q| - 1];
    }
    if Repeats(p) {
      var i :| 0 <= i < |p| - 1 && KeyOf(p[i]) == KeyOf(p[|p| - 1]);
      assert q[i + 1] == p[i];
    }
    hide KeyOf;
  }

  // ---- the marker and the keys

  lemma WhereMarked(lib: Library, h: Heap, c: Container, path: set<Key>) returns (u: GoValue)
    requires WellFormed(h) && c in h && KeyOf(c) !in path && Marked(Walk(lib, h, Ref(c), path))
    ensures Closed(h, u) && Marked(Walk(lib, h, u, path + {KeyOf(c)}))
    ensures forall d :: Holds(u, d) ==> Contains(h[c], d)
    ensures |HeapKeys(h) - (path + {KeyOf(c)})| < |HeapKeys(h) - path|
  {
    Shrinks(HeapKeys(h), path, KeyOf(c));
    match h[c]
    case Entries(m) =>
      var k :| k in m && Marked(WalkMap(lib, h, m, path + {KeyOf(c)})[k]);
      u := m[k];
    case Elements(s) =>
      var i :| 0 <= i < |s| && Marked(WalkList(lib, h, s, path + {KeyOf(c)})[i]);
      u := s[i];
    case Target(t) => u := t;
  }

  /** A marker is where a chain from the value comes to a key of its own or of the path again. */
  lemma {:induction false} MarkedChain(lib: Library, h: Heap, v: GoValue, path: set<Key>)
    returns (p: seq<Container>)
    requires WellFormed(h) && Closed(h, v) && Marked(Walk(lib, h, v, path))
    ensures p != [] && Chain(h, p) && Holds(v, p[0]) && (Repeats(p) || KeyOf(p[|p| - 1]) in path)
    decreases |HeapKeys(h) - path|, v
  {
    hide *;
    if v.ArrayOf? {
      var i := MarkedElement(lib, h, v.elements, path);
      p := MarkedChain(lib, h, v.elements[i], path);
      HoldsElement(v.elements, i, p[0]);
    } else {
      var c := MarkedIsRef(lib, h, v, path);
      if KeyOf(c) in path {
        p := [c];
        LoneChain(h, c);
      } else {
        var u := WhereMarked(lib, h, c, path);
        var q := MarkedChain(lib, h, u, path + {KeyOf(c)});
        ChainMore(h, c, q);
        RepeatsMore(c, q);
        p := [c] + q;
      }
    }
  }

  lemma MarkedElement(lib: Library, h: Heap, elements: seq<GoValue>, path: set<Key>) returns (i: nat)
    requires WellFormed(h) && Closed(h, ArrayOf(elements)) && Marked(Walk(lib, h, ArrayOf(elements), path))
    ensures i < |elements| && Closed(h, elements[i]) && Marked(Walk(lib, h, elements[i], path))
  {
    hide WellFormed, HeapKeys;
    i :| 0 <= i < |elements| && Marked(WalkList(lib, h, elements, path)[i]);
  }

  lemma HoldsElement(elements: seq<GoValue>, i: nat, c: Container)
    requires i < |elements| && Holds(elements[i], c)
    ensures Holds(ArrayOf(elements), c)
  {
  }

  lemma MarkedIsRef(lib: Library, h: Heap, v: GoValue, path: set<Key>) returns (c: Container)
    requires WellFormed(h) && Closed(h, v) && Marked(Walk(lib, h, v, path)) && !v.ArrayOf?
    ensures v == Ref(c) && c in h && Holds(v, c)
  {
    assert v.Ref?;
    c := v.c;
  }

  lemma LoneChain(h: Heap, c: Container)
    requires c in h
    ensures Chain(h, [c])
  {
  }

  lemma {:induction false} HeldUnmarked(lib: Library, h: Heap, v: GoValue, c: Container, path: set<Key>)
    requires WellFormed(h) && Closed(h, v) && Holds(v, c) && !Marked(Walk(lib, h, v, path))
    ensures c in h && !Marked(Walk(lib, h, Ref(c), path))
    decreases v
  {
    hide WellFormed, HeapKeys;
    if v.ArrayOf? {
      var i :| 0 <= i < |v.elements| && Holds(v.elements[i], c);
      assert !Marked(WalkList(lib, h, v.elements, path)[i]);
      HeldUnmarked(lib, h, v.elements[i], c, path);
    }
  }

  /** What an unmarked container holds is unmarked with its key on the path. */
  lemma NextUnmarked(lib: Library, h: Heap, a: Container, b: Container, path: set<Key>)
    requires WellFormed(h) && a in h && Contains(h[a], b) && !Marked(Walk(lib, h, Ref(a), path))
    ensures KeyOf(a) !in path && b in h && !Marked(Walk(lib, h, Ref(b), path + {KeyOf(a)}))
  {
    hide HeapKeys, KeyOf, Holds;
    assert ClosedContents(h, h[a]) && Tracked(a);
    assert Walk(lib, h, Ref(a), path) == WalkInside(lib, h, h[a], path + {KeyOf(a)});
    hide WellFormed, Walk, Marked, Tracked, Contains, WalkInside;
    InsideUnmarked(lib, h, h[a], b, path + {KeyOf(a)});
  }

  lemma InsideUnmarked(lib: Library, h: Heap, x: Contents, b: Container, path: set<Key>)
    requires WellFormed(h) && ClosedContents(h, x) && Contains(x, b) && !Marked(WalkInside(lib, h, x, path))
    ensures b in h && !Marked(Walk(lib, h, Ref(b), path))
  {
    hide WellFormed, HeapKeys, Walk, Holds;
    match x
    case Entries(m) =>
      var k :| k in m && Holds(m[k], b);
      assert !Marked(WalkMap(lib, h, m, path)[k]);
      HeldUnmarked(lib, h, m[k], b, path);
    case Elements(s) =>
      var i :| 0 <= i < |s| && Holds(s[i], b);
      assert !Marked(WalkList(lib, h, s, path)[i]);
      HeldUnmarked(lib, h, s[i], b, path);
    case Target(t) => HeldUnmarked(lib, h, t, b, path);
  }

  function KeysOf(p: seq<Container>): set<Key> {
    set i | 0 <= i < |p| :: KeyOf(p[i])
  }

  lemma KeysMore(p: seq<Container>, i: nat)
    requires i < |p|
    ensures KeysOf(p[..i + 1]) == KeysOf(p[..i]) + {KeyOf(p[i])}
  {
    assert p[..i + 1][i] == p[i] && forall j :: 0 <= j < i ==> p[..i + 1][j] == p[..i][j] == p[j];
    hide KeyOf;
    assert KeyOf(p[i]) in KeysOf(p[..i + 1]);
    forall key | key in KeysOf(p[..i]) ensures key in KeysOf(p[..i + 1]) {
      var j :| 0 <= j < i && KeyOf(p[..i][j]) == key;
      assert KeyOf(p[..i + 1][j]) == key;
    }
  }

  /** Along a chain from an unmarked value every container is unmarked, the keys before it on the path. */
  lemma {:induction false} UnmarkedAlong(lib: Library, h: Heap, p: seq<Container>, i: nat)
    requires WellFormed(h) && Chain(h, p) && i < |p| && !Marked(Walk(lib, h, Ref(p[0]), {}))
    ensures !Marked(Walk(lib, h, Ref(p[i]), KeysOf(p[..i])))
    decreases i
  {
    hide Walk, Marked, WellFormed, Contains, KeyOf, KeysOf;
    if i == 0 {
      NoKeys(p);
    } else {
      UnmarkedAlong(lib, h, p, i - 1);
      NextUnmarked(lib, h, p[i - 1], p[i], KeysOf(p[..i - 1]));
      KeysMore(p, i - 1);
    }
  }

  lemma NoKeys(p: seq<Container>)
    ensures KeysOf(p[..0]) == {}
  {
  }

  lemma KeyAmong(p: seq<Container>, i: nat, n: nat)
    requires i < n <= |p|
    ensures KeyOf(p[i]) in KeysOf(p[..n])
  {
    assert p[..n][i] == p[i];
  }

  lemma MarkedHere(lib: Library, h: Heap, c: Container, path: set<Key>)
    requires WellFormed(h) && c in h && KeyOf(c) in path
    ensures Marked(Walk(lib, h, Ref(c), path))
  {
  }

  /** A key met twice leaves its marker. */
  lemma RepeatIsMarked(lib: Library, h: Heap, v: GoValue, p: seq<Container>)
    requires WellFormed(h) && Closed(h, v) && Chain(h, p) && Holds(v, p[0]) && Repeats(p)
    ensures Marked(Walk(lib, h, v, {}))
  {
    hide WellFormed, Contains, KeyOf, KeysOf, HeapKeys;
    var n := |p| - 1;
    var i :| 0 <= i < n && KeyOf(p[i]) == KeyOf(p[n]);
    if !Marked(Walk(lib, h, v, {})) {
      HeldUnmarked(lib, h, v, p[0], {});
      UnmarkedAlong(lib, h, p, n);
      KeyAmong(p, i, n);
      MarkedHere(lib, h, p[n], KeysOf(p[..n]));
    }
  }

  // ---- finite unfoldings

  /** The tree a value stands for, when no more than `depth` containers are nested in it. */
  function Unfold(h: Heap, v: GoValue, depth: nat): Option<Any>
    requires WellFormed(h) && Closed(h, v)
    decreases depth, v
  {
    match v
    case Leaf(x) => Some(x)
    case Floats(floats) => Some(ListV(seq(|floats|, i requires 0 <= i < |floats| => Flt(floats[i]))))
    case ArrayOf(elements) => UnfoldList(h, elements, depth)
    case Ref(c) => if depth == 0 then None else UnfoldContents(h, h[c], depth - 1)
  }

  function UnfoldContents(h: Heap, x: Contents, depth: nat): Option<Any>
    requires WellFormed(h) && ClosedContents(h, x)
    decreases depth, x, 1
  {
    match x
    case Entries(m) => UnfoldMap(h, m, depth)
    case Elements(s) => UnfoldList(h, s, depth)
    case Target(t) => Unfold(h, t, depth)
  }

  function UnfoldMap(h: Heap, m: map<string, GoValue>, depth: nat): Option<Any>
    requires WellFormed(h) && ClosedContents(h, Entries(m))
    decreases depth, Entries(m), 0
  {
    if exists k :: k in m && Unfold(h, m[k], depth).None? then None
    else Some(MapV(map k | k in m :: Unfold(h, m[k], depth).value))
  }

  function UnfoldList(h: Heap, s: seq<GoValue>, depth: nat): Option<Any>
    requires WellFormed(h) && ClosedContents(h, Elements(s))
    decreases depth, s
  {
    if exists i :: 0 <= i < |s| && Unfold(h, s[i], depth).None? then None
    else Some(ListV(seq(|s|, i requires 0 <= i < |s| => Unfold(h, s[i], depth).value)))
  }

  lemma {:induction false} UnfoldHeld(h: Heap, v: GoValue, c: Container, depth: nat)
    requires WellFormed(h) && Closed(h, v) && Holds(v, c) && Unfold(h, v, depth).Some?
    ensures c in h && Unfold(h, Ref(c), depth).Some?
    decreases v
  {
    hide UnfoldContents, WellFormed;
    if v.ArrayOf? {
      var i :| 0 <= i < |v.elements| && Holds(v.elements[i], c);
      UnfoldHeld(h, v.elements[i], c, depth);
    }
  }

  lemma UnfoldNext(h: Heap, a: Container, b: Container, depth: nat)
    requires WellFormed(h) && a in h && Contains(h[a], b) && Unfold(h, Ref(a), depth).Some?
    ensures depth > 0 && b in h && Unfold(h, Ref(b), depth - 1).Some?
  {
    assert ClosedContents(h, h[a]);
    hide WellFormed;
    match h[a]
    case Entries(m) =>
      var k :| k in m && Holds(m[k], b);
      assert UnfoldMap(h, m, depth - 1).Some?;
      UnfoldHeld(h, m[k], b, depth - 1);
    case Elements(s) =>
      var i :| 0 <= i < |s| && Holds(s[i], b);
      assert UnfoldList(h, s, depth - 1).Some?;
      UnfoldHeld(h, s[i], b, depth - 1);
    case Target(t) => UnfoldHeld(h, t, b, depth - 1);
  }

  /** Along a chain the depth left goes down by one a step. */
  lemma {:induction false} UnfoldAlong(h: Heap, p: seq<Container>, depth: nat, i: nat)
    requires WellFormed(h) && Chain(h, p) && i < |p| && Unfold(h, Ref(p[0]), depth).Some?
    ensures i <= depth && Unfold(h, Ref(p[i]), depth - i).Some?
    decreases i
  {
    hide Unfold, WellFormed, Contains;
    if i > 0 {
      UnfoldAlong(h, p, depth, i - 1);
      UnfoldNext(h, p[i - 1], p[i], depth - (i - 1));
    }
  }

  /** What leads back to itself has no finite unfolding. */
  lemma {:induction false} LoopHasNoTree(h: Heap, p: seq<Container>, i: nat, depth: nat)
    requires WellFormed(h) && Chain(h, p) && i < |p| - 1 && p[i] == p[|p| - 1]
    ensures Unfold(h, Ref(p[i]), depth).None?
    decreases depth
  {
    hide Unfold, WellFormed, Contains;
    if Unfold(h, Ref(p[i]), depth).Some? {
      var q := p[i..];
      assert q[0] == p[i] && q[|q| - 1] == p[|p| - 1];
      forall j | 0 <= j < |q| - 1 ensures Contains(h[q[j]], q[j + 1]) {
        assert q[j] == p[i + j] && q[j + 1] == p[i + j + 1];
      }
      UnfoldAlong(h, q, depth, |q| - 1);
      LoopHasNoTree(h, p, i, depth - (|q| - 1));
    }
  }

  lemma {:induction false} HoldsItselfHasNoTree(h: Heap, v: GoValue, depth: nat)
    requires WellFormed(h) && Closed(h, v) && HoldsItself(h, v)
    ensures Unfold(h, v, depth).None?
  {
    hide Unfold, WellFormed, Contains;
    var p :| Chain(h, p) && Holds(v, p[0]) && Returns(p);
    var i :| 0 <= i < |p| - 1 && p[i] == p[|p| - 1];
    if Unfold(h, v, depth).Some? {
      UnfoldHeld(h, v, p[0], depth);
      UnfoldAlong(h, p, depth, i);
      LoopHasNoTree(h, p, i, depth - i);
    }
  }

  lemma WhereNoTree(h: Heap, c: Container, depth: nat) returns (u: GoValue)
    requires WellFormed(h) && c in h && UnfoldContents(h, h[c], depth).None?
    ensures Closed(h, u) && Unfold(h, u, depth).None? && forall d :: Holds(u, d) ==> Contains(h[c], d)
  {
    match h[c]
    case Entries(m) =>
      var k :| k in m && Unfold(h, m[k], depth).None?;
      u := m[k];
    case Elements(s) =>
      var i :| 0 <= i < |s| && Unfold(h, s[i], depth).None?;
      u := s[i];
    case Target(t) => u := t;
  }

  /** Depth enough for every container outside `seen`. */
  predicate Room(h: Heap, seen: set<Container>, depth: nat) {
    depth >= |h.Keys - seen|
  }

  /** With depth enough for every container outside `seen`, only what leads back has no unfolding. */
  lemma {:induction false} NoTreeChain(h: Heap, v: GoValue, seen: set<Container>, depth: nat)
    returns (p: seq<Container>)
    requires WellFormed(h) && Closed(h, v) && Room(h, seen, depth) && Unfold(h, v, depth).None?
    ensures p != [] && Chain(h, p) && Holds(v, p[0]) && (Returns(p) || p[|p| - 1] in seen)
    decreases depth, v, 1
  {
    hide *;
    if v.ArrayOf? {
      var i := TreelessElement(h, v.elements, depth);
      p := NoTreeChain(h, v.elements[i], seen, depth);
      HoldsElement(v.elements, i, p[0]);
    } else {
      var c := TreelessIsRef(h, v, depth);
      p := NoTreeRef(h, c, seen, depth);
    }
  }

  lemma {:induction false} NoTreeRef(h: Heap, c: Container, seen: set<Container>, depth: nat)
    returns (p: seq<Container>)
    requires WellFormed(h) && c in h && Closed(h, Ref(c)) && Room(h, seen, depth) && Unfold(h, Ref(c), depth).None?
    ensures p != [] && Chain(h, p) && p[0] == c && (Returns(p) || p[|p| - 1] in seen)
    decreases depth, Ref(c), 0
  {
    hide *;
    if c in seen {
      p := [c];
      LoneChain(h, c);
    } else {
      OneLess(h, seen, c, depth);
      UnfoldRef(h, c, depth);
      var u := WhereNoTree(h, c, depth - 1);
      var q := NoTreeChain(h, u, seen + {c}, depth - 1);
      p := ChainFrom(h, c, u, q, seen);
    }
  }

  lemma ChainFrom(h: Heap, c: Container, u: GoValue, q: seq<Container>, seen: set<Container>)
    returns (p: seq<Container>)
    requires c in h && q != [] && Chain(h, q) && Holds(u, q[0]) && forall d :: Holds(u, d) ==> Contains(h[c], d)
    requires Returns(q) || q[|q| - 1] in seen + {c}
    ensures p != [] && Chain(h, p) && p[0] == c && (Returns(p) || p[|p| - 1] in seen)
  {
    hide *;
    ChainMore(h, c, q);
    RepeatsMore(c, q);
    p := [c] + q;
  }

  lemma OneLess(h: Heap, seen: set<Container>, c: Container, depth: nat)
    requires c in h && c !in seen && Room(h, seen, depth)
    ensures depth > 0 && Room(h, seen + {c}, depth - 1)
  {
    Shrinks(h.Keys, seen, c);
  }

  lemma TreelessElement(h: Heap, elements: seq<GoValue>, depth: nat) returns (i: nat)
    requires WellFormed(h) && Closed(h, ArrayOf(elements)) && Unfold(h, ArrayOf(elements), depth).None?
    ensures i < |elements| && Closed(h, elements[i]) && Unfold(h, elements[i], depth).None?
  {
    hide WellFormed;
    i :| 0 <= i < |elements| && Unfold(h, elements[i], depth).None?;
  }

  lemma TreelessIsRef(h: Heap, v: GoValue, depth: nat) returns (c: Container)
    requires WellFormed(h) && Closed(h, v) && Unfold(h, v, depth).None? && !v.ArrayOf?
    ensures v == Ref(c) && c in h && Holds(v, c)
  {
    assert v.Ref?;
    c := v.c;
  }

  lemma AcyclicHasTree(h: Heap, v: GoValue)
    requires WellFormed(h) && Closed(h, v) && !HoldsItself(h, v)
    ensures Unfold(h, v, |h.Keys|).Some?
  {
    hide Unfold, WellFormed, Contains, Returns;
    assert h.Keys - {} == h.Keys;
    if Unfold(h, v, |h.Keys|).None? {
      var p := NoTreeChain(h, v, {}, |h.Keys|);
    }
  }

  /** A value has a finite unfolding exactly when it does not hold itself, and then within as many nested
      containers as the heap has. */
  lemma {:induction false} TreeExact(h: Heap, v: GoValue)
    requires WellFormed(h) && Closed(h, v)
    ensures HoldsItself(h, v) <==> forall depth: nat :: Unfold(h, v, depth).None?
    ensures HoldsItself(h, v) <==> Unfold(h, v, |h.Keys|).None?
  {
    hide Unfold, WellFormed, HoldsItself, Closed;
    if HoldsItself(h, v) {
      forall depth: nat ensures Unfold(h, v, depth).None? { HoldsItselfHasNoTree(h, v, depth); }
    } else {
      AcyclicHasTree(h, v);
    }
  }

  // ---- without the marker

  /** A walk without the marker is the encoding of the whole tree, shared containers written in full. */
  lemma {:induction false} UnmarkedIsWhole(lib: Library, h: Heap, v: GoValue, path: set<Key>, depth: nat)
    requires WellFormed(h) && Closed(h, v) && !Marked(Walk(lib, h, v, path)) && depth >= |HeapKeys(h) - path|
    ensures var tree := Unfold(h, v, depth);
            tree.Some? && Marshal(Walk(lib, h, v, path)) == Encode(lib, tree.value)
    decreases depth, v
  {
    match v
    case Leaf(x) =>
    case Floats(floats) => FloatsWhole(lib, floats);
    case ArrayOf(elements) => ListWhole(lib, h, elements, path, depth);
    case Ref(c) => ContainerWhole(lib, h, c, path, depth);
  }

  lemma FloatsWhole(lib: Library, floats: seq<Float>)
    requires !Marked(Items(FloatItems(lib, floats)))
    ensures Marshal(Items(FloatItems(lib, floats))) ==
            Encode(lib, ListV(seq(|floats|, i requires 0 <= i < |floats| => Flt(floats[i]))))
  {
    hide FloatNumber;
    var l := ListV(seq(|floats|, i requires 0 <= i < |floats| => Flt(floats[i])));
    assert Marshal(Items(FloatItems(lib, floats))).items == Encode(lib, l).items;
  }

  lemma {:induction false} ListWhole(lib: Library, h: Heap, s: seq<GoValue>, path: set<Key>, depth: nat)
    requires WellFormed(h) && ClosedContents(h, Elements(s)) && !Marked(Items(WalkList(lib, h, s, path)))
    requires depth >= |HeapKeys(h) - path|
    ensures var tree := UnfoldList(h, s, depth);
            tree.Some? && Marshal(Items(WalkList(lib, h, s, path))) == Encode(lib, tree.value)
    decreases depth, s
  {
    hide WellFormed, Walk, Unfold, Marshal, Encode;
    var w, d := WalkList(lib, h, s, path), depth;
    forall i | 0 <= i < |s|
      ensures Unfold(h, s[i], d).Some? && !Marked(w[i]) && Marshal(w[i]) == Encode(lib, Unfold(h, s[i], d).value)
    {
      UnmarkedIsWhole(lib, h, s[i], path, depth);
    }
    ListAssembled(lib, w, seq(|s|, i requires 0 <= i < |s| => Unfold(h, s[i], d).value));
  }

  lemma ListAssembled(lib: Library, w: seq<Walked>, t: seq<Any>)
    requires |w| == |t| && forall i :: 0 <= i < |w| ==> !Marked(w[i]) && Marshal(w[i]) == Encode(lib, t[i])
    ensures !Marked(Items(w)) && Marshal(Items(w)) == Encode(lib, ListV(t))
  {
    assert Marshal(Items(w)).items == Encode(lib, ListV(t)).items;
  }

  lemma MapAssembled(lib: Library, w: map<string, Walked>, t: map<string, Any>)
    requires w.Keys == t.Keys && forall k :: k in w ==> !Marked(w[k]) && Marshal(w[k]) == Encode(lib, t[k])
    ensures !Marked(Fields(w)) && Marshal(Fields(w)) == Encode(lib, MapV(t))
  {
    assert Marshal(Fields(w)).m == Encode(lib, MapV(t)).m;
  }

  lemma {:induction false} MapWhole(lib: Library, h: Heap, m: map<string, GoValue>, path: set<Key>, depth: nat)
    requires WellFormed(h) && ClosedContents(h, Entries(m)) && !Marked(Fields(WalkMap(lib, h, m, path)))
    requires depth >= |HeapKeys(h) - path|
    ensures var tree := UnfoldMap(h, m, depth);
            tree.Some? && Marshal(Fields(WalkMap(lib, h, m, path))) == Encode(lib, tree.value)
    decreases depth, Entries(m), 0
  {
    hide WellFormed, Walk, Unfold, UnfoldMap, Marshal, Encode, Marked, Closed, ClosedContents, WalkMap;
    var w, d := WalkMap(lib, h, m, path), depth;
    forall k | k in m
      ensures Closed(h, m[k]) && !Marked(w[k]) && Unfold(h, m[k], d).Some? &&
              Marshal(w[k]) == Encode(lib, Unfold(h, m[k], d).value)
    {
      EntryClosed(h, m, k);
      FieldUnmarked(w, k);
      UnmarkedIsWhole(lib, h, m[k], path, depth);
    }
    UnfoldedMap(h, m, d);
    MapAssembled(lib, w, UnfoldMap(h, m, d).value.m);
  }

  lemma FieldUnmarked(w: map<string, Walked>, k: string)
    requires !Marked(Fields(w)) && k in w
    ensures !Marked(w[k])
  {
  }

  lemma UnfoldedMap(h: Heap, m: map<string, GoValue>, depth: nat)
    requires WellFormed(h) && ClosedContents(h, Entries(m))
    requires forall k :: k in m ==> Unfold(h, m[k], depth).Some?
    ensures UnfoldMap(h, m, depth).Some? && UnfoldMap(h, m, depth).value.MapV?
    ensures var t := UnfoldMap(h, m, depth).value.m;
            t.Keys == m.Keys && forall k :: k in m ==> t[k] == Unfold(h, m[k], depth).value
  {
    hide Unfold, WellFormed;
  }

  lemma {:induction false} ContainerWhole(lib: Library, h: Heap, c: Container, path: set<Key>, depth: nat)
    requires WellFormed(h) && c in h && !Marked(Walk(lib, h, Ref(c), path)) && depth >= |HeapKeys(h) - path|
    ensures var tree := Unfold(h, Ref(c), depth);
            tree.Some? && Marshal(Walk(lib, h, Ref(c), path)) == Encode(lib, tree.value)
    decreases depth, Ref(c), 0
  {
    hide *;
    RoomLeft(lib, h, c, path, depth);
    UnfoldRef(h, c, depth);
    if Tracked(c) {
      InsideWhole(lib, h, h[c], path + {KeyOf(c)}, depth - 1);
    } else {
      EmptyWhole(lib, h, c, depth - 1);
    }
  }

  lemma UnfoldRef(h: Heap, c: Container, depth: nat)
    requires WellFormed(h) && c in h && depth > 0
    ensures Closed(h, Ref(c)) && ClosedContents(h, h[c])
    ensures Unfold(h, Ref(c), depth) == UnfoldContents(h, h[c], depth - 1)
  {
  }

  lemma {:induction false} InsideWhole(lib: Library, h: Heap, x: Contents, path: set<Key>, depth: nat)
    requires WellFormed(h) && ClosedContents(h, x) && !Marked(WalkInside(lib, h, x, path))
    requires depth >= |HeapKeys(h) - path|
    ensures var tree := UnfoldContents(h, x, depth);
            tree.Some? && Marshal(WalkInside(lib, h, x, path)) == Encode(lib, tree.value)
    decreases depth, x, 1
  {
    hide Walk, Marshal, Marked, WellFormed, Encode, HeapKeys, Unfold, UnfoldMap, UnfoldList, WalkMap, WalkList;
    match x
    case Entries(m) => MapWhole(lib, h, m, path, depth);
    case Elements(s) => ListWhole(lib, h, s, path, depth);
    case Target(t) => UnmarkedIsWhole(lib, h, t, path, depth);
  }

  /** What the walk gives inside a container. */
  function WalkInside(lib: Library, h: Heap, x: Contents, path: set<Key>): Walked
    requires WellFormed(h) && ClosedContents(h, x)
  {
    match x
    case Entries(m) => Fields(WalkMap(lib, h, m, path))
    case Elements(s) => Items(WalkList(lib, h, s, path))
    case Target(t) => Walk(lib, h, t, path)
  }

  /** An unmarked container is not on the path, and one more on it leaves room for what it holds. */
  lemma RoomLeft(lib: Library, h: Heap, c: Container, path: set<Key>, depth: nat)
    requires WellFormed(h) && c in h && !Marked(Walk(lib, h, Ref(c), path)) && depth >= |HeapKeys(h) - path|
    ensures KeyOf(c) !in path && depth > 0 && depth - 1 >= |HeapKeys(h) - (path + {KeyOf(c)})|
    ensures ClosedContents(h, h[c])
    ensures Walk(lib, h, Ref(c), path) ==
            if Tracked(c) then WalkInside(lib, h, h[c], path + {KeyOf(c)}) else Empty(h[c])
  {
    assert KeyOf(c) !in path && KeyOf(c) in HeapKeys(h);
    Shrinks(HeapKeys(h), path, KeyOf(c));
  }

  lemma EmptyWhole(lib: Library, h: Heap, c: Container, depth: nat)
    requires WellFormed(h) && c in h && !Tracked(c)
    ensures UnfoldContents(h, h[c], depth).Some? && !Marked(Empty(h[c]))
    ensures Marshal(Empty(h[c])) == Encode(lib, UnfoldContents(h, h[c], depth).value)
  {
    match h[c]
    case Entries(m) => assert m == map[];
    case Elements(s) => assert s == [];
  }

  lemma {:induction false} FewerKeys(h: Heap)
    ensures |HeapKeys(h)| <= |h.Keys|
  {
    KeysAtMost(h.Keys, HeapKeys(h));
  }

  lemma {:induction false} KeysAtMost(s: set<Container>, keys: set<Key>)
    requires keys == set c | c in s :: KeyOf(c)
    ensures |keys| <= |s|
  {
    hide KeyOf;
    if s != {} {
      var c :| c in s;
      var rest := set d | d in s - {c} :: KeyOf(d);
      KeysAtMost(s - {c}, rest);
      assert keys == rest + {KeyOf(c)};
    }
  }

  /** The output holds the marker exactly when a path from the value meets a key twice; otherwise it is the
      encoding of the whole tree, shared parts in full. */
  lemma {:induction false} WalkExact(lib: Library, h: Heap, v: GoValue)
    requires WellFormed(h) && Closed(h, v)
    ensures Marked(Walk(lib, h, v, {})) <==> MeetsKeyTwice(h, v)
    ensures !Marked(Walk(lib, h, v, {})) ==>
              var tree := Unfold(h, v, |h.Keys|);
              tree.Some? && Marshal(Walk(lib, h, v, {})) == Encode(lib, tree.value)
  {
    hide Walk, Unfold, WellFormed, Contains, Marked, Marshal, Repeats, Encode, HeapKeys;
    if Marked(Walk(lib, h, v, {})) {
      var p := MarkedChain(lib, h, v, {});
    } else {
      FewerKeys(h);
      assert HeapKeys(h) - {} == HeapKeys(h);
      UnmarkedIsWhole(lib, h, v, {}, |h.Keys|);
    }
    if MeetsKeyTwice(h, v) {
      var p :| Chain(h, p) && Holds(v, p[0]) && Repeats(p);
      RepeatIsMarked(lib, h, v, p);
    }
  }

  /** A value that holds itself is marked; one that does not is marked exactly when a path from it meets
      two different containers of one key. So the marker tells the values that hold themselves exactly
      when those that meet such containers do hold themselves. */
  lemma {:induction false} MarkerExact(lib: Library, h: Heap, v: GoValue)
    requires WellFormed(h) && Closed(h, v)
    ensures Marked(Walk(lib, h, v, {})) <==> HoldsItself(h, v) || Confuses(h, v)
    ensures (Marked(Walk(lib, h, v, {})) <==> HoldsItself(h, v)) <==> (Confuses(h, v) ==> HoldsItself(h, v))
  {
    hide Walk, WellFormed, Marked, Chain;
    WalkExact(lib, h, v);
    TwiceOrTwo(h, v);
  }

  lemma TwiceOrTwo(h: Heap, v: GoValue)
    ensures MeetsKeyTwice(h, v) <==> HoldsItself(h, v) || Confuses(h, v)
  {
    hide Contains, Holds;
    if MeetsKeyTwice(h, v) {
      var p :| Chain(h, p) && Holds(v, p[0]) && Repeats(p);
      RepeatKinds(p);
    }
    if HoldsItself(h, v) {
      var p :| Chain(h, p) && Holds(v, p[0]) && Returns(p);
      RepeatKinds(p);
    }
    if Confuses(h, v) {
      var p :| Chain(h, p) && Holds(v, p[0]) && Mistaken(p);
      RepeatKinds(p);
    }
    hide Repeats, Returns, Mistaken;
  }

  lemma RepeatKinds(p: seq<Container>)
    ensures Repeats(p) <==> Returns(p) || Mistaken(p)
  {
    hide KeyOf;
  }

  /** Where no two containers have one key, the marker is exactly for values that hold themselves, which
      are those without a finite unfolding. */
  lemma OneKeyEach(lib: Library, h: Heap, v: GoValue)
    requires WellFormed(h) && Closed(h, v)
    requires forall c, d :: c in h && d in h && KeyOf(c) == KeyOf(d) ==> c == d
    ensures Marked(Walk(lib, h, v, {})) <==> HoldsItself(h, v)
    ensures Marked(Walk(lib, h, v, {})) <==> forall depth: nat :: Unfold(h, v, depth).None?
  {
    TreeExact(h, v);
    MarkerExact(lib, h, v);
    hide Walk, WellFormed, Marked, Unfold, Contains, Holds, KeyOf, HoldsItself;
  }

  // ---- a marker without a cycle

  /** A pointer to an array, and one to its first element, which the array holds: arr[1] = &arr[0]. */
  const WHOLE := Container(PointerKind, 8, 0, "*[2]any")
  const FIRST := Container(PointerKind, 8, 0, "*any")

  function ArrayHeap(x: Any): Heap {
    map[WHOLE := Target(ArrayOf([Leaf(x), Ref(FIRST)])), FIRST := Target(Leaf(x))]
  }

  /** The walker marks the pointer to the array, though it does not hold itself and stands for [x, x]. */
  lemma {:induction false} FalseMarker(lib: Library, x: Any)
    requires Scalar(x)
    ensures var h := ArrayHeap(x);
            && WellFormed(h) && Marked(Walk(lib, h, Ref(WHOLE), {})) && !HoldsItself(h, Ref(WHOLE))
            && Unfold(h, Ref(WHOLE), 2) == Some(ListV([x, x]))
  {
    var h := ArrayHeap(x);
    ArrayHeapWhole(x);
    ArrayTree(x);
    hide Walk, Unfold, WellFormed, ArrayHeap;
    TreeExact(h, Ref(WHOLE));
    ArrayConfuses(x);
    MarkerExact(lib, h, Ref(WHOLE));
  }

  lemma ArrayHeapWhole(x: Any)
    requires Scalar(x)
    ensures WellFormed(ArrayHeap(x)) && WHOLE in ArrayHeap(x)
  {
    var h := ArrayHeap(x);
    assert Closed(h, Leaf(x)) && Closed(h, Ref(FIRST));
    assert Closed(h, ArrayOf([Leaf(x), Ref(FIRST)]));
  }

  lemma ArrayTree(x: Any)
    requires Scalar(x) && WellFormed(ArrayHeap(x))
    ensures Unfold(ArrayHeap(x), Ref(WHOLE), 2) == Some(ListV([x, x]))
  {
    var h, s := ArrayHeap(x), [Leaf(x), Ref(FIRST)];
    assert Unfold(h, s[0], 1) == Some(x);
    assert Unfold(h, s[1], 1) == Some(x);
    var tree := UnfoldList(h, s, 1);
    assert tree.Some? && tree.value.items == [x, x];
  }

  lemma ArrayConfuses(x: Any)
    ensures Confuses(ArrayHeap(x), Ref(WHOLE))
  {
    var h, p := ArrayHeap(x), [WHOLE, FIRST];
    var s := [Leaf(x), Ref(FIRST)];
    assert Holds(s[1], FIRST);
    assert Holds(ArrayOf(s), FIRST);
    assert Chain(h, p) && Holds(Ref(WHOLE), p[0]);
    assert KeyOf(p[0]) == KeyOf(p[1]) && p[0] != p[1];
    assert Mistaken(p);
  }

  /** Containers are one to the walker exactly when they are of one kind at one place, maps and slices also of one
      length; the type does not count. */
  lemma KeyExact(c: Container, d: Container)
    ensures KeyOf(c) == KeyOf(d) <==>
            c.kind == d.kind && c.ptr == d.ptr && (c.kind == MapKind || c.kind == SliceKind ==> c.len == d.len)
    ensures Tracked(c) <==> !((c.kind == MapKind || c.kind == SliceKind) && c.len == 0)
  {
  }

  /** A parameter the walker does not mark, however its parts are shared, is read back as its tree exactly
      when the tags can carry the tree. */
  lemma {:induction false} ParameterComesBack(lib: Library, h: Heap, v: GoValue)
    requires Lawful(lib) && WellFormed(h) && Closed(h, v) && !HoldsItself(h, v) && !Confuses(h, v)
    ensures var tree := Unfold(h, v, |h.Keys|);
            && tree.Some? && !Marked(Walk(lib, h, v, {}))
            && (Possible(lib, tree.value) ==>
                  (ComesBack(lib, tree.value, Decode(lib, Marshal(Walk(lib, h, v, {})))) <==> Carried(lib, tree.value)))
  {
    hide *;
    WalkExact(lib, h, v);
    MarkerExact(lib, h, v);
    var tree := Unfold(h, v, |h.Keys|).value;
    if Possible(lib, tree) { DecodeEncoded(lib, tree); }
  }
}
