/** The parameter walker of crates/bindings/go/floats.go over a heap whose values may hold themselves. */
module Walker {
  import opened Options
  import opened Codec

  datatype Kind = MapKind | SliceKind | PointerKind

  /** A container: a map or slice by where it is and its length, a pointer by where it points, each with
      its Go type. A pointer to an array and one to its first element point to the same place. */
  datatype Container = Container(kind: Kind, ptr: nat, len: nat, goType: string)

  /** What the walker keeps of a container. */
  datatype Key = Key(kind: Kind, ptr: nat, len: nat)

  function KeyOf(c: Container): Key {
    Key(c.kind, c.ptr, if c.kind == PointerKind then 0 else c.len)
  }

  /** A Go value: a scalar, a slice of floats, an array (held in place), or a reference to a container. */
  datatype GoValue =
    | Leaf(value: Any)
    | Floats(floats: seq<Float>)
    | ArrayOf(elements: seq<GoValue>)
    | Ref(c: Container)

  datatype Contents =
    | Entries(entries: map<string, GoValue>)
    | Elements(elements: seq<GoValue>)
    | Target(target: GoValue)

  type Heap = map<Container, Contents>

  function HeapKeys(h: Heap): set<Key> {
    set c | c in h :: KeyOf(c)
  }

  predicate Scalar(v: Any) {
    !v.ListV? && !v.MapV?
  }

  /** A value whose references are all in the heap. */
  predicate Closed(h: Heap, v: GoValue) {
    match v
    case Leaf(x) => Scalar(x)
    case Floats(_) => true
    case ArrayOf(elements) => forall i :: 0 <= i < |elements| ==> Closed(h, elements[i])
    case Ref(c) => c in h
  }

  predicate ClosedContents(h: Heap, x: Contents) {
    match x
    case Entries(m) => forall k :: k in m ==> Closed(h, m[k])
    case Elements(s) => forall i :: 0 <= i < |s| ==> Closed(h, s[i])
    case Target(v) => Closed(h, v)
  }

  /** Each container holds what is said of it: its kind, its length, and references into the heap. */
  predicate WellFormed(h: Heap) {
    forall c :: c in h ==>
      && ClosedContents(h, h[c])
      && match h[c]
         case Entries(m) => c.kind == MapKind && c.len == |m|
         case Elements(s) => c.kind == SliceKind && c.len == |s|
         case Target(_) => c.kind == PointerKind
  }

  /** Empty maps and slices hold nothing and are not tracked. */
  predicate Tracked(c: Container) {
    c.kind == PointerKind || c.len != 0
  }

  /** What the walker gives: JSON, or the marker json.Marshal fails on. */
  datatype Walked =
    | Cycle
    | Plain(value: Any)
    | Items(items: seq<Walked>)
    | Fields(fields: map<string, Walked>)

  function FloatItems(lib: Library, floats: seq<Float>): seq<Walked> {
    seq(|floats|, i requires 0 <= i < |floats| => Plain(FloatNumber(lib, floats[i])))
  }

  /** The walk of v with containers of the keys in `path` open around it. */
  function Walk(lib: Library, h: Heap, v: GoValue, path: set<Key>): Walked
    requires WellFormed(h) && Closed(h, v)
    decreases |HeapKeys(h) - path|, v
  {
    match v
    case Leaf(x) => Plain(Encode(lib, x))
    case Floats(floats) => Items(FloatItems(lib, floats))
    case ArrayOf(elements) => Items(WalkList(lib, h, elements, path))
    case Ref(c) =>
      var key := KeyOf(c);
      if key in path then Cycle
      else if !Tracked(c) then Empty(h[c])
      else
        Shrinks(HeapKeys(h), path, key);
        match h[c]
        case Entries(m) => Fields(WalkMap(lib, h, m, path + {key}))
        case Elements(s) => Items(WalkList(lib, h, s, path + {key}))
        case Target(t) => Walk(lib, h, t, path + {key})
  }

  /** A container that is not tracked is empty. */
  function Empty(x: Contents): Walked {
    if x.Entries? then Fields(map[]) else Items([])
  }

  function WalkList(lib: Library, h: Heap, s: seq<GoValue>, path: set<Key>): (r: seq<Walked>)
    requires WellFormed(h) && ClosedContents(h, Elements(s))
    ensures |r| == |s| && forall i :: 0 <= i < |s| ==> r[i] == Walk(lib, h, s[i], path)
    decreases |HeapKeys(h) - path|, s
  {
    seq(|s|, i requires 0 <= i < |s| => Walk(lib, h, s[i], path))
  }

  function WalkMap(lib: Library, h: Heap, m: map<string, GoValue>, path: set<Key>): (r: map<string, Walked>)
    requires WellFormed(h) && ClosedContents(h, Entries(m))
    ensures r.Keys == m.Keys && forall k :: k in m ==> r[k] == Walk(lib, h, m[k], path)
    decreases |HeapKeys(h) - path|, Entries(m)
  {
    map k | k in m :: Walk(lib, h, m[k], path)
  }

  lemma Shrinks<T>(keys: set<T>, path: set<T>, key: T)
    requires key in keys && key !in path
    ensures |keys - (path + {key})| == |keys - path| - 1
  {
    assert keys - (path + {key}) == (keys - path) - {key};
  }

  /** walker: the keys of the containers on the path from the root to the value it is at. */
  class PathWalker {
    var path: set<Key>

    constructor ()
      ensures path == {}
    {
      path := {};
    }

    /** Only keys of tracked containers are ever on the path. */
    ghost predicate Valid()
      reads this
    {
      forall key :: key in path ==> key.kind == PointerKind || key.len != 0
    }

    /** enter: marks the container's key as on the path, or reports that it already is. */
    method Enter(c: Container) returns (entered: bool)
      requires Valid()
      modifies this
      ensures Valid() && entered == (KeyOf(c) !in old(path))
      ensures path == if entered && Tracked(c) then old(path) + {KeyOf(c)} else old(path)
    {
      if !Tracked(c) { return true; }
      if KeyOf(c) in path { return false; }
      path := path + {KeyOf(c)};
      return true;
    }

    /** leave. */
    method Leave(c: Container)
      requires Valid()
      modifies this
      ensures Valid() && path == old(path) - {KeyOf(c)}
    {
      path := path - {KeyOf(c)};
    }

    /** value and typedContainer: the walk, with the path left as it was found. */
    method Value(lib: Library, h: Heap, v: GoValue) returns (w: Walked)
      requires Valid() && WellFormed(h) && Closed(h, v)
      modifies this
      ensures Valid() && path == old(path) && w == Walk(lib, h, v, old(path))
      decreases |HeapKeys(h) - path|, v
    {
      match v {
        case Leaf(x) => w := Plain(Encode(lib, x));
        case Floats(floats) => w := Items(FloatItems(lib, floats));
        case ArrayOf(elements) =>
          var items := ListValues(lib, h, elements);
          w := Items(items);
        case Ref(c) =>
          var entered := Enter(c);
          if !entered { return Cycle; }
          Shrinks(HeapKeys(h), old(path), KeyOf(c));
          if !Tracked(c) {
            w := Empty(h[c]);
          } else {
            w := Inside(lib, h, c);
          }
          Leave(c);
          assert path == old(path);
      }
    }

    /** What a container on the path holds. */
    method Inside(lib: Library, h: Heap, c: Container) returns (w: Walked)
      requires Valid() && WellFormed(h) && c in h && KeyOf(c) in path && Tracked(c)
      modifies this
      ensures Valid() && path == old(path) && w == Walk(lib, h, Ref(c), old(path) - {KeyOf(c)})
      decreases |HeapKeys(h) - path|, h[c]
    {
      ghost var outside := path - {KeyOf(c)};
      assert outside + {KeyOf(c)} == path;
      match h[c] {
        case Entries(m) =>
          var fields := MapValues(lib, h, m);
          w := Fields(fields);
        case Elements(s) =>
          var items := ListValues(lib, h, s);
          w := Items(items);
        case Target(t) => w := Value(lib, h, t);
      }
    }

    /** elements, and the loop over a slice: walked items in order. */
    method ListValues(lib: Library, h: Heap, s: seq<GoValue>) returns (items: seq<Walked>)
      requires Valid() && WellFormed(h) && ClosedContents(h, Elements(s))
      modifies this
      ensures Valid() && path == old(path) && items == WalkList(lib, h, s, old(path))
      decreases |HeapKeys(h) - path|, s
    {
      hide *;
      ghost var spec := WalkList(lib, h, s, path);
      items := [];
      for i := 0 to |s|
        invariant Valid() && path == old(path) && items == spec[..i]
      {
        ElementClosed(h, s, i);
        var e := Value(lib, h, s[i]);
        items := items + [e];
        assert spec[..i + 1] == spec[..i] + [spec[i]];
      }
      assert spec[..|s|] == spec;
    }

    /** The loop over a map, in whatever order its keys come. */
    method MapValues(lib: Library, h: Heap, m: map<string, GoValue>) returns (fields: map<string, Walked>)
      requires Valid() && WellFormed(h) && ClosedContents(h, Entries(m))
      modifies this
      ensures Valid() && path == old(path) && fields == WalkMap(lib, h, m, old(path))
      decreases |HeapKeys(h) - path|, Entries(m), 0
    {
      hide *;
      ghost var spec := WalkMap(lib, h, m, path);
      fields := map[];
      var todo := m.Keys;
      while todo != {}
        invariant Valid() && path == old(path) && todo <= m.Keys && fields.Keys <= m.Keys
        invariant forall k :: k in m && k !in todo ==> k in fields && fields[k] == spec[k]
        decreases |todo|
      {
        var k :| k in todo;
        EntryClosed(h, m, k);
        var e := Value(lib, h, m[k]);
        fields := fields[k := e];
        todo := todo - {k};
      }
    }
  }

  lemma ElementClosed(h: Heap, s: seq<GoValue>, i: nat)
    requires ClosedContents(h, Elements(s)) && i < |s|
    ensures Closed(h, s[i])
  {
  }

  lemma EntryClosed(h: Heap, m: map<string, GoValue>, k: string)
    requires ClosedContents(h, Entries(m)) && k in m
    ensures Closed(h, m[k])
  {
  }
}
