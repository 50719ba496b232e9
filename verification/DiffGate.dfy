/** The release gate of scripts/difftest/difftest.py: the canonical form of a result and the exit code of
    compare. */
module DiffGate {
  import opened Options
  import opened ResultText

  /** A result as a run recorded it. */
  datatype Result =
    | Failed(error: Value)
    | Boolean(value: Value)
    | Rows(columns: Value, ordered: bool, rows: seq<Value>)

  ghost predicate WellFormedResult(r: Result) {
    match r
    case Failed(error) => WellFormed(error)
    case Boolean(value) => WellFormed(value)
    case Rows(columns, _, rows) => WellFormed(columns) && AllWellFormed(rows)
  }

  // ---- the order of texts

  /** Python compares strings character by character. */
  predicate Le(a: string, b: string) {
    if a == "" then true
    else if b == "" then false
    else if a[0] != b[0] then a[0] < b[0]
    else Le(a[1..], b[1..])
  }

  /** That is the order of dictionaries: a prefix first, and otherwise the first difference decides. */
  ghost predicate Before(a: string, b: string, i: nat) {
    i < |a| && i < |b| && a[..i] == b[..i] && a[i] < b[i]
  }

  lemma {:induction false} LeExact(a: string, b: string)
    ensures Le(a, b) <==> a <= b || exists i: nat :: Before(a, b, i)
  {
    if a != "" && b != "" {
      if a[0] == b[0] {
        LeExact(a[1..], b[1..]);
        assert a <= b <==> a[1..] <= b[1..] by { assert a == [a[0]] + a[1..] && b == [b[0]] + b[1..]; }
        BeforeTail(a, b);
      } else if a[0] < b[0] {
        assert Before(a, b, 0);
      } else {
        forall i: nat ensures !Before(a, b, i) { NotBefore(a, b, i); }
      }
    }
  }

  lemma NotBefore(a: string, b: string, i: nat)
    requires a != "" && b != "" && b[0] < a[0]
    ensures !Before(a, b, i)
  {
    if 0 < i < |a| && i < |b| { assert a[..i][0] == a[0] && b[..i][0] == b[0]; }
  }

  lemma BeforeTail(a: string, b: string)
    requires a != "" && b != "" && a[0] == b[0]
    ensures (exists i: nat :: Before(a, b, i)) <==> exists i: nat :: Before(a[1..], b[1..], i)
  {
    if i: nat :| Before(a, b, i) {
      assert i > 0;
      assert a[1..][..i - 1] == a[..i][1..] && b[1..][..i - 1] == b[..i][1..];
      assert Before(a[1..], b[1..], i - 1);
    }
    if i: nat :| Before(a[1..], b[1..], i) {
      assert a[..i + 1] == [a[0]] + a[1..][..i] && b[..i + 1] == [b[0]] + b[1..][..i];
      assert Before(a, b, i + 1);
    }
  }

  lemma {:induction false} LeTotal(a: string, b: string)
    ensures Le(a, b) || Le(b, a)
    ensures Le(a, b) && Le(b, a) ==> a == b
  {
    if a != "" && b != "" && a[0] == b[0] {
      LeTotal(a[1..], b[1..]);
      assert a == [a[0]] + a[1..] && b == [b[0]] + b[1..];
    }
  }

  lemma {:induction false} LeTrans(a: string, b: string, c: string)
    requires Le(a, b) && Le(b, c)
    ensures Le(a, c)
  {
    if a != "" && a[0] == b[0] == c[0] { LeTrans(a[1..], b[1..], c[1..]); }
  }

  // ---- sorting by text

  function Insert(escape: Escape, row: Value, rows: seq<Value>): seq<Value> {
    if rows == [] || Le(Text(escape, row), Text(escape, rows[0])) then [row] + rows
    else [rows[0]] + Insert(escape, row, rows[1..])
  }

  /** sorted with the text as key: stable. */
  function Sort(escape: Escape, rows: seq<Value>): seq<Value> {
    if rows == [] then [] else Insert(escape, rows[0], Sort(escape, rows[1..]))
  }

  predicate Ascending(ts: seq<string>) {
    |ts| <= 1 || (Le(ts[0], ts[1]) && Ascending(ts[1..]))
  }

  lemma {:induction false} FirstIsLeast(ts: seq<string>, t: string)
    requires ts != [] && Ascending(ts) && t in ts
    ensures Le(ts[0], t)
  {
    LeTotal(t, t);
    if t != ts[0] {
      assert t in ts[1..];
      FirstIsLeast(ts[1..], t);
      LeTrans(ts[0], ts[1], t);
    }
  }

  lemma TailMultiset(a: seq<string>)
    requires a != []
    ensures multiset(a[1..]) == multiset(a) - multiset{a[0]} && a == [a[0]] + a[1..]
  {
    assert a == [a[0]] + a[1..];
  }

  /** Ascending texts are determined by how often each occurs. */
  lemma {:induction false} AscendingUnique(a: seq<string>, b: seq<string>)
    requires Ascending(a) && Ascending(b) && multiset(a) == multiset(b)
    ensures a == b
  {
    assert |multiset(a)| == |a| && |multiset(b)| == |b|;
    hide Le;
    if a != [] {
      assert a[0] in multiset(b) && b[0] in multiset(a);
      FirstIsLeast(a, b[0]);
      FirstIsLeast(b, a[0]);
      LeTotal(a[0], b[0]);
      TailMultiset(a);
      TailMultiset(b);
      AscendingUnique(a[1..], b[1..]);
    }
  }

  lemma {:induction false} InsertTexts(escape: Escape, row: Value, rows: seq<Value>)
    requires Ascending(Texts(escape, rows))
    ensures Ascending(Texts(escape, Insert(escape, row, rows)))
    ensures multiset(Texts(escape, Insert(escape, row, rows))) ==
            multiset{Text(escape, row)} + multiset(Texts(escape, rows))
    ensures var all := Insert(escape, row, rows);
            && all != []
            && (all[0] == row || (rows != [] && all[0] == rows[0] && Le(Text(escape, rows[0]), Text(escape, row))))
  {
    hide Text, Le;
    var all := Insert(escape, row, rows);
    if rows == [] || Le(Text(escape, row), Text(escape, rows[0])) {
      assert all[1..] == rows;
      TextsCons(escape, all);
      assert Texts(escape, all)[1..] == Texts(escape, rows);
    } else {
      var more := Insert(escape, row, rows[1..]);
      TextsCons(escape, rows);
      assert Texts(escape, rows)[1..] == Texts(escape, rows[1..]);
      InsertTexts(escape, row, rows[1..]);
      assert all == [rows[0]] + more && all[1..] == more;
      TextsCons(escape, all);
      LeTotal(Text(escape, row), Text(escape, rows[0]));
      assert Texts(escape, all)[1..] == Texts(escape, more);
    }
  }

  /** Sorting keeps the rows and puts their texts in order. */
  lemma {:induction false} SortTexts(escape: Escape, rows: seq<Value>)
    ensures Ascending(Texts(escape, Sort(escape, rows)))
    ensures multiset(Texts(escape, Sort(escape, rows))) == multiset(Texts(escape, rows))
  {
    if rows != [] {
      SortTexts(escape, rows[1..]);
      InsertTexts(escape, rows[0], Sort(escape, rows[1..]));
      TextsCons(escape, rows);
      hide Insert, Ascending, Text;
    }
  }

  lemma {:induction false} InsertWellFormed(escape: Escape, row: Value, rows: seq<Value>)
    requires WellFormed(row) && AllWellFormed(rows)
    ensures AllWellFormed(Insert(escape, row, rows))
  {
    hide WellFormed, Le, Text;
    if rows != [] { InsertWellFormed(escape, row, rows[1..]); }
  }

  lemma {:induction false} SortWellFormed(escape: Escape, rows: seq<Value>)
    requires AllWellFormed(rows)
    ensures AllWellFormed(Sort(escape, rows))
  {
    if rows != [] {
      SortWellFormed(escape, rows[1..]);
      InsertWellFormed(escape, rows[0], Sort(escape, rows[1..]));
    }
  }

  // ---- the canonical form

  function CanonicalRows(escape: Escape, r: Result): seq<Value>
    requires r.Rows?
  {
    if r.ordered then r.rows else Sort(escape, r.rows)
  }

  function Canonical(escape: Escape, r: Result): Value {
    match r
    case Failed(error) => List([Str("error"), error])
    case Boolean(value) => List([Str("boolean"), value])
    case Rows(columns, _, _) => List([Str("rows"), columns, List(CanonicalRows(escape, r))])
  }

  function CanonicalText(escape: Escape, r: Result): string {
    Text(escape, Canonical(escape, r))
  }

  /** What two results share when they count as equal. */
  predicate Same(escape: Escape, a: Result, b: Result) {
    match a
    case Failed(error) => b.Failed? && Text(escape, error) == Text(escape, b.error)
    case Boolean(value) => b.Boolean? && Text(escape, value) == Text(escape, b.value)
    case Rows(columns, _, _) =>
      && b.Rows? && Text(escape, columns) == Text(escape, b.columns)
      && Texts(escape, CanonicalRows(escape, a)) == Texts(escape, CanonicalRows(escape, b))
  }

  lemma KindText(escape: Escape, name: string)
    requires Lawful(escape) && name != "" && 'a' <= name[0] <= 'z'
    ensures |Text(escape, Str(name))| > 1 && Text(escape, Str(name))[1] == name[0]
  {
    assert escape(name[0]) == [name[0]];
  }

  lemma PairTexts(escape: Escape, a: Value, b: Value, c: Value, d: Value)
    ensures Texts(escape, [a, b]) == Texts(escape, [c, d]) <==>
            Text(escape, a) == Text(escape, c) && Text(escape, b) == Text(escape, d)
  {
    hide Text;
    var v, w := Texts(escape, [a, b]), Texts(escape, [c, d]);
    assert v == [Text(escape, a), Text(escape, b)] && w == [Text(escape, c), Text(escape, d)];
    assert v == w ==> v[0] == w[0] && v[1] == w[1];
  }

  lemma TripleTexts(escape: Escape, a: Value, b: Value, c: Value, d: Value)
    ensures var head := Str("rows");
            Texts(escape, [head, a, b]) == Texts(escape, [head, c, d]) <==>
            Text(escape, a) == Text(escape, c) && Text(escape, b) == Text(escape, d)
  {
    hide Text;
    var head := Str("rows");
    var v, w := Texts(escape, [head, a, b]), Texts(escape, [head, c, d]);
    assert v == [Text(escape, head), Text(escape, a), Text(escape, b)];
    assert w == [Text(escape, head), Text(escape, c), Text(escape, d)];
    assert v == w ==> v[1] == w[1] && v[2] == w[2];
  }

  lemma CanonicalWellFormed(escape: Escape, r: Result)
    requires WellFormedResult(r)
    ensures AllWellFormed(Canonical(escape, r).items)
    ensures r.Rows? ==> AllWellFormed(CanonicalRows(escape, r))
  {
    if r.Rows? { SortWellFormed(escape, r.rows); }
  }

  /** Two results have equal canonical texts exactly when they count as equal. */
  lemma CanonicalExact(escape: Escape, a: Result, b: Result)
    requires Lawful(escape) && WellFormedResult(a) && WellFormedResult(b)
    ensures CanonicalText(escape, a) == CanonicalText(escape, b) <==> Same(escape, a, b)
  {
    CanonicalWellFormed(escape, a);
    CanonicalWellFormed(escape, b);
    ListExact(escape, Canonical(escape, a).items, Canonical(escape, b).items);
    ItemsSame(escape, a, b);
    hide Same, Text, Texts, Lawful, WellFormedResult, AllWellFormed;
  }

  lemma ItemsSame(escape: Escape, a: Result, b: Result)
    requires Lawful(escape)
    requires a.Rows? ==> AllWellFormed(CanonicalRows(escape, a))
    requires b.Rows? ==> AllWellFormed(CanonicalRows(escape, b))
    ensures Texts(escape, Canonical(escape, a).items) == Texts(escape, Canonical(escape, b).items) <==>
            Same(escape, a, b)
  {
    if a.Rows? && b.Rows? {
      ListExact(escape, CanonicalRows(escape, a), CanonicalRows(escape, b));
      TripleTexts(escape, a.columns, List(CanonicalRows(escape, a)), b.columns, List(CanonicalRows(escape, b)));
      hide CanonicalRows, Text, Texts, Lawful, AllWellFormed;
    } else if !a.Rows? && !b.Rows? {
      PairsSame(escape, a, b);
    }
  }

  lemma PairsSame(escape: Escape, a: Result, b: Result)
    requires Lawful(escape) && !a.Rows? && !b.Rows?
    ensures Texts(escape, Canonical(escape, a).items) == Texts(escape, Canonical(escape, b).items) <==>
            Same(escape, a, b)
  {
    KindText(escape, "error");
    KindText(escape, "boolean");
    hide Text, Texts, Lawful;
    var v, w := Canonical(escape, a).items, Canonical(escape, b).items;
    PairTexts(escape, v[0], v[1], w[0], w[1]);
    assert v == [v[0], v[1]] && w == [w[0], w[1]];
  }

  /** The canonical text itself: the kind, and what counts of a result of that kind. */
  lemma CanonicalForm(escape: Escape, r: Result)
    requires Lawful(escape)
    ensures r.Failed? ==> CanonicalText(escape, r) == "[\"error\", " + Text(escape, r.error) + "]"
    ensures r.Boolean? ==> CanonicalText(escape, r) == "[\"boolean\", " + Text(escape, r.value) + "]"
    ensures r.Rows? ==> CanonicalText(escape, r) ==
                        "[\"rows\", " + Text(escape, r.columns) + ", " +
                        Text(escape, List(CanonicalRows(escape, r))) + "]"
  {
    CanonicalTexts(escape, r);
    hide Text, CanonicalRows, CanonicalText;
    if r.Failed? {
      ErrorText(escape, r.error);
    } else if r.Boolean? {
      BooleanText(escape, r.value);
    } else {
      RowsText(escape, r.columns, List(CanonicalRows(escape, r)));
    }
  }

  lemma ErrorText(escape: Escape, v: Value)
    requires Lawful(escape)
    ensures Text(escape, List([Str("error"), v])) == "[\"error\", " + Text(escape, v) + "]"
  {
    NameText(escape, "error");
    hide Text, Lawful;
    TwoText(escape, "error", v);
    assert "[" + ("\"" + "error" + "\"") + ", " == "[\"error\", ";
  }

  lemma BooleanText(escape: Escape, v: Value)
    requires Lawful(escape)
    ensures Text(escape, List([Str("boolean"), v])) == "[\"boolean\", " + Text(escape, v) + "]"
  {
    NameText(escape, "boolean");
    hide Text, Lawful;
    TwoText(escape, "boolean", v);
    assert "[" + ("\"" + "boolean" + "\"") + ", " == "[\"boolean\", ";
  }

  lemma RowsText(escape: Escape, v: Value, w: Value)
    requires Lawful(escape)
    ensures Text(escape, List([Str("rows"), v, w])) ==
            "[\"rows\", " + Text(escape, v) + ", " + Text(escape, w) + "]"
  {
    NameText(escape, "rows");
    hide Text, Lawful;
    ThreeText(escape, "rows", v, w);
    assert "[" + ("\"" + "rows" + "\"") + ", " == "[\"rows\", ";
  }

  lemma CanonicalTexts(escape: Escape, r: Result)
    ensures r.Failed? ==> CanonicalText(escape, r) == Text(escape, List([Str("error"), r.error]))
    ensures r.Boolean? ==> CanonicalText(escape, r) == Text(escape, List([Str("boolean"), r.value]))
    ensures r.Rows? ==> CanonicalText(escape, r) ==
                        Text(escape, List([Str("rows"), r.columns, List(CanonicalRows(escape, r))]))
  {
    hide Text, CanonicalRows;
  }

  lemma NameText(escape: Escape, name: string)
    requires Lawful(escape) && forall i :: 0 <= i < |name| ==> 'a' <= name[i] <= 'z'
    ensures Text(escape, Str(name)) == "\"" + name + "\""
  {
    NameChars(escape, name, "\"");
    assert "\"" + "" == "\"";
    hide WriteChars;
  }

  lemma {:induction false} NameChars(escape: Escape, name: string, k: string)
    requires Lawful(escape) && forall i :: 0 <= i < |name| ==> 'a' <= name[i] <= 'z'
    ensures WriteChars(escape, name, k) == name + k
  {
    if name == "" {
      assert name + k == k;
    } else {
      NameChars(escape, name[1..], k);
      LetterPlain(escape, name[0]);
      hide Lawful;
      assert [name[0]] + (name[1..] + k) == name + k;
    }
  }

  lemma LetterPlain(escape: Escape, c: char)
    requires Lawful(escape) && 'a' <= c <= 'z'
    ensures escape(c) == [c]
  {
    hide LawfulEscape;
  }

  lemma TwoText(escape: Escape, name: string, v: Value)
    ensures Text(escape, List([Str(name), v])) == "[" + Text(escape, Str(name)) + ", " + Text(escape, v) + "]"
  {
    hide Text;
    ListText(escape, [Str(name), v]);
    assert [Str(name), v][1..] == [v];
    ListText(escape, [v]);
    assert ("[" + Text(escape, v) + "]")[1..] == Text(escape, v) + "]";
  }

  lemma ThreeText(escape: Escape, name: string, v: Value, w: Value)
    ensures Text(escape, List([Str(name), v, w])) ==
            "[" + Text(escape, Str(name)) + ", " + Text(escape, v) + ", " + Text(escape, w) + "]"
  {
    hide Text;
    var t, u := Text(escape, v), Text(escape, w);
    ListText(escape, [Str(name), v, w]);
    ListText(escape, [v, w]);
    ListText(escape, [w]);
    assert [Str(name), v, w][1..] == [v, w] && [v, w][1..] == [w];
    assert ("[" + u + "]")[1..] == u + "]";
    assert ("[" + t + (", " + (u + "]")))[1..] == t + ", " + u + "]";
  }

  /** Results with the same columns count as equal exactly when, both ordered, they are equal row by
      row, and otherwise when their rows are equal as multisets of texts and an ordered one among them,
      as after a change of the case's flag, has its texts in ascending order. */
  lemma RowsExact(escape: Escape, a: Result, b: Result)
    requires a.Rows? && b.Rows?
    ensures Same(escape, a, b) <==>
            && Text(escape, a.columns) == Text(escape, b.columns)
            && (if a.ordered && b.ordered then Texts(escape, a.rows) == Texts(escape, b.rows)
                else
                  && multiset(Texts(escape, a.rows)) == multiset(Texts(escape, b.rows))
                  && (a.ordered ==> Ascending(Texts(escape, a.rows)))
                  && (b.ordered ==> Ascending(Texts(escape, b.rows))))
  {
    if !a.ordered && !b.ordered { UnorderedExact(escape, a.rows, b.rows); }
    if a.ordered && !b.ordered { MixedExact(escape, a.rows, b.rows); }
    if !a.ordered && b.ordered { MixedExact(escape, b.rows, a.rows); }
    hide Text, Texts, Sort, Ascending;
  }

  lemma MixedExact(escape: Escape, ordered: seq<Value>, rows: seq<Value>)
    ensures Texts(escape, ordered) == Texts(escape, Sort(escape, rows)) <==>
            multiset(Texts(escape, ordered)) == multiset(Texts(escape, rows)) && Ascending(Texts(escape, ordered))
  {
    hide Text, Texts, Sort, Ascending;
    SortTexts(escape, rows);
    if multiset(Texts(escape, ordered)) == multiset(Texts(escape, rows)) && Ascending(Texts(escape, ordered)) {
      AscendingUnique(Texts(escape, ordered), Texts(escape, Sort(escape, rows)));
    }
  }

  lemma UnorderedExact(escape: Escape, a: seq<Value>, b: seq<Value>)
    ensures Texts(escape, Sort(escape, a)) == Texts(escape, Sort(escape, b)) <==>
            multiset(Texts(escape, a)) == multiset(Texts(escape, b))
  {
    hide Text, Texts, Sort, Ascending;
    SortTexts(escape, a);
    SortTexts(escape, b);
    if multiset(Texts(escape, a)) == multiset(Texts(escape, b)) {
      AscendingUnique(Texts(escape, Sort(escape, a)), Texts(escape, Sort(escape, b)));
    }
  }

  // ---- the gate

  type Key = string

  /** The hash of a canonical text, shortened. */
  type Digest = string -> string

  function Fingerprint(escape: Escape, digest: Digest, r: Result): string {
    digest(CanonicalText(escape, r))
  }

  function Differing(escape: Escape, before: map<Key, Result>, after: map<Key, Result>): set<Key> {
    set key | key in before && key in after && CanonicalText(escape, before[key]) != CanonicalText(escape, after[key])
  }

  /** removeprefix("~"). */
  function RemovePrefix(s: string): string {
    if s != "" && s[0] == '~' then s[1..] else s
  }

  /** The entry of a case is the fingerprint, or the fingerprint marked as unsteady. */
  predicate Matches(entry: string, fingerprint: string) {
    entry == "~" + fingerprint || (entry == fingerprint && !("~" <= fingerprint))
  }

  lemma PrefixRemoved(entry: string, fingerprint: string)
    ensures RemovePrefix(entry) == fingerprint <==> Matches(entry, fingerprint)
    ensures entry == "~" + fingerprint <==> entry != "" && entry[0] == '~' && entry[1..] == fingerprint
  {
    assert ("~" + fingerprint)[1..] == fingerprint;
    if entry != "" && entry[0] == '~' { assert entry == "~" + entry[1..]; }
  }

  /** The case is in both runs with different results. */
  predicate Differs(escape: Escape, before: map<Key, Result>, after: map<Key, Result>, key: Key) {
    key in before && key in after && CanonicalText(escape, before[key]) != CanonicalText(escape, after[key])
  }

  /** A difference is listed with the fingerprint of the new result. */
  predicate Listed(escape: Escape, digest: Digest, after: map<Key, Result>, reviewed: map<Key, string>, key: Key) {
    key in after && key in reviewed && Matches(reviewed[key], digest(CanonicalText(escape, after[key])))
  }

  /** A listed case is marked as unsteady, is there and is the listed one. */
  predicate Marked(escape: Escape, digest: Digest, after: map<Key, Result>, reviewed: map<Key, string>, key: Key) {
    key in after && key in reviewed && reviewed[key] == "~" + digest(CanonicalText(escape, after[key]))
  }

  /** Every difference is listed, and every other case that is listed is marked. */
  predicate Passes(escape: Escape, digest: Digest, before: map<Key, Result>, after: map<Key, Result>,
                   reviewed: map<Key, string>)
  {
    && (forall key :: key in before && Differs(escape, before, after, key) ==>
          Listed(escape, digest, after, reviewed, key))
    && (forall key :: key in reviewed && !Differs(escape, before, after, key) ==>
          Marked(escape, digest, after, reviewed, key))
  }

  predicate AllListed(escape: Escape, digest: Digest, after: map<Key, Result>, reviewed: map<Key, string>,
                      keys: set<Key>)
  {
    forall key :: key in keys ==> Listed(escape, digest, after, reviewed, key)
  }

  predicate AllMarked(escape: Escape, digest: Digest, after: map<Key, Result>, reviewed: map<Key, string>,
                      keys: set<Key>)
  {
    forall key :: key in keys ==> Marked(escape, digest, after, reviewed, key)
  }

  lemma ListedExact(escape: Escape, digest: Digest, after: map<Key, Result>, reviewed: map<Key, string>, key: Key)
    requires key in after
    ensures Listed(escape, digest, after, reviewed, key) <==>
            key in reviewed && RemovePrefix(reviewed[key]) == Fingerprint(escape, digest, after[key])
  {
    hide CanonicalText, Matches, RemovePrefix;
    if key in reviewed { PrefixRemoved(reviewed[key], Fingerprint(escape, digest, after[key])); }
  }

  lemma MarkedExact(escape: Escape, digest: Digest, after: map<Key, Result>, reviewed: map<Key, string>, key: Key)
    requires key in reviewed
    ensures var entry := reviewed[key];
            Marked(escape, digest, after, reviewed, key) <==>
            entry != "" && entry[0] == '~' && key in after && Fingerprint(escape, digest, after[key]) == entry[1..]
  {
    hide CanonicalText;
    if key in after { PrefixRemoved(reviewed[key], Fingerprint(escape, digest, after[key])); }
  }

  /** compare: the exit code, with or without a file of reviewed differences. */
  method Compare(escape: Escape, digest: Digest, before: map<Key, Result>, after: map<Key, Result>,
                 file: Option<map<Key, string>>) returns (code: nat)
    ensures code == 0 || code == 1
    ensures code == 0 <==> file.None? || Passes(escape, digest, before, after, file.value)
  {
    hide CanonicalText, Listed, Marked;
    var keys := Differing(escape, before, after);
    var failures := Unreviewed(escape, digest, after, file, keys);
    if file.None? { return 0; }
    var rest := Stale(escape, digest, after, file.value, keys);
    code := if failures + rest > 0 then 1 else 0;
  }

  /** The first loop of compare: the failures among the cases that differ. */
  method Unreviewed(escape: Escape, digest: Digest, after: map<Key, Result>, file: Option<map<Key, string>>,
                    keys: set<Key>)
    returns (failures: nat)
    requires keys <= after.Keys
    ensures failures == 0 <==> file.None? || AllListed(escape, digest, after, file.value, keys)
  {
    hide Fingerprint, RemovePrefix, Listed;
    failures := 0;
    var todo := keys;
    while todo != {}
      invariant todo <= keys
      invariant failures == 0 <==> file.None? || AllListed(escape, digest, after, file.value, keys - todo)
      decreases |todo|
    {
      var key :| key in todo;
      var digested := Fingerprint(escape, digest, after[key]);
      if file.Some? { ListedExact(escape, digest, after, file.value, key); }
      if file.None? {
      } else if key !in file.value {
        failures := failures + 1;
      } else if RemovePrefix(file.value[key]) != digested {
        failures := failures + 1;
      }
      assert keys - (todo - {key}) == (keys - todo) + {key};
      todo := todo - {key};
    }
    assert keys - todo == keys;
  }

  /** The second loop of compare: the failures among the reviewed cases that do not differ. */
  method Stale(escape: Escape, digest: Digest, after: map<Key, Result>, reviewed: map<Key, string>, keys: set<Key>)
    returns (failures: nat)
    ensures failures == 0 <==> AllMarked(escape, digest, after, reviewed, reviewed.Keys - keys)
  {
    hide Fingerprint, Marked;
    failures := 0;
    var all := reviewed.Keys - keys;
    var todo := all;
    while todo != {}
      invariant todo <= all
      invariant failures == 0 <==> AllMarked(escape, digest, after, reviewed, all - todo)
      decreases |todo|
    {
      var key :| key in todo;
      var expected := reviewed[key];
      MarkedExact(escape, digest, after, reviewed, key);
      if !(expected != "" && expected[0] == '~') || key !in after {
        failures := failures + 1;
      } else if Fingerprint(escape, digest, after[key]) != expected[1..] {
        failures := failures + 1;
      }
      assert all - (todo - {key}) == (all - todo) + {key};
      todo := todo - {key};
    }
    assert all - todo == all;
  }

  /** The gate sees no more of a result than what makes results count as equal. */
  lemma PassesAlike(escape: Escape, digest: Digest, before: map<Key, Result>, after: map<Key, Result>,
                    other: map<Key, Result>, reviewed: map<Key, string>)
    requires Lawful(escape) && after.Keys == other.Keys
    requires forall key :: key in after ==>
               WellFormedResult(after[key]) && WellFormedResult(other[key]) && Same(escape, after[key], other[key])
    ensures Passes(escape, digest, before, after, reviewed) <==> Passes(escape, digest, before, other, reviewed)
  {
    forall key | key in after ensures CanonicalText(escape, after[key]) == CanonicalText(escape, other[key]) {
      CanonicalExact(escape, after[key], other[key]);
    }
    hide CanonicalText, WellFormedResult, Same, Lawful, Matches;
    forall key ensures Differs(escape, before, after, key) <==> Differs(escape, before, other, key) {}
    forall key
      ensures Listed(escape, digest, after, reviewed, key) <==> Listed(escape, digest, other, reviewed, key)
      ensures Marked(escape, digest, after, reviewed, key) <==> Marked(escape, digest, other, reviewed, key)
    {
    }
    hide Differs, Listed, Marked;
  }
}
