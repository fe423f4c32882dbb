/**
 * The schema-less extractor: every null or scalar leaf of a value tree, as
 * a set of field paths. List elements are addressed by a guessed key when
 * they look associative, and by position otherwise.
 */
module FromValue {
  import opened Wrappers
  import opened Values
  import opened FieldPath

  /** Field names that are taken as keys when a list element carries them. */
  const AssociativeListCandidateFieldNames: seq<string> := ["key", "id", "name"]

  /** The field `name` of a map element can serve as one of its keys: it is
      present and primitive (not null, not a map, not a list). */
  predicate Qualifies(fields: seq<Field>, name: string) {
    Get(fields, name).Some? && IsScalar(Get(fields, name).value.value)
  }

  /** What the candidate `name` adds to the key: its field, if it qualifies. */
  function CandidateKey(fields: seq<Field>, name: string): seq<Field> {
    if Qualifies(fields, name) then [Get(fields, name).value] else []
  }

  /** The key fields gathered from the first `n` candidate names. */
  function CandidateKeys(fields: seq<Field>, names: seq<string>, n: nat): (keys: seq<Field>)
    requires n <= |names|
    ensures |keys| <= n
    ensures forall f :: f in keys <==>
              (exists j :: 0 <= j < n && names[j] == f.name) && Qualifies(fields, f.name)
              && Get(fields, f.name) == Some(f)
  {
    if n == 0 then []
    else
      var keys := CandidateKeys(fields, names, n - 1) + CandidateKey(fields, names[n - 1]);
      assert forall f :: f in CandidateKey(fields, names[n - 1]) ==> f.name == names[n - 1];
      keys
  }

  /**
   * GuessBestListPathElement's answer: the positional index for anything
   * but a map; for a map, a key made of its qualifying candidate fields, or
   * the index again when none qualifies.
   */
  function BestListPathElement(index: nat, item: Value): (pe: PathElement)
    ensures !item.Map? ==> pe == Index(index)
    ensures item.Map? ==>
              (pe.Key? <==> exists j :: 0 <= j < |AssociativeListCandidateFieldNames|
                                          && Qualifies(item.fields, AssociativeListCandidateFieldNames[j]))
    ensures pe.Key? ==> forall f :: f in pe.key <==>
              f.name in AssociativeListCandidateFieldNames && Qualifies(item.fields, f.name)
              && Get(item.fields, f.name) == Some(f)
    ensures !pe.Key? ==> pe == Index(index)
    ensures item.Map? && pe.Key? ==>
              pe.key == CandidateKey(item.fields, "key") + CandidateKey(item.fields, "id") + CandidateKey(item.fields, "name")
  {
    if !item.Map? then Index(index)
    else
      var names := AssociativeListCandidateFieldNames;
      var keys := CandidateKeys(item.fields, names, |names|);
      assert (exists j :: 0 <= j < |names| && Qualifies(item.fields, names[j])) ==> |keys| > 0 by {
        if j :| 0 <= j < |names| && Qualifies(item.fields, names[j]) {
          assert Get(item.fields, names[j]).value in keys;
        }
      }
      assert |keys| > 0 ==> keys[0] in keys;
      GuessedKeyOrder(item.fields);
      if |keys| > 0 then Key(keys) else Index(index)
  }

  method GuessBestListPathElement(index: nat, item: Value) returns (pe: PathElement)
    ensures pe == BestListPathElement(index, item)
  {
    if !item.Map? {
      return Index(index);
    }
    var names := AssociativeListCandidateFieldNames;
    var keys: seq<Field> := [];
    var i := 0;
    while i < |names|
      invariant i <= |names|
      invariant keys == CandidateKeys(item.fields, names, i)
    {
      var f := Get(item.fields, names[i]);
      if f.Some? && !(f.value.value.Null? || f.value.value.Map? || f.value.value.List?) {
        keys := keys + [f.value];
      }
      i := i + 1;
    }
    if |keys| > 0 {
      return Key(keys);
    }
    return Index(index);
  }

  /** The key is assembled in candidate order: "key", then "id", then "name". */
  lemma {:induction false} GuessedKeyOrder(fields: seq<Field>)
    ensures CandidateKeys(fields, AssociativeListCandidateFieldNames, 3)
            == CandidateKey(fields, "key") + CandidateKey(fields, "id") + CandidateKey(fields, "name")
  {
    var names := AssociativeListCandidateFieldNames;
    assert CandidateKeys(fields, names, 1) == CandidateKey(fields, "key");
    assert CandidateKeys(fields, names, 2) == CandidateKey(fields, "key") + CandidateKey(fields, "id");
  }

  /** An element with no candidate field is addressed by its index. */
  lemma GuessFallsBackToIndex()
    ensures BestListPathElement(4, Map([Field("other", Int(1))])) == Index(4)
  {
    var item := Map([Field("other", Int(1))]);
    assert !Qualifies(item.fields, "key") && !Qualifies(item.fields, "id") && !Qualifies(item.fields, "name");
  }

  /** An element with a string-valued "name" is addressed by that name. */
  lemma GuessUsesNameKey()
    ensures BestListPathElement(0, Map([Field("name", String("bob"))]))
            == Key([Field("name", String("bob"))])
  {
    var fields := [Field("name", String("bob"))];
    GuessedKeyOrder(fields);
    assert CandidateKey(fields, "key") == [] && CandidateKey(fields, "id") == [];
  }

  /** Gathered keys follow candidate order, not the element's field order. */
  lemma GuessPutsKeyBeforeName()
    ensures BestListPathElement(0, Map([Field("name", String("n")), Field("key", String("k"))]))
            == Key([Field("key", String("k")), Field("name", String("n"))])
  {
  }

  /** The walker's state: the path so far and the value beneath it. */
  datatype ObjectWalker = ObjectWalker(path: Path, value: Value)

  /** Every path the walk from `path` at node `v` hands to its `do` callback. */
  function LeafPaths(path: Path, v: Value): set<Path>
    decreases v, 1
  {
    match v
    case List(items) => ListLeafPaths(path, v, |items|)
    case Map(fields) => MapLeafPaths(path, v, |fields|)
    case _ => if |path| > 0 then {path} else {}
  }

  /** The paths contributed by the first `n` elements of the list `v`. */
  function ListLeafPaths(path: Path, v: Value, n: nat): set<Path>
    requires v.List? && n <= |v.items|
    decreases v, 0
  {
    set j, p | 0 <= j < n && p in LeafPaths(path + [BestListPathElement(j, v.items[j])], v.items[j]) :: p
  }

  /** The paths contributed by the first `n` fields of the map `v`. */
  function MapLeafPaths(path: Path, v: Value, n: nat): set<Path>
    requires v.Map? && n <= |v.fields|
    decreases v, 0
  {
    set j, p | 0 <= j < n && p in LeafPaths(path + [FieldName(v.fields[j].name)], v.fields[j].value) :: p
  }

  lemma ListLeafPathsStep(path: Path, v: Value, n: nat)
    requires v.List? && n < |v.items|
    ensures ListLeafPaths(path, v, n + 1)
            == ListLeafPaths(path, v, n) + LeafPaths(path + [BestListPathElement(n, v.items[n])], v.items[n])
  {
  }

  lemma MapLeafPathsStep(path: Path, v: Value, n: nat)
    requires v.Map? && n < |v.fields|
    ensures MapLeafPaths(path, v, n + 1)
            == MapLeafPaths(path, v, n) + LeafPaths(path + [FieldName(v.fields[n].name)], v.fields[n].value)
  {
  }

  /** The `do` callback inserts into a set: the walk adds LeafPaths to it. */
  method Walk(w: ObjectWalker, s: set<Path>) returns (s': set<Path>)
    ensures s' == s + LeafPaths(w.path, w.value)
    decreases w.value
  {
    s' := s;
    match w.value {
      case List(items) =>
        var i := 0;
        while i < |items|
          invariant i <= |items|
          invariant s' == s + ListLeafPaths(w.path, w.value, i)
        {
          var pe := GuessBestListPathElement(i, items[i]);
          var w2 := w.(path := w.path + [pe], value := items[i]);
          s' := Walk(w2, s');
          ListLeafPathsStep(w.path, w.value, i);
          i := i + 1;
        }
      case Map(fields) =>
        var i := 0;
        while i < |fields|
          invariant i <= |fields|
          invariant s' == s + MapLeafPaths(w.path, w.value, i)
        {
          var w2 := w.(path := w.path + [FieldName(fields[i].name)], value := fields[i].value);
          s' := Walk(w2, s');
          MapLeafPathsStep(w.path, w.value, i);
          i := i + 1;
        }
      case _ =>
        if |w.path| > 0 {
          s' := s' + {w.path};
        }
    }
  }

  /** The set of every leaf field mentioned in `v`. */
  method SetFromValue(v: Value) returns (s: set<Path>)
    ensures s == LeafPaths([], v)
  {
    s := Walk(ObjectWalker([], v), {});
  }

  /**
   * Reference definition of a leaf: following `q` from `v` takes one step per
   * element — a field name into a map field, the guessed element into a list
   * element — and stops at a node that is neither a list nor a map.
   */
  ghost predicate ReachesLeaf(v: Value, q: Path)
    decreases v
  {
    if q == [] then !v.List? && !v.Map?
    else match v
      case List(items) =>
        exists i :: 0 <= i < |items| && q[0] == BestListPathElement(i, items[i]) && ReachesLeaf(items[i], q[1..])
      case Map(fields) =>
        exists i :: 0 <= i < |fields| && q[0] == FieldName(fields[i].name) && ReachesLeaf(fields[i].value, q[1..])
      case _ => false
  }

  /** The walk from `path` emits exactly the non-root paths that extend `path` down to a leaf. */
  lemma {:induction false} LeafPathsExactly(path: Path, v: Value, p: Path)
    ensures p in LeafPaths(path, v) <==> |p| > 0 && IsPrefix(path, p) && ReachesLeaf(v, p[|path|..])
    decreases v, 1
  {
    match v {
      case List(items) =>
        if p in LeafPaths(path, v) {
          ListLeafPathsReach(path, v, p);
        }
        if |p| > 0 && IsPrefix(path, p) && ReachesLeaf(v, p[|path|..]) {
          ListReachLeafPaths(path, v, p);
        }
      case Map(fields) =>
        if p in LeafPaths(path, v) {
          MapLeafPathsReach(path, v, p);
        }
        if |p| > 0 && IsPrefix(path, p) && ReachesLeaf(v, p[|path|..]) {
          MapReachLeafPaths(path, v, p);
        }
      case _ =>
        if |p| > 0 && IsPrefix(path, p) && ReachesLeaf(v, p[|path|..]) {
          assert p[|path|..] == [];
          assert p == p[..|path|] + p[|path|..] == path;
          assert LeafPaths(path, v) == {path};
        }
        if p in LeafPaths(path, v) {
          assert p == path;
          assert p[..|path|] == path && p[|path|..] == [];
          assert ReachesLeaf(v, []) && |p| > 0;
          assert IsPrefix(path, p);
        }
    }
  }

  lemma {:induction false} ListLeafPathsReach(path: Path, v: Value, p: Path)
    requires v.List? && p in ListLeafPaths(path, v, |v.items|)
    ensures |p| > 0 && IsPrefix(path, p) && ReachesLeaf(v, p[|path|..])
    decreases v, 0
  {
    var items := v.items;
    var i :| 0 <= i < |items| && p in LeafPaths(path + [BestListPathElement(i, items[i])], items[i]);
    var pe := BestListPathElement(i, items[i]);
    LeafPathsExactly(path + [pe], items[i], p);
    var q := p[|path|..];
    assert p[..|path|] == path by {
      assert p[..|path|] == p[..|path| + 1][..|path|];
    }
    assert q[0] == pe by {
      assert q[0] == p[|path|] == p[..|path| + 1][|path|];
    }
    assert q[1..] == p[|path| + 1..];
    assert ReachesLeaf(items[i], q[1..]);
  }

  lemma {:induction false} ListReachLeafPaths(path: Path, v: Value, p: Path)
    requires v.List? && |p| > 0 && IsPrefix(path, p) && ReachesLeaf(v, p[|path|..])
    ensures p in ListLeafPaths(path, v, |v.items|)
    decreases v, 0
  {
    var items := v.items;
    var q := p[|path|..];
    var i :| 0 <= i < |items| && q[0] == BestListPathElement(i, items[i]) && ReachesLeaf(items[i], q[1..]);
    var pe := BestListPathElement(i, items[i]);
    LeafPathsExactly(path + [pe], items[i], p);
    assert p[..|path| + 1] == path + [pe];
    assert q[1..] == p[|path| + 1..];
  }

  lemma {:induction false} MapLeafPathsReach(path: Path, v: Value, p: Path)
    requires v.Map? && p in MapLeafPaths(path, v, |v.fields|)
    ensures |p| > 0 && IsPrefix(path, p) && ReachesLeaf(v, p[|path|..])
    decreases v, 0
  {
    var fields := v.fields;
    var i :| 0 <= i < |fields| && p in LeafPaths(path + [FieldName(fields[i].name)], fields[i].value);
    var pe := FieldName(fields[i].name);
    LeafPathsExactly(path + [pe], fields[i].value, p);
    var q := p[|path|..];
    assert p[..|path|] == path by {
      assert p[..|path|] == p[..|path| + 1][..|path|];
    }
    assert q[0] == pe by {
      assert q[0] == p[|path|] == p[..|path| + 1][|path|];
    }
    assert q[1..] == p[|path| + 1..];
    assert ReachesLeaf(fields[i].value, q[1..]);
  }

  lemma {:induction false} MapReachLeafPaths(path: Path, v: Value, p: Path)
    requires v.Map? && |p| > 0 && IsPrefix(path, p) && ReachesLeaf(v, p[|path|..])
    ensures p in MapLeafPaths(path, v, |v.fields|)
    decreases v, 0
  {
    var fields := v.fields;
    var q := p[|path|..];
    var i :| 0 <= i < |fields| && q[0] == FieldName(fields[i].name) && ReachesLeaf(fields[i].value, q[1..]);
    var pe := FieldName(fields[i].name);
    LeafPathsExactly(path + [pe], fields[i].value, p);
    assert p[..|path| + 1] == path + [pe];
    assert q[1..] == p[|path| + 1..];
  }

  /** SetFromValue yields exactly the non-empty paths that lead from the root to a leaf. */
  lemma SetFromValueExactly(v: Value, p: Path)
    ensures p in LeafPaths([], v) <==> p != [] && ReachesLeaf(v, p)
  {
    LeafPathsExactly([], v, p);
    assert p[0..] == p;
  }

  /** A path that reaches a leaf ends at null or a scalar, never at a list or a map. */
  lemma {:induction false} LeafIsNullOrScalar(v: Value, q: Path)
    requires ReachesLeaf(v, q)
    ensures exists leaf :: Descendant(v, q, leaf) && (leaf.Null? || IsScalar(leaf))
    decreases v
  {
    if q == [] {
      assert Descendant(v, q, v);
    } else {
      match v {
        case List(items) =>
          var i :| 0 <= i < |items| && q[0] == BestListPathElement(i, items[i]) && ReachesLeaf(items[i], q[1..]);
          LeafIsNullOrScalar(items[i], q[1..]);
          var leaf :| Descendant(items[i], q[1..], leaf) && (leaf.Null? || IsScalar(leaf));
          assert Descendant(v, q, leaf);
        case Map(fields) =>
          var i :| 0 <= i < |fields| && q[0] == FieldName(fields[i].name) && ReachesLeaf(fields[i].value, q[1..]);
          LeafIsNullOrScalar(fields[i].value, q[1..]);
          var leaf :| Descendant(fields[i].value, q[1..], leaf) && (leaf.Null? || IsScalar(leaf));
          assert Descendant(v, q, leaf);
      }
    }
  }

  /** `leaf` is a node reached from `v` by following `q`, one step per element. */
  ghost predicate Descendant(v: Value, q: Path, leaf: Value)
    decreases v
  {
    if q == [] then leaf == v
    else match v
      case List(items) =>
        exists i :: 0 <= i < |items| && q[0] == BestListPathElement(i, items[i]) && Descendant(items[i], q[1..], leaf)
      case Map(fields) =>
        exists i :: 0 <= i < |fields| && q[0] == FieldName(fields[i].name) && Descendant(fields[i].value, q[1..], leaf)
      case _ => false
  }

  /** A bare scalar or null at the root yields no path at all. */
  lemma ScalarRootHasNoPaths(v: Value)
    requires !v.List? && !v.Map?
    ensures LeafPaths([], v) == {}
  {
  }

  /** Empty lists and empty maps contribute no paths. */
  lemma EmptyContainersHaveNoPaths(path: Path)
    ensures LeafPaths(path, List([])) == {} && LeafPaths(path, Map([])) == {}
  {
  }
}
