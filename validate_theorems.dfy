/**
 * What one validation step promises, atom by atom: the errors it reports at
 * its own path, which children it descends into, and which leaves it fires.
 */
module ValidateTheorems {
  import opened Wrappers
  import opened Values
  import opened FieldPath
  import S = Schemas
  import opened Typed
  import opened ValidateProperties

  // ---------------------------------------------------------------------
  // Resolution, scalars and untyped nodes

  /** A type reference that does not resolve gives one error at the current
      path, and nothing is descended into or reported as a leaf. */
  lemma UnresolvedTypeIsOneError(sch: S.Schema, w: Walker)
    requires S.Resolve(sch, w.typeRef).None?
    ensures w.typeRef.NamedType?
    ensures Validation(sch, w) == Outcome([ValidationError(w.path, NoTypeFound(w.typeRef.name))], [])
  {
  }

  /** A scalar is accepted exactly when its kind matches; an accepted scalar
      is a leaf (unless already inside one), a refused one is a single error. */
  lemma ScalarCheck(sch: S.Schema, w: Walker, t: S.ScalarKind)
    requires S.Resolve(sch, w.typeRef) == Some(S.Scalar(t))
    ensures Validation(sch, w).errors == [] <==> ScalarMatches(t, w.value)
    ensures ScalarMatches(t, w.value) ==> Validation(sch, w).leaves == if w.inLeaf then [] else [w.path]
    ensures !ScalarMatches(t, w.value) ==>
              Validation(sch, w) == Outcome([ValidationError(w.path, ScalarMismatch(t))], [])
  {
  }

  /** A numeric scalar admits integers and floats alike, and nothing else. */
  lemma NumericAdmitsIntAndFloat(v: Value)
    ensures ScalarMatches(S.Numeric, v) <==> v.Int? || v.Float?
    ensures ScalarMismatch(S.Numeric) == ExpectedNumeric
  {
  }

  /** An untyped node never fails and is never descended into; it is a leaf
      when its relationship is unset or atomic. */
  lemma UntypedNeverFails(sch: S.Schema, w: Walker, t: S.Untyped)
    requires S.Resolve(sch, w.typeRef) == Some(S.UntypedAtom(t))
    ensures Validation(sch, w).errors == []
    ensures Validation(sch, w).leaves ==
              if (t.elementRelationship == S.Unset || t.elementRelationship == S.Atomic) && !w.inLeaf
              then [w.path] else []
  {
  }

  // ---------------------------------------------------------------------
  // Containers: the kinds they accept, atomic leaves

  predicate IsContainer(a: S.Atom) {
    a.StructAtom? || a.ListAtom? || a.MapAtom?
  }

  function Relationship(a: S.Atom): S.ElementRelationship
    requires IsContainer(a)
  {
    match a
    case StructAtom(t) => t.elementRelationship
    case ListAtom(t) => t.elementRelationship
    case MapAtom(t) => t.elementRelationship
  }

  /** Structs and maps accept a map, lists a list, and all of them null. */
  predicate AcceptsShape(a: S.Atom, v: Value)
    requires IsContainer(a)
  {
    v.Null? || (if a.ListAtom? then v.List? else v.Map?)
  }

  function WrongShape(a: S.Atom): ErrorKind
    requires IsContainer(a)
  {
    match a
    case StructAtom(_) => ExpectedStruct
    case ListAtom(_) => ExpectedList
    case MapAtom(_) => ExpectedMap
  }

  /** A null struct, list or map is valid and has nothing to descend into; it
      is a leaf only when the container is atomic. */
  lemma NullContainerAccepted(sch: S.Schema, w: Walker, a: S.Atom)
    requires S.Resolve(sch, w.typeRef) == Some(a) && IsContainer(a) && w.value.Null?
    ensures Validation(sch, w).errors == []
    ensures Validation(sch, w).leaves ==
              if Relationship(a) == S.Atomic && !w.inLeaf then [w.path] else []
  {
  }

  /** A value of the wrong kind for its container type is a single error at
      its path, with no descent and no leaf. */
  lemma WrongContainerKind(sch: S.Schema, w: Walker, a: S.Atom)
    requires S.Resolve(sch, w.typeRef) == Some(a) && IsContainer(a) && !AcceptsShape(a, w.value)
    ensures Validation(sch, w) == Outcome([ValidationError(w.path, WrongShape(a))], [])
  {
  }

  /** Beneath an atomic struct, list or map exactly one leaf is reported: the
      container's own path, or none when an enclosing container was atomic. */
  lemma AtomicContainerFiresOnce(sch: S.Schema, w: Walker, a: S.Atom)
    requires S.Resolve(sch, w.typeRef) == Some(a) && IsContainer(a)
    requires Relationship(a) == S.Atomic && AcceptsShape(a, w.value)
    ensures Validation(sch, w).leaves == if w.inLeaf then [] else [w.path]
  {
    var w1 := w.(inLeaf := true);
    match a {
      case StructAtom(t) =>
        if w.value.Map? {
          StructFieldsSilent(sch, w1, t.fields, |t.fields|);
        }
      case ListAtom(t) =>
        if w.value.List? {
          ListItemsSilent(sch, w1, t, |w.value.items|);
        }
      case MapAtom(t) =>
        if w.value.Map? {
          MapItemsSilent(sch, w1, t, |w.value.fields|);
        }
    }
  }

  /** Marking a struct atomic changes its leaves only: its errors are those it
      has under any other relationship. */
  lemma StructRelationshipKeepsErrors(sch: S.Schema, w: Walker, t: S.Struct, r: S.ElementRelationship)
    ensures StructValidation(sch, w, t.(elementRelationship := r)).errors == StructValidation(sch, w, t).errors
  {
    if w.value.Map? {
      var n := |t.fields|;
      StructFieldsIgnoreInLeaf(sch, w, t.fields, n, EnterAtom(w, t.elementRelationship).0.inLeaf);
      StructFieldsIgnoreInLeaf(sch, w, t.fields, n, EnterAtom(w, r).0.inLeaf);
    }
  }

  /** The same for maps. */
  lemma MapRelationshipKeepsErrors(sch: S.Schema, w: Walker, t: S.Map, r: S.ElementRelationship)
    ensures MapValidation(sch, w, t.(elementRelationship := r)).errors == MapValidation(sch, w, t).errors
  {
    if w.value.Map? {
      var n := |w.value.fields|;
      var t' := t.(elementRelationship := r);
      var b, b' := EnterAtom(w, t.elementRelationship).0.inLeaf, EnterAtom(w, r).0.inLeaf;
      assert EnterAtom(w, r).0 == w.(inLeaf := b');
      assert EnterAtom(w, t.elementRelationship).0 == w.(inLeaf := b);
      MapItemsSameElementType(sch, w.(inLeaf := b'), t, t', n);
      MapItemsIgnoreInLeaf(sch, w, t, n, b);
      MapItemsIgnoreInLeaf(sch, w, t, n, b');
    }
  }

  /** The same for lists, between relationships that both number the
      elements (an associative list identifies its elements differently). */
  lemma ListRelationshipKeepsErrors(sch: S.Schema, w: Walker, t: S.List, r: S.ElementRelationship)
    requires t.elementRelationship != S.Associative && r != S.Associative
    ensures ListValidation(sch, w, t.(elementRelationship := r)).errors == ListValidation(sch, w, t).errors
  {
    if w.value.List? {
      var n := |w.value.items|;
      var t' := t.(elementRelationship := r);
      var b, b' := EnterAtom(w, t.elementRelationship).0.inLeaf, EnterAtom(w, r).0.inLeaf;
      assert EnterAtom(w, r).0 == w.(inLeaf := b');
      assert EnterAtom(w, t.elementRelationship).0 == w.(inLeaf := b);
      ListItemsIndexed(sch, w.(inLeaf := b'), t, t', n);
      ListItemsIgnoreInLeaf(sch, w, t, n, b);
      ListItemsIgnoreInLeaf(sch, w, t, n, b');
    }
  }

  lemma {:induction false} MapItemsSameElementType(sch: S.Schema, w: Walker, t: S.Map, t': S.Map, n: nat)
    requires w.value.Map? && n <= |w.value.fields| && t'.elementType == t.elementType
    ensures MapItemsOutcome(sch, w, t', n) == MapItemsOutcome(sch, w, t, n)
  {
    if n > 0 {
      MapItemsSameElementType(sch, w, t, t', n - 1);
    }
  }

  lemma {:induction false} ListItemsIndexed(sch: S.Schema, w: Walker, t: S.List, t': S.List, n: nat)
    requires w.value.List? && n <= |w.value.items|
    requires t.elementRelationship != S.Associative && t'.elementRelationship != S.Associative
    requires t'.elementType == t.elementType
    ensures ListItemsOutcome(sch, w, t', n) == ListItemsOutcome(sch, w, t, n)
  {
    if n > 0 {
      ListItemsIndexed(sch, w, t, t', n - 1);
      var items := w.value.items;
      assert forall j :: 0 <= j < n - 1 ==> ListItemElement(t', j, items[j]) == ListItemElement(t, j, items[j]);
      assert ObservedKeys(t', items, n - 1) == ObservedKeys(t, items, n - 1);
    }
  }
  // ---------------------------------------------------------------------
  // Structs

  /** Every declared field the map holds contributes its errors and leaves to the struct's outcome. */
  lemma {:induction false} StructFieldsIncludeStep(sch: S.Schema, w: Walker, fields: seq<S.StructField>, n: nat, k: nat)
    requires w.value.Map? && k < n <= |fields|
    ensures forall e :: e in StructFieldStep(sch, w, fields, k).errors ==> e in StructFieldsOutcome(sch, w, fields, n).errors
    ensures forall l :: l in StructFieldStep(sch, w, fields, k).leaves ==> l in StructFieldsOutcome(sch, w, fields, n).leaves
  {
    if k < n - 1 {
      StructFieldsIncludeStep(sch, w, fields, n - 1, k);
    }
  }

  /** A struct reports an unknown-field error at its own path for a name
      exactly when the map holds a field of that name that the struct does
      not declare. */
  lemma StructUnknownField(sch: S.Schema, w: Walker, t: S.Struct, name: string)
    requires S.Resolve(sch, w.typeRef) == Some(S.StructAtom(t)) && w.value.Map?
    ensures ValidationError(w.path, UnknownField(name)) in Validation(sch, w).errors <==>
              (exists j :: 0 <= j < |w.value.fields| && w.value.fields[j].name == name)
              && forall k :: 0 <= k < |t.fields| ==> t.fields[k].name != name
  {
    var w1 := EnterAtom(w, t.elementRelationship).0;
    var declared := DeclaredNames(t.fields, |t.fields|);
    StructFieldsUnder(sch, w1, t.fields, |t.fields|);
    UnknownFieldErrorsExactly(w.path, declared, w.value.fields, |w.value.fields|);
    assert name in declared <==> exists k :: 0 <= k < |t.fields| && t.fields[k].name == name;
  }

  /** The only errors at a struct's own path name unknown fields; every other
      error lies beneath a declared field the map holds, so an absent
      optional field contributes nothing. */
  lemma StructErrorPlacement(sch: S.Schema, w: Walker, t: S.Struct)
    requires S.Resolve(sch, w.typeRef) == Some(S.StructAtom(t)) && w.value.Map?
    ensures forall e :: e in Validation(sch, w).errors ==>
              (e.path == w.path && e.kind.UnknownField?) || UnderDeclaredField(w, t.fields, e.path)
  {
    var w1 := EnterAtom(w, t.elementRelationship).0;
    StructFieldsUnder(sch, w1, t.fields, |t.fields|);
    UnknownFieldErrorsExactly(w.path, DeclaredNames(t.fields, |t.fields|), w.value.fields, |w.value.fields|);
    assert forall q :: UnderDeclaredField(w1, t.fields, q) ==> UnderDeclaredField(w, t.fields, q);
  }

  /** Every error of a declared, present field's own validation is reported
      by the struct, atomic or not. */
  lemma StructChildErrorsIncluded(sch: S.Schema, w: Walker, t: S.Struct, k: nat)
    requires S.Resolve(sch, w.typeRef) == Some(S.StructAtom(t)) && w.value.Map?
    requires k < |t.fields| && Get(w.value.fields, t.fields[k].name).Some?
    ensures forall e :: e in Validation(sch, Descend(w, FieldName(t.fields[k].name),
                                                      Get(w.value.fields, t.fields[k].name).value.value,
                                                      t.fields[k].fieldType)).errors
                        ==> e in Validation(sch, w).errors
  {
    var w1 := EnterAtom(w, t.elementRelationship).0;
    var f := t.fields[k];
    var child := Get(w.value.fields, f.name).value;
    GetIsSmaller(w.value.fields, f.name);
    var c := Descend(w, FieldName(f.name), child.value, f.fieldType);
    StructFieldsIncludeStep(sch, w1, t.fields, |t.fields|, k);
    assert StructFieldStep(sch, w1, t.fields, k) == Validation(sch, c.(inLeaf := w1.inLeaf));
    ErrorsIgnoreInLeaf(sch, c, w1.inLeaf);
  }

  /** A struct that is not atomic passes up every leaf of a declared, present field. */
  lemma StructChildLeavesIncluded(sch: S.Schema, w: Walker, t: S.Struct, k: nat)
    requires S.Resolve(sch, w.typeRef) == Some(S.StructAtom(t)) && w.value.Map?
    requires t.elementRelationship != S.Atomic
    requires k < |t.fields| && Get(w.value.fields, t.fields[k].name).Some?
    ensures forall l :: l in Validation(sch, Descend(w, FieldName(t.fields[k].name),
                                                      Get(w.value.fields, t.fields[k].name).value.value,
                                                      t.fields[k].fieldType)).leaves
                        ==> l in Validation(sch, w).leaves
  {
    var f := t.fields[k];
    var child := Get(w.value.fields, f.name).value;
    GetIsSmaller(w.value.fields, f.name);
    StructFieldsIncludeStep(sch, w, t.fields, |t.fields|, k);
    assert StructFieldStep(sch, w, t.fields, k) == Validation(sch, Descend(w, FieldName(f.name), child.value, f.fieldType));
  }

  // ---------------------------------------------------------------------
  // Lists

  /** Every element contributes its errors and leaves to the list's outcome. */
  lemma {:induction false} ListItemsIncludeStep(sch: S.Schema, w: Walker, t: S.List, n: nat, k: nat)
    requires w.value.List? && k < n <= |w.value.items|
    ensures forall e :: e in ListItemStep(sch, w, t, k).errors ==> e in ListItemsOutcome(sch, w, t, n).errors
    ensures forall l :: l in ListItemStep(sch, w, t, k).leaves ==> l in ListItemsOutcome(sch, w, t, n).leaves
  {
    if k < n - 1 {
      ListItemsIncludeStep(sch, w, t, n - 1, k);
    }
  }

  /** The first `n` elements report a bad element exactly for those whose path element cannot be built. */
  lemma {:induction false} ListItemsBadElement(sch: S.Schema, w: Walker, t: S.List, n: nat, i: nat, p: ElementProblem)
    requires w.value.List? && n <= |w.value.items|
    ensures ValidationError(w.path, BadElement(i, p)) in ListItemsOutcome(sch, w, t, n).errors <==>
              i < n && ListItemElement(t, i, w.value.items[i]) == Err(p)
  {
    if n > 0 {
      ListItemsBadElement(sch, w, t, n - 1, i, p);
      var child := w.value.items[n - 1];
      match ListItemElement(t, n - 1, child) {
        case Err(_) =>
        case Ok(pe) => ValidationUnder(sch, Descend(w, pe, child, t.elementType));
      }
    }
  }

  /** The first `n` elements report a duplicate of `pe` exactly when two of them are identified by `pe`. */
  lemma {:induction false} ListItemsDuplicate(sch: S.Schema, w: Walker, t: S.List, n: nat, pe: PathElement)
    requires w.value.List? && n <= |w.value.items|
    ensures ValidationError(w.path, DuplicateEntries(pe)) in ListItemsOutcome(sch, w, t, n).errors <==>
              exists j, i :: 0 <= j < i < n && ListItemElement(t, j, w.value.items[j]) == Ok(pe)
                                         && ListItemElement(t, i, w.value.items[i]) == Ok(pe)
  {
    if n > 0 {
      ListItemsDuplicate(sch, w, t, n - 1, pe);
      var items := w.value.items;
      var child := items[n - 1];
      match ListItemElement(t, n - 1, child) {
        case Err(_) =>
        case Ok(pe') => ValidationUnder(sch, Descend(w, pe', child, t.elementType));
      }
    }
  }

  /** A list reports a bad element `i` exactly when no path element can be built for element `i`. */
  lemma ListBadElement(sch: S.Schema, w: Walker, t: S.List, i: nat, p: ElementProblem)
    requires S.Resolve(sch, w.typeRef) == Some(S.ListAtom(t)) && w.value.List?
    ensures ValidationError(w.path, BadElement(i, p)) in Validation(sch, w).errors <==>
              i < |w.value.items| && ListItemElement(t, i, w.value.items[i]) == Err(p)
  {
    ListItemsBadElement(sch, EnterAtom(w, t.elementRelationship).0, t, |w.value.items|, i, p);
  }

  /** A list reports duplicate entries for `pe` exactly when two of its elements are identified by `pe`. */
  lemma ListDuplicate(sch: S.Schema, w: Walker, t: S.List, pe: PathElement)
    requires S.Resolve(sch, w.typeRef) == Some(S.ListAtom(t)) && w.value.List?
    ensures ValidationError(w.path, DuplicateEntries(pe)) in Validation(sch, w).errors <==>
              exists j, i :: 0 <= j < i < |w.value.items| && ListItemElement(t, j, w.value.items[j]) == Ok(pe)
                                                      && ListItemElement(t, i, w.value.items[i]) == Ok(pe)
  {
    ListItemsDuplicate(sch, EnterAtom(w, t.elementRelationship).0, t, |w.value.items|, pe);
  }

  /** The only errors at a list's own path are bad and duplicate elements;
      every other error lies beneath an element whose path element was built,
      so an element that cannot be identified is not descended into. */
  lemma ListErrorPlacement(sch: S.Schema, w: Walker, t: S.List)
    requires S.Resolve(sch, w.typeRef) == Some(S.ListAtom(t)) && w.value.List?
    ensures forall e :: e in Validation(sch, w).errors ==>
              if e.path == w.path then e.kind.BadElement? || e.kind.DuplicateEntries?
              else UnderBuiltElement(w, t, e.path)
  {
    var w1 := EnterAtom(w, t.elementRelationship).0;
    ListItemsUnder(sch, w1, t, |w.value.items|);
    assert forall q :: UnderBuiltElement(w1, t, q) ==> UnderBuiltElement(w, t, q);
  }

  /** Every element that can be identified is validated against the element
      type, a duplicate included, and its errors are reported by the list. */
  lemma ListChildErrorsIncluded(sch: S.Schema, w: Walker, t: S.List, i: nat)
    requires S.Resolve(sch, w.typeRef) == Some(S.ListAtom(t)) && w.value.List?
    requires i < |w.value.items| && ListItemElement(t, i, w.value.items[i]).Ok?
    ensures forall e :: e in Validation(sch, Descend(w, ListItemElement(t, i, w.value.items[i]).value,
                                                      w.value.items[i], t.elementType)).errors
                        ==> e in Validation(sch, w).errors
  {
    var w1 := EnterAtom(w, t.elementRelationship).0;
    var child := w.value.items[i];
    var pe := ListItemElement(t, i, child).value;
    var c := Descend(w, pe, child, t.elementType);
    ListItemsIncludeStep(sch, w1, t, |w.value.items|, i);
    assert Descend(w1, pe, child, t.elementType) == c.(inLeaf := w1.inLeaf);
    assert forall e :: e in Validation(sch, c.(inLeaf := w1.inLeaf)).errors ==> e in ListItemStep(sch, w1, t, i).errors;
    ErrorsIgnoreInLeaf(sch, c, w1.inLeaf);
  }

  /** A list that is not atomic passes up every leaf of each identified element. */
  lemma ListChildLeavesIncluded(sch: S.Schema, w: Walker, t: S.List, i: nat)
    requires S.Resolve(sch, w.typeRef) == Some(S.ListAtom(t)) && w.value.List?
    requires t.elementRelationship != S.Atomic
    requires i < |w.value.items| && ListItemElement(t, i, w.value.items[i]).Ok?
    ensures forall l :: l in Validation(sch, Descend(w, ListItemElement(t, i, w.value.items[i]).value,
                                                      w.value.items[i], t.elementType)).leaves
                        ==> l in Validation(sch, w).leaves
  {
    var child := w.value.items[i];
    var c := Descend(w, ListItemElement(t, i, child).value, child, t.elementType);
    ListItemsIncludeStep(sch, w, t, |w.value.items|, i);
    assert forall l :: l in Validation(sch, c).leaves ==> l in ListItemStep(sch, w, t, i).leaves;
  }

  // ---------------------------------------------------------------------
  // Maps

  /** Every entry contributes its errors and leaves to the map's outcome. */
  lemma {:induction false} MapItemsIncludeStep(sch: S.Schema, w: Walker, t: S.Map, n: nat, k: nat)
    requires w.value.Map? && k < n <= |w.value.fields|
    ensures forall e :: e in MapItemStep(sch, w, t, k).errors ==> e in MapItemsOutcome(sch, w, t, n).errors
    ensures forall l :: l in MapItemStep(sch, w, t, k).leaves ==> l in MapItemsOutcome(sch, w, t, n).leaves
  {
    if k < n - 1 {
      MapItemsIncludeStep(sch, w, t, n - 1, k);
    }
  }

  /** A map reports nothing at its own path (it has no unknown-field check):
      every error lies beneath one of its entries. */
  lemma MapErrorPlacement(sch: S.Schema, w: Walker, t: S.Map)
    requires S.Resolve(sch, w.typeRef) == Some(S.MapAtom(t)) && w.value.Map?
    ensures forall e :: e in Validation(sch, w).errors ==> e.path != w.path && UnderEntry(w, e.path)
  {
    var w1 := EnterAtom(w, t.elementRelationship).0;
    MapItemsUnder(sch, w1, t, |w.value.fields|);
    assert forall q :: UnderEntry(w1, q) ==> UnderEntry(w, q);
  }

  /** Every entry is validated against the single element type, and its
      errors are reported by the map. */
  lemma MapChildErrorsIncluded(sch: S.Schema, w: Walker, t: S.Map, j: nat)
    requires S.Resolve(sch, w.typeRef) == Some(S.MapAtom(t)) && w.value.Map? && j < |w.value.fields|
    ensures forall e :: e in Validation(sch, Descend(w, FieldName(w.value.fields[j].name),
                                                      w.value.fields[j].value, t.elementType)).errors
                        ==> e in Validation(sch, w).errors
  {
    var w1 := EnterAtom(w, t.elementRelationship).0;
    var item := w.value.fields[j];
    var c := Descend(w, FieldName(item.name), item.value, t.elementType);
    MapItemsIncludeStep(sch, w1, t, |w.value.fields|, j);
    assert MapItemStep(sch, w1, t, j) == Validation(sch, c.(inLeaf := w1.inLeaf));
    ErrorsIgnoreInLeaf(sch, c, w1.inLeaf);
  }
  /** A map that is not atomic passes up every leaf of each entry. */
  lemma MapChildLeavesIncluded(sch: S.Schema, w: Walker, t: S.Map, j: nat)
    requires S.Resolve(sch, w.typeRef) == Some(S.MapAtom(t)) && w.value.Map? && j < |w.value.fields|
    requires t.elementRelationship != S.Atomic
    ensures forall l :: l in Validation(sch, Descend(w, FieldName(w.value.fields[j].name),
                                                      w.value.fields[j].value, t.elementType)).leaves
                        ==> l in Validation(sch, w).leaves
  {
    var item := w.value.fields[j];
    MapItemsIncludeStep(sch, w, t, |w.value.fields|, j);
    assert MapItemStep(sch, w, t, j) == Validation(sch, Descend(w, FieldName(item.name), item.value, t.elementType));
  }

  // ---------------------------------------------------------------------
  // How list elements are identified

  /** In a keyed associative list, null and non-map elements are refused;
      a map element is identified by a key exactly when it holds every
      declared key field, and the key then lists those fields in declaration
      order with the element's values; otherwise the problem names the first
      key field it omits. */
  lemma KeyedElement(t: S.List, i: nat, child: Value)
    requires t.elementRelationship == S.Associative && |t.keys| > 0
    ensures child.Null? ==> ListItemElement(t, i, child) == Err(NullInKeyedList)
    ensures !child.Null? && !child.Map? ==> ListItemElement(t, i, child) == Err(NonMapInKeyedList)
    ensures child.Map? ==>
              (ListItemElement(t, i, child).Ok? <==> forall j :: 0 <= j < |t.keys| ==> Get(child.fields, t.keys[j]).Some?)
    ensures child.Map? && ListItemElement(t, i, child).Ok? ==>
              && ListItemElement(t, i, child).value.Key?
              && var kv := ListItemElement(t, i, child).value.key;
              && |kv| == |t.keys|
              && forall j :: 0 <= j < |t.keys| ==> kv[j] == Field(t.keys[j], Get(child.fields, t.keys[j]).value.value)
    ensures child.Map? && ListItemElement(t, i, child).Err? ==>
              exists j :: 0 <= j < |t.keys| && ListItemElement(t, i, child) == Err(MissingKeyField(t.keys[j]))
                          && Get(child.fields, t.keys[j]).None?
                          && forall k :: 0 <= k < j ==> Get(child.fields, t.keys[k]).Some?
  {
    if child.Map? {
      KeyFieldsExactly(child.fields, t.keys, |t.keys|);
    }
  }

  /** The values of key fields are taken as they are: a key field holding a
      list still identifies the element. */
  lemma KeyValuesAreNotChecked()
    ensures var t := S.List(S.NamedType("item"), S.Associative, ["name"]);
            var child := Map([Field("name", List([]))]);
            ListItemElement(t, 0, child) == Ok(Key([Field("name", List([]))]))
  {
    var t := S.List(S.NamedType("item"), S.Associative, ["name"]);
    var fields := [Field("name", List([]))];
    assert t.keys[0] == "name" && KeyFields(fields, t.keys, 0) == Ok([]);
    assert Get(fields, t.keys[0]) == Some(Field("name", List([])));
    assert [] + [Field(t.keys[0], List([]))] == fields;
    assert KeyFields(fields, t.keys, 1) == Ok([Field("name", List([]))]);
  }

  /** In an associative list without keys (a set), an element is identified
      by its own value, and only scalars can be. */
  lemma SetElement(t: S.List, i: nat, child: Value)
    requires t.elementRelationship == S.Associative && |t.keys| == 0
    ensures ListItemElement(t, i, child).Ok? <==> IsScalar(child)
    ensures IsScalar(child) ==> ListItemElement(t, i, child) == Ok(ValueElement(child))
    ensures child.Map? ==> ListItemElement(t, i, child) == Err(MapInSet)
    ensures child.List? ==> ListItemElement(t, i, child) == Err(ListInSet)
    ensures child.Null? ==> ListItemElement(t, i, child) == Err(NullInSet)
  {
  }

  /** Elements of any other list are identified by their position. */
  lemma IndexedElement(t: S.List, i: nat, child: Value)
    requires t.elementRelationship != S.Associative
    ensures ListItemElement(t, i, child) == Ok(Index(i))
  {
  }

  /** Elements of a non-associative list are never duplicates and never bad. */
  lemma IndexedListHasNoErrorsOfItsOwn(sch: S.Schema, w: Walker, t: S.List)
    requires S.Resolve(sch, w.typeRef) == Some(S.ListAtom(t)) && w.value.List?
    requires t.elementRelationship != S.Associative
    ensures forall e :: e in Validation(sch, w).errors ==> e.path != w.path
  {
    ListErrorPlacement(sch, w, t);
    forall e | e in Validation(sch, w).errors && e.path == w.path
      ensures false
    {
      if e.kind.BadElement? {
        ListBadElement(sch, w, t, e.kind.index, e.kind.problem);
      } else {
        ListDuplicate(sch, w, t, e.kind.key);
      }
    }
  }

  // ---------------------------------------------------------------------
  // From the root

  /** The walk starts outside any big leaf at the empty path, so a matching
      scalar at the root reports the empty path itself as its leaf. */
  lemma RootScalarIsLeaf(tv: TypedValue, t: S.ScalarKind)
    requires S.Resolve(tv.schema, tv.typeRef) == Some(S.Scalar(t)) && ScalarMatches(t, tv.value)
    ensures Validation(tv.schema, StartWalker(tv)) == Outcome([], [[]])
  {
  }

  // ---------------------------------------------------------------------
  // Two small walks

  /** A keyed list whose two elements share a key: one duplicate error at the
      list's path, and both elements are still validated and reported. */
  lemma DuplicateKeysAreReported()
    ensures var itemType := S.Inline(S.UntypedAtom(S.Untyped(S.Unset)));
            var listType := S.Inline(S.ListAtom(S.List(itemType, S.Associative, ["name"])));
            var a := Map([Field("name", String("a"))]);
            var key := Key([Field("name", String("a"))]);
            Validation(S.Schema(map[]), Walker([], List([a, a]), listType, false))
            == Outcome([ValidationError([], DuplicateEntries(key))], [[key], [key]])
  {
    var itemType := S.Inline(S.UntypedAtom(S.Untyped(S.Unset)));
    var t := S.List(itemType, S.Associative, ["name"]);
    var a := Map([Field("name", String("a"))]);
    var key := Key([Field("name", String("a"))]);
    var w := Walker([], List([a, a]), S.Inline(S.ListAtom(t)), false);
    assert Get(a.fields, "name") == Some(Field("name", String("a")));
    assert t.keys[0] == "name" && KeyFields(a.fields, t.keys, 0) == Ok([]);
    assert Get(a.fields, t.keys[0]) == Some(Field("name", String("a")));
    assert [] + [Field(t.keys[0], String("a"))] == [Field("name", String("a"))];
    assert KeyFields(a.fields, t.keys, 1) == Ok([Field("name", String("a"))]);
    assert ListItemElement(t, 0, a) == Ok(key);
    assert ListItemElement(t, 1, a) == Ok(key);
    ObservedKeysStep(t, [a, a], 0);
    assert ObservedKeys(t, [a, a], 1) == {key};
    var c := Descend(w, key, a, itemType);
    assert c.path == [key];
    assert Validation(S.Schema(map[]), c) == Outcome([], [[key]]);
    assert ListItemStep(S.Schema(map[]), w, t, 0) == Outcome([], [[key]]);
    assert ListItemStep(S.Schema(map[]), w, t, 1) == Outcome([ValidationError([], DuplicateEntries(key))], [[key]]);
    assert ListItemsOutcome(S.Schema(map[]), w, t, 1) == Outcome([], [[key]]);
    assert ListItemsOutcome(S.Schema(map[]), w, t, 2) == Outcome([ValidationError([], DuplicateEntries(key))], [[key], [key]]);
  }

  /** A struct declaring `a` given a map with `a` and `b`: the one error names
      `b` at the struct's path, and the declared field is still checked. */
  lemma UnknownFieldIsReported()
    ensures var st := S.Struct([S.StructField("a", S.Inline(S.Scalar(S.StringKind)))], S.Unset);
            var m := Map([Field("a", String("x")), Field("b", Int(1))]);
            Validation(S.Schema(map["st" := S.StructAtom(st)]), Walker([], m, S.NamedType("st"), false))
            == Outcome([ValidationError([], UnknownField("b"))], [[FieldName("a")]])
  {
    var st := S.Struct([S.StructField("a", S.Inline(S.Scalar(S.StringKind)))], S.Unset);
    var fields := [Field("a", String("x")), Field("b", Int(1))];
    var sch := S.Schema(map["st" := S.StructAtom(st)]);
    var w := Walker([], Map(fields), S.NamedType("st"), false);
    assert Get(fields, "a") == Some(Field("a", String("x")));
    assert st.fields[0].name == "a";
    assert DeclaredNames(st.fields, 1) == {"a"};
    var c := Descend(w, FieldName("a"), String("x"), S.Inline(S.Scalar(S.StringKind)));
    assert c.path == [FieldName("a")];
    assert Validation(sch, c) == DoScalar(c, S.StringKind);
    assert StructFieldStep(sch, w, st.fields, 0) == Outcome([], [[FieldName("a")]]);
    assert UnknownFieldErrors([], {"a"}, fields, 2) == [ValidationError([], UnknownField("b"))];
  }
}
