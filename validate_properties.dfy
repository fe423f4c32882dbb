/**
 * Properties of the schema-directed validator, stated about the
 * specification functions that the walk's methods are proved to compute.
 */
module ValidateProperties {
  import opened Wrappers
  import opened Values
  import opened FieldPath
  import S = Schemas
  import opened Typed

  // ---------------------------------------------------------------------
  // Where errors and leaves are reported

  /** Every error and every leaf of `o` lies at or beneath `p`. */
  ghost predicate UnderPath(o: Outcome, p: Path) {
    && (forall e :: e in o.errors ==> IsPrefix(p, e.path))
    && (forall l :: l in o.leaves ==> IsPrefix(p, l))
  }

  /** `q` lies strictly beneath the struct at `w`, under a declared field the map holds. */
  ghost predicate UnderDeclaredField(w: Walker, fields: seq<S.StructField>, q: Path)
    requires w.value.Map?
  {
    |q| > |w.path| && IsPrefix(w.path, q)
    && exists j :: 0 <= j < |fields| && q[|w.path|] == FieldName(fields[j].name)
                   && Get(w.value.fields, fields[j].name).Some?
  }

  /** `q` lies strictly beneath the list at `w`, under an element whose path element was built. */
  ghost predicate UnderBuiltElement(w: Walker, t: S.List, q: Path)
    requires w.value.List?
  {
    |q| > |w.path| && IsPrefix(w.path, q)
    && exists i :: 0 <= i < |w.value.items| && ListItemElement(t, i, w.value.items[i]) == Ok(q[|w.path|])
  }

  /** `q` lies strictly beneath the map at `w`, under one of its entries. */
  ghost predicate UnderEntry(w: Walker, q: Path)
    requires w.value.Map?
  {
    |q| > |w.path| && IsPrefix(w.path, q)
    && exists j :: 0 <= j < |w.value.fields| && q[|w.path|] == FieldName(w.value.fields[j].name)
  }

  /** Validation reports every error and every leaf at or beneath the walker's path. */
  lemma {:induction false} ValidationUnder(sch: S.Schema, w: Walker)
    ensures UnderPath(Validation(sch, w), w.path)
    decreases w.value, 2, 0
  {
    PrefixOfSelf(w.path);
    match S.Resolve(sch, w.typeRef)
    case None =>
    case Some(a) =>
      match a {
        case Scalar(t) =>
        case UntypedAtom(t) =>
        case StructAtom(t) => StructUnder(sch, w, t);
        case ListAtom(t) => ListUnder(sch, w, t);
        case MapAtom(t) => MapUnder(sch, w, t);
      }
  }

  lemma {:induction false} StructUnder(sch: S.Schema, w: Walker, t: S.Struct)
    ensures UnderPath(StructValidation(sch, w, t), w.path)
    decreases w.value, 1, 0
  {
    PrefixOfSelf(w.path);
    if w.value.Map? {
      var w1 := EnterAtom(w, t.elementRelationship).0;
      StructFieldsUnder(sch, w1, t.fields, |t.fields|);
      UnknownFieldErrorsExactly(w.path, DeclaredNames(t.fields, |t.fields|), w.value.fields, |w.value.fields|);
    }
  }

  lemma {:induction false} ListUnder(sch: S.Schema, w: Walker, t: S.List)
    ensures UnderPath(ListValidation(sch, w, t), w.path)
    decreases w.value, 1, 0
  {
    PrefixOfSelf(w.path);
    if w.value.List? {
      var w1 := EnterAtom(w, t.elementRelationship).0;
      ListItemsUnder(sch, w1, t, |w.value.items|);
    }
  }

  lemma {:induction false} MapUnder(sch: S.Schema, w: Walker, t: S.Map)
    ensures UnderPath(MapValidation(sch, w, t), w.path)
    decreases w.value, 1, 0
  {
    PrefixOfSelf(w.path);
    if w.value.Map? {
      var w1 := EnterAtom(w, t.elementRelationship).0;
      MapItemsUnder(sch, w1, t, |w.value.fields|);
    }
  }

  lemma {:induction false} StructFieldsUnder(sch: S.Schema, w: Walker, fields: seq<S.StructField>, n: nat)
    requires w.value.Map? && n <= |fields|
    ensures forall e :: e in StructFieldsOutcome(sch, w, fields, n).errors ==> UnderDeclaredField(w, fields, e.path)
    ensures forall l :: l in StructFieldsOutcome(sch, w, fields, n).leaves ==> UnderDeclaredField(w, fields, l)
    decreases w.value, 0, n
  {
    if n > 0 {
      StructFieldsUnder(sch, w, fields, n - 1);
      var f := fields[n - 1];
      match Get(w.value.fields, f.name) {
        case None =>
        case Some(child) =>
          GetIsSmaller(w.value.fields, f.name);
          var c := Descend(w, FieldName(f.name), child.value, f.fieldType);
          ValidationUnder(sch, c);
          forall q | IsPrefix(c.path, q) ensures UnderDeclaredField(w, fields, q) {
            ExtendedPrefix(w.path, FieldName(f.name), q);
          }
      }
    }
  }

  lemma {:induction false} ListItemsUnder(sch: S.Schema, w: Walker, t: S.List, n: nat)
    requires w.value.List? && n <= |w.value.items|
    ensures forall e :: e in ListItemsOutcome(sch, w, t, n).errors ==>
              if e.path == w.path then e.kind.BadElement? || e.kind.DuplicateEntries?
              else UnderBuiltElement(w, t, e.path)
    ensures forall l :: l in ListItemsOutcome(sch, w, t, n).leaves ==> UnderBuiltElement(w, t, l)
    decreases w.value, 0, n
  {
    if n > 0 {
      ListItemsUnder(sch, w, t, n - 1);
      var i := n - 1;
      var child := w.value.items[i];
      match ListItemElement(t, i, child) {
        case Err(p) =>
        case Ok(pe) =>
          var c := Descend(w, pe, child, t.elementType);
          ValidationUnder(sch, c);
          forall q | IsPrefix(c.path, q) ensures UnderBuiltElement(w, t, q) && q != w.path {
            ExtendedPrefix(w.path, pe, q);
          }
      }
    }
  }

  lemma {:induction false} MapItemsUnder(sch: S.Schema, w: Walker, t: S.Map, n: nat)
    requires w.value.Map? && n <= |w.value.fields|
    ensures forall e :: e in MapItemsOutcome(sch, w, t, n).errors ==> UnderEntry(w, e.path)
    ensures forall l :: l in MapItemsOutcome(sch, w, t, n).leaves ==> UnderEntry(w, l)
    decreases w.value, 0, n
  {
    if n > 0 {
      MapItemsUnder(sch, w, t, n - 1);
      var item := w.value.fields[n - 1];
      var c := Descend(w, FieldName(item.name), item.value, t.elementType);
      ValidationUnder(sch, c);
      forall q | IsPrefix(c.path, q) ensures UnderEntry(w, q) {
        ExtendedPrefix(w.path, FieldName(item.name), q);
      }
    }
  }

  // ---------------------------------------------------------------------
  // Leaf suppression: the inLeaf flag

  /** Inside a big leaf no further leaf is reported, however deep the walk goes. */
  lemma {:induction false} InLeafIsSilent(sch: S.Schema, w: Walker)
    requires w.inLeaf
    ensures Validation(sch, w).leaves == []
    decreases w.value, 2, 0
  {
    match S.Resolve(sch, w.typeRef)
    case None =>
    case Some(a) =>
      match a {
        case Scalar(t) =>
        case UntypedAtom(t) =>
        case StructAtom(t) =>
          if w.value.Map? {
            StructFieldsSilent(sch, EnterAtom(w, t.elementRelationship).0, t.fields, |t.fields|);
          }
        case ListAtom(t) =>
          if w.value.List? {
            ListItemsSilent(sch, EnterAtom(w, t.elementRelationship).0, t, |w.value.items|);
          }
        case MapAtom(t) =>
          if w.value.Map? {
            MapItemsSilent(sch, EnterAtom(w, t.elementRelationship).0, t, |w.value.fields|);
          }
      }
  }

  lemma {:induction false} StructFieldsSilent(sch: S.Schema, w: Walker, fields: seq<S.StructField>, n: nat)
    requires w.inLeaf && w.value.Map? && n <= |fields|
    ensures StructFieldsOutcome(sch, w, fields, n).leaves == []
    decreases w.value, 0, n
  {
    if n > 0 {
      StructFieldsSilent(sch, w, fields, n - 1);
      var f := fields[n - 1];
      match Get(w.value.fields, f.name) {
        case None =>
        case Some(child) =>
          GetIsSmaller(w.value.fields, f.name);
          InLeafIsSilent(sch, Descend(w, FieldName(f.name), child.value, f.fieldType));
      }
    }
  }

  lemma {:induction false} ListItemsSilent(sch: S.Schema, w: Walker, t: S.List, n: nat)
    requires w.inLeaf && w.value.List? && n <= |w.value.items|
    ensures ListItemsOutcome(sch, w, t, n).leaves == []
    decreases w.value, 0, n
  {
    if n > 0 {
      ListItemsSilent(sch, w, t, n - 1);
      var child := w.value.items[n - 1];
      match ListItemElement(t, n - 1, child) {
        case Err(_) =>
        case Ok(pe) => InLeafIsSilent(sch, Descend(w, pe, child, t.elementType));
      }
    }
  }

  lemma {:induction false} MapItemsSilent(sch: S.Schema, w: Walker, t: S.Map, n: nat)
    requires w.inLeaf && w.value.Map? && n <= |w.value.fields|
    ensures MapItemsOutcome(sch, w, t, n).leaves == []
    decreases w.value, 0, n
  {
    if n > 0 {
      MapItemsSilent(sch, w, t, n - 1);
      var item := w.value.fields[n - 1];
      InLeafIsSilent(sch, Descend(w, FieldName(item.name), item.value, t.elementType));
    }
  }

  /** The errors never depend on the inLeaf flag: being inside a big leaf
      suppresses leaves only, never validation. */
  lemma {:induction false} ErrorsIgnoreInLeaf(sch: S.Schema, w: Walker, b: bool)
    ensures Validation(sch, w.(inLeaf := b)).errors == Validation(sch, w).errors
    decreases w.value, 2, 0
  {
    var w' := w.(inLeaf := b);
    match S.Resolve(sch, w.typeRef)
    case None =>
    case Some(a) =>
      match a {
        case Scalar(t) =>
        case UntypedAtom(t) =>
        case StructAtom(t) =>
          if w.value.Map? {
            var w1 := EnterAtom(w, t.elementRelationship).0;
            var w1' := EnterAtom(w', t.elementRelationship).0;
            assert w1' == w1.(inLeaf := w1'.inLeaf);
            StructFieldsIgnoreInLeaf(sch, w1, t.fields, |t.fields|, w1'.inLeaf);
          }
        case ListAtom(t) =>
          if w.value.List? {
            var w1 := EnterAtom(w, t.elementRelationship).0;
            var w1' := EnterAtom(w', t.elementRelationship).0;
            assert w1' == w1.(inLeaf := w1'.inLeaf);
            ListItemsIgnoreInLeaf(sch, w1, t, |w.value.items|, w1'.inLeaf);
          }
        case MapAtom(t) =>
          if w.value.Map? {
            var w1 := EnterAtom(w, t.elementRelationship).0;
            var w1' := EnterAtom(w', t.elementRelationship).0;
            assert w1' == w1.(inLeaf := w1'.inLeaf);
            MapItemsIgnoreInLeaf(sch, w1, t, |w.value.fields|, w1'.inLeaf);
          }
      }
  }

  lemma {:induction false} StructFieldsIgnoreInLeaf(sch: S.Schema, w: Walker, fields: seq<S.StructField>, n: nat, b: bool)
    requires w.value.Map? && n <= |fields|
    ensures StructFieldsOutcome(sch, w.(inLeaf := b), fields, n).errors == StructFieldsOutcome(sch, w, fields, n).errors
    decreases w.value, 0, n
  {
    if n > 0 {
      StructFieldsIgnoreInLeaf(sch, w, fields, n - 1, b);
      var f := fields[n - 1];
      match Get(w.value.fields, f.name) {
        case None =>
        case Some(child) =>
          GetIsSmaller(w.value.fields, f.name);
          var c := Descend(w, FieldName(f.name), child.value, f.fieldType);
          assert Descend(w.(inLeaf := b), FieldName(f.name), child.value, f.fieldType) == c.(inLeaf := b);
          ErrorsIgnoreInLeaf(sch, c, b);
      }
    }
  }

  lemma {:induction false} ListItemsIgnoreInLeaf(sch: S.Schema, w: Walker, t: S.List, n: nat, b: bool)
    requires w.value.List? && n <= |w.value.items|
    ensures ListItemsOutcome(sch, w.(inLeaf := b), t, n).errors == ListItemsOutcome(sch, w, t, n).errors
    decreases w.value, 0, n
  {
    if n > 0 {
      ListItemsIgnoreInLeaf(sch, w, t, n - 1, b);
      var child := w.value.items[n - 1];
      match ListItemElement(t, n - 1, child) {
        case Err(_) =>
        case Ok(pe) =>
          var c := Descend(w, pe, child, t.elementType);
          assert Descend(w.(inLeaf := b), pe, child, t.elementType) == c.(inLeaf := b);
          ErrorsIgnoreInLeaf(sch, c, b);
      }
    }
  }

  lemma {:induction false} MapItemsIgnoreInLeaf(sch: S.Schema, w: Walker, t: S.Map, n: nat, b: bool)
    requires w.value.Map? && n <= |w.value.fields|
    ensures MapItemsOutcome(sch, w.(inLeaf := b), t, n).errors == MapItemsOutcome(sch, w, t, n).errors
    decreases w.value, 0, n
  {
    if n > 0 {
      MapItemsIgnoreInLeaf(sch, w, t, n - 1, b);
      var item := w.value.fields[n - 1];
      var c := Descend(w, FieldName(item.name), item.value, t.elementType);
      assert Descend(w.(inLeaf := b), FieldName(item.name), item.value, t.elementType) == c.(inLeaf := b);
      ErrorsIgnoreInLeaf(sch, c, b);
    }
  }
}
