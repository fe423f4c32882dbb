/**
 * The schema-directed validator. A walker carries the current path, value,
 * type reference and the "in a big leaf" flag; each step resolves the type
 * reference to an atom and checks the value's shape against it, collecting
 * every error instead of stopping at the first, and reporting the leaf
 * paths (scalars, atomic containers, untyped nodes) that the leaf callback
 * would receive, in the order it would receive them.
 */
module Typed {
  import opened Wrappers
  import opened Values
  import opened FieldPath
  import S = Schemas

  /** What a validation error reports; the message text is not modelled. */
  datatype ErrorKind =
    | NoTypeFound(typeName: string)
    | ExpectedNumeric
    | ExpectedString
    | ExpectedBoolean
    | ExpectedStruct
    | ExpectedList
    | ExpectedMap
    | UnknownField(fieldName: string)
    | BadElement(index: nat, problem: ElementProblem)
    | DuplicateEntries(key: PathElement)

  /** Why no path element could be built for a list element. */
  datatype ElementProblem =
    | NullInKeyedList
    | NonMapInKeyedList
    | MissingKeyField(keyName: string)
    | MapInSet
    | ListInSet
    | NullInSet

  datatype ValidationError = ValidationError(path: Path, kind: ErrorKind)

  type ValidationErrors = seq<ValidationError>

  /** A value bound to a schema and the type reference it should satisfy. */
  datatype TypedValue = TypedValue(value: Value, schema: S.Schema, typeRef: S.TypeRef)

  /** The state of one branch of the walk; recursive steps work on copies. */
  datatype Walker = Walker(path: Path, value: Value, typeRef: S.TypeRef, inLeaf: bool)

  /** What one validation returns: its errors, and the paths handed to the
      leaf callback, both in the order they are produced. */
  datatype Outcome = Outcome(errors: ValidationErrors, leaves: seq<Path>)

  const NoOutcome := Outcome([], [])

  function Then(a: Outcome, b: Outcome): Outcome {
    Outcome(a.errors + b.errors, a.leaves + b.leaves)
  }

  /** The walker a validation of `tv` starts from: the root path, not in a leaf. */
  function StartWalker(tv: TypedValue): (w: Walker)
    ensures w.path == [] && !w.inLeaf
    ensures w.value == tv.value && w.typeRef == tv.typeRef
  {
    Walker([], tv.value, tv.typeRef, false)
  }

  /** The copy of `w` that descends along `pe` into `child`, checked against `t`. */
  function Descend(w: Walker, pe: PathElement, child: Value, t: S.TypeRef): Walker {
    w.(path := w.path + [pe], value := child, typeRef := t)
  }

  /** A single error at the walker's own path. */
  function Error(w: Walker, k: ErrorKind): Outcome {
    Outcome([ValidationError(w.path, k)], [])
  }

  /** doLeaf: enter a big leaf, firing the callback unless already inside one. */
  function DoLeaf(w: Walker): (r: (Walker, seq<Path>))
    ensures r.0 == w.(inLeaf := true)
    ensures r.1 == if w.inLeaf then [] else [w.path]
  {
    (w.(inLeaf := true), if w.inLeaf then [] else [w.path])
  }

  /** The value kinds a scalar kind admits; Numeric admits an integer or a float. */
  predicate ScalarMatches(t: S.ScalarKind, v: Value) {
    match t
    case Numeric => v.Int? || v.Float?
    case StringKind => v.String?
    case BooleanKind => v.Boolean?
  }

  function ScalarMismatch(t: S.ScalarKind): ErrorKind {
    match t
    case Numeric => ExpectedNumeric
    case StringKind => ExpectedString
    case BooleanKind => ExpectedBoolean
  }

  function DoScalar(w: Walker, t: S.ScalarKind): (o: Outcome)
    ensures ScalarMatches(t, w.value) ==> o.errors == [] && o.leaves == (if w.inLeaf then [] else [w.path])
    ensures !ScalarMatches(t, w.value) ==> o == Error(w, ScalarMismatch(t))
  {
    if ScalarMatches(t, w.value) then Outcome([], DoLeaf(w).1)
    else Error(w, ScalarMismatch(t))
  }

  function DoUntyped(w: Walker, t: S.Untyped): (o: Outcome)
    ensures o.errors == []
    ensures o.leaves == if (t.elementRelationship == S.Unset || t.elementRelationship == S.Atomic) && !w.inLeaf
                        then [w.path] else []
  {
    if t.elementRelationship == S.Unset || t.elementRelationship == S.Atomic then Outcome([], DoLeaf(w).1)
    else NoOutcome
  }

  // ---------------------------------------------------------------------
  // Path elements for list items

  /** The key of a keyed element from its first `n` declared key fields, or
      the first key field it omits. */
  function KeyFields(fields: seq<Field>, keys: seq<string>, n: nat): Result<seq<Field>, string>
    requires n <= |keys|
  {
    if n == 0 then Ok([])
    else
      match KeyFields(fields, keys, n - 1)
      case Err(k) => Err(k)
      case Ok(kv) =>
        match Get(fields, keys[n - 1])
        case None => Err(keys[n - 1])
        case Some(f) => Ok(kv + [Field(keys[n - 1], f.value)])
  }

  /** A key is built exactly when every declared key field is present; it then
      holds those fields' values in declaration order, and otherwise the error
      names the first key field that is missing. */
  lemma {:induction false} KeyFieldsExactly(fields: seq<Field>, keys: seq<string>, n: nat)
    requires n <= |keys|
    ensures KeyFields(fields, keys, n).Ok? <==> forall j :: 0 <= j < n ==> Get(fields, keys[j]).Some?
    ensures KeyFields(fields, keys, n).Ok? ==>
              var kv := KeyFields(fields, keys, n).value;
              |kv| == n && forall j :: 0 <= j < n ==> kv[j] == Field(keys[j], Get(fields, keys[j]).value.value)
    ensures KeyFields(fields, keys, n).Err? ==>
              exists j :: 0 <= j < n && keys[j] == KeyFields(fields, keys, n).error && Get(fields, keys[j]).None?
                          && forall i :: 0 <= i < j ==> Get(fields, keys[i]).Some?
  {
    if n > 0 {
      KeyFieldsExactly(fields, keys, n - 1);
    }
  }

  /** Once a key field is missing, the error stays with that field. */
  lemma {:induction false} KeyFieldsErrorPersists(fields: seq<Field>, keys: seq<string>, n: nat, m: nat)
    requires n <= m <= |keys| && KeyFields(fields, keys, n).Err?
    ensures KeyFields(fields, keys, m) == KeyFields(fields, keys, n)
    decreases m - n
  {
    if n < m {
      KeyFieldsErrorPersists(fields, keys, n + 1, m);
    }
  }

  /** keyedAssociativeListItemToPathElement's answer (the index is not used). */
  function KeyedItemElement(keys: seq<string>, child: Value): Result<PathElement, ElementProblem> {
    if child.Null? then Err(NullInKeyedList)
    else if !child.Map? then Err(NonMapInKeyedList)
    else
      match KeyFields(child.fields, keys, |keys|)
      case Ok(kv) => Ok(Key(kv))
      case Err(k) => Err(MissingKeyField(k))
  }

  method KeyedAssociativeListItemToPathElement(list: S.List, index: nat, child: Value)
    returns (r: Result<PathElement, ElementProblem>)
    ensures r == KeyedItemElement(list.keys, child)
  {
    if child.Null? {
      return Err(NullInKeyedList);
    }
    if !child.Map? {
      return Err(NonMapInKeyedList);
    }
    var key: seq<Field> := [];
    var i := 0;
    while i < |list.keys|
      invariant i <= |list.keys|
      invariant KeyFields(child.fields, list.keys, i) == Ok(key)
    {
      var fieldName := list.keys[i];
      var field := Get(child.fields, fieldName);
      if field.None? {
        KeyFieldsErrorPersists(child.fields, list.keys, i + 1, |list.keys|);
        return Err(MissingKeyField(fieldName));
      }
      key := key + [Field(fieldName, field.value.value)];
      i := i + 1;
    }
    return Ok(Key(key));
  }

  /** A set element is identified by its own value; maps, lists and null are refused. */
  function SetItemToPathElement(child: Value): (r: Result<PathElement, ElementProblem>)
    ensures r.Ok? <==> IsScalar(child)
    ensures r.Ok? ==> r.value == ValueElement(child)
    ensures child.Map? ==> r == Err(MapInSet)
    ensures child.List? ==> r == Err(ListInSet)
    ensures child.Null? ==> r == Err(NullInSet)
  {
    if child.Map? then Err(MapInSet)
    else if child.List? then Err(ListInSet)
    else if child.Null? then Err(NullInSet)
    else Ok(ValueElement(child))
  }

  /** listItemToPathElement's answer: a key, the element itself, or its index. */
  function ListItemElement(list: S.List, index: nat, child: Value): Result<PathElement, ElementProblem> {
    if list.elementRelationship == S.Associative then
      if |list.keys| > 0 then KeyedItemElement(list.keys, child)
      else SetItemToPathElement(child)
    else Ok(Index(index))
  }

  method ListItemToPathElement(list: S.List, index: nat, child: Value)
    returns (r: Result<PathElement, ElementProblem>)
    ensures r == ListItemElement(list, index, child)
  {
    if list.elementRelationship == S.Associative {
      if |list.keys| > 0 {
        r := KeyedAssociativeListItemToPathElement(list, index, child);
        return;
      }
      return SetItemToPathElement(child);
    }
    return Ok(Index(index));
  }

  // ---------------------------------------------------------------------
  // The walk, as specification functions

  /** validate: resolve the type reference, then dispatch on the atom. */
  function Validation(sch: S.Schema, w: Walker): Outcome
    decreases w.value, 2, 0
  {
    match S.Resolve(sch, w.typeRef)
    case None => Error(w, NoTypeFound(w.typeRef.name))
    case Some(a) =>
      match a
      case Scalar(t) => DoScalar(w, t)
      case StructAtom(t) => StructValidation(sch, w, t)
      case ListAtom(t) => ListValidation(sch, w, t)
      case MapAtom(t) => MapValidation(sch, w, t)
      case UntypedAtom(t) => DoUntyped(w, t)
  }

  /** The walker after the atomic-leaf step, and the leaf that step fires. */
  function EnterAtom(w: Walker, rel: S.ElementRelationship): (Walker, seq<Path>) {
    if rel == S.Atomic then DoLeaf(w) else (w, [])
  }

  /** The names `t.fields[..n]` declares. */
  function DeclaredNames(fields: seq<S.StructField>, n: nat): set<string>
    requires n <= |fields|
  {
    set j | 0 <= j < n :: fields[j].name
  }

  function StructValidation(sch: S.Schema, w: Walker, t: S.Struct): Outcome
    decreases w.value, 1, 0
  {
    if !(w.value.Null? || w.value.Map?) then Error(w, ExpectedStruct)
    else
      var (w1, leaf) := EnterAtom(w, t.elementRelationship);
      if w.value.Null? then Outcome([], leaf)
      else
        var declared := StructFieldsOutcome(sch, w1, t.fields, |t.fields|);
        var unknown := UnknownFieldErrors(w.path, DeclaredNames(t.fields, |t.fields|), w.value.fields, |w.value.fields|);
        Outcome(declared.errors + unknown, leaf + declared.leaves)
  }

  /** The outcome of the first `n` declared fields of a struct. */
  function StructFieldsOutcome(sch: S.Schema, w: Walker, fields: seq<S.StructField>, n: nat): Outcome
    requires w.value.Map? && n <= |fields|
    decreases w.value, 0, n
  {
    if n == 0 then NoOutcome
    else Then(StructFieldsOutcome(sch, w, fields, n - 1), StructFieldStep(sch, w, fields, n - 1))
  }

  lemma StructFieldsOutcomeStep(sch: S.Schema, w: Walker, fields: seq<S.StructField>, n: nat)
    requires w.value.Map? && n < |fields|
    ensures StructFieldsOutcome(sch, w, fields, n + 1).errors
            == StructFieldsOutcome(sch, w, fields, n).errors + StructFieldStep(sch, w, fields, n).errors
    ensures StructFieldsOutcome(sch, w, fields, n + 1).leaves
            == StructFieldsOutcome(sch, w, fields, n).leaves + StructFieldStep(sch, w, fields, n).leaves
  {
  }

  /** A declared field is validated against its own type when present, and skipped when absent. */
  function StructFieldStep(sch: S.Schema, w: Walker, fields: seq<S.StructField>, i: nat): Outcome
    requires w.value.Map? && i < |fields|
    decreases w.value, 0, i
  {
    var f := fields[i];
    match Get(w.value.fields, f.name)
    case None => NoOutcome
    case Some(child) =>
      GetIsSmaller(w.value.fields, f.name);
      Validation(sch, Descend(w, FieldName(f.name), child.value, f.fieldType))
  }

  /** One error at the struct's path for each of the first `n` map fields not declared. */
  function UnknownFieldErrors(path: Path, allowed: set<string>, fields: seq<Field>, n: nat): ValidationErrors
    requires n <= |fields|
  {
    if n == 0 then []
    else
      UnknownFieldErrors(path, allowed, fields, n - 1)
      + if fields[n - 1].name in allowed then [] else [ValidationError(path, UnknownField(fields[n - 1].name))]
  }

  /** Unknown-field errors sit at the struct's own path and name exactly the
      undeclared fields of the map. */
  lemma {:induction false} UnknownFieldErrorsExactly(path: Path, allowed: set<string>, fields: seq<Field>, n: nat)
    requires n <= |fields|
    ensures forall e :: e in UnknownFieldErrors(path, allowed, fields, n) ==> e.path == path && e.kind.UnknownField?
    ensures forall name :: ValidationError(path, UnknownField(name)) in UnknownFieldErrors(path, allowed, fields, n) <==>
              (exists j :: 0 <= j < n && fields[j].name == name) && name !in allowed
  {
    if n > 0 {
      UnknownFieldErrorsExactly(path, allowed, fields, n - 1);
    }
  }

  function ListValidation(sch: S.Schema, w: Walker, t: S.List): Outcome
    decreases w.value, 1, 0
  {
    if !(w.value.Null? || w.value.List?) then Error(w, ExpectedList)
    else
      var (w1, leaf) := EnterAtom(w, t.elementRelationship);
      if w.value.Null? then Outcome([], leaf)
      else Then(Outcome([], leaf), ListItemsOutcome(sch, w1, t, |w.value.items|))
  }

  /** The path elements built for the first `n` elements of a list. */
  function ObservedKeys(t: S.List, items: seq<Value>, n: nat): set<PathElement>
    requires n <= |items|
  {
    set j | 0 <= j < n && ListItemElement(t, j, items[j]).Ok? :: ListItemElement(t, j, items[j]).value
  }

  lemma ObservedKeysStep(t: S.List, items: seq<Value>, n: nat)
    requires n < |items|
    ensures ObservedKeys(t, items, n + 1)
            == ObservedKeys(t, items, n)
               + if ListItemElement(t, n, items[n]).Ok? then {ListItemElement(t, n, items[n]).value} else {}
  {
  }

  /** The outcome of the first `n` elements of a list. */
  function ListItemsOutcome(sch: S.Schema, w: Walker, t: S.List, n: nat): Outcome
    requires w.value.List? && n <= |w.value.items|
    decreases w.value, 0, n
  {
    if n == 0 then NoOutcome
    else Then(ListItemsOutcome(sch, w, t, n - 1), ListItemStep(sch, w, t, n - 1))
  }

  lemma ListItemsOutcomeStep(sch: S.Schema, w: Walker, t: S.List, n: nat)
    requires w.value.List? && n < |w.value.items|
    ensures ListItemsOutcome(sch, w, t, n + 1).errors
            == ListItemsOutcome(sch, w, t, n).errors + ListItemStep(sch, w, t, n).errors
    ensures ListItemsOutcome(sch, w, t, n + 1).leaves
            == ListItemsOutcome(sch, w, t, n).leaves + ListItemStep(sch, w, t, n).leaves
  {
  }

  /** One list element: an error and nothing more when no path element can be
      built; otherwise a duplicate error when an earlier element had the same
      path element, followed by the element's own validation. */
  function ListItemStep(sch: S.Schema, w: Walker, t: S.List, i: nat): Outcome
    requires w.value.List? && i < |w.value.items|
    decreases w.value, 0, i
  {
    var child := w.value.items[i];
    match ListItemElement(t, i, child)
    case Err(p) => Error(w, BadElement(i, p))
    case Ok(pe) =>
      Then(if pe in ObservedKeys(t, w.value.items, i) then Error(w, DuplicateEntries(pe)) else NoOutcome,
           Validation(sch, Descend(w, pe, child, t.elementType)))
  }

  function MapValidation(sch: S.Schema, w: Walker, t: S.Map): Outcome
    decreases w.value, 1, 0
  {
    if !(w.value.Null? || w.value.Map?) then Error(w, ExpectedMap)
    else
      var (w1, leaf) := EnterAtom(w, t.elementRelationship);
      if w.value.Null? then Outcome([], leaf)
      else Then(Outcome([], leaf), MapItemsOutcome(sch, w1, t, |w.value.fields|))
  }

  /** The outcome of the first `n` entries of a map, all checked against the element type. */
  function MapItemsOutcome(sch: S.Schema, w: Walker, t: S.Map, n: nat): Outcome
    requires w.value.Map? && n <= |w.value.fields|
    decreases w.value, 0, n
  {
    if n == 0 then NoOutcome
    else Then(MapItemsOutcome(sch, w, t, n - 1), MapItemStep(sch, w, t, n - 1))
  }

  lemma MapItemsOutcomeStep(sch: S.Schema, w: Walker, t: S.Map, n: nat)
    requires w.value.Map? && n < |w.value.fields|
    ensures MapItemsOutcome(sch, w, t, n + 1).errors
            == MapItemsOutcome(sch, w, t, n).errors + MapItemStep(sch, w, t, n).errors
    ensures MapItemsOutcome(sch, w, t, n + 1).leaves
            == MapItemsOutcome(sch, w, t, n).leaves + MapItemStep(sch, w, t, n).leaves
  {
  }

  function MapItemStep(sch: S.Schema, w: Walker, t: S.Map, i: nat): Outcome
    requires w.value.Map? && i < |w.value.fields|
    decreases w.value, 0, i
  {
    var item := w.value.fields[i];
    Validation(sch, Descend(w, FieldName(item.name), item.value, t.elementType))
  }

  // ---------------------------------------------------------------------
  // The walk, as the source runs it

  method Validate(sch: S.Schema, w: Walker) returns (o: Outcome)
    ensures o == Validation(sch, w)
    decreases w.value, 2, 0
  {
    var a := S.Resolve(sch, w.typeRef);
    if a.None? {
      return Error(w, NoTypeFound(w.typeRef.name));
    }
    match a.value {
      case Scalar(t) => o := DoScalar(w, t);
      case StructAtom(t) => o := DoStruct(sch, w, t);
      case ListAtom(t) => o := DoList(sch, w, t);
      case MapAtom(t) => o := DoMap(sch, w, t);
      case UntypedAtom(t) => o := DoUntyped(w, t);
    }
  }

  method DoStruct(sch: S.Schema, w: Walker, t: S.Struct) returns (o: Outcome)
    ensures o == StructValidation(sch, w, t)
    decreases w.value, 1, 0
  {
    if !(w.value.Null? || w.value.Map?) {
      return Error(w, ExpectedStruct);
    }
    var v, leaf := w, [];
    if t.elementRelationship == S.Atomic {
      v, leaf := DoLeaf(w).0, DoLeaf(w).1;
    }
    if w.value.Null? {
      return Outcome([], leaf);
    }
    var m := w.value.fields;
    var allowedNames: set<string> := {};
    var errs: ValidationErrors := [];
    var leaves: seq<Path> := [];
    var i := 0;
    while i < |t.fields|
      invariant i <= |t.fields|
      invariant v.path == w.path && v.value == w.value
      invariant allowedNames == DeclaredNames(t.fields, i)
      invariant errs == StructFieldsOutcome(sch, v, t.fields, i).errors
      invariant leaves == StructFieldsOutcome(sch, v, t.fields, i).leaves
    {
      var f := t.fields[i];
      allowedNames := allowedNames + {f.name};
      StructFieldsOutcomeStep(sch, v, t.fields, i);
      var child := Get(m, f.name);
      if child.Some? {
        GetIsSmaller(m, f.name);
        var o2 := Validate(sch, Descend(v, FieldName(f.name), child.value.value, f.fieldType));
        assert StructFieldStep(sch, v, t.fields, i) == o2;
        errs, leaves := errs + o2.errors, leaves + o2.leaves;
      } else {
        assert StructFieldStep(sch, v, t.fields, i) == NoOutcome;
      }
      assert DeclaredNames(t.fields, i + 1) == DeclaredNames(t.fields, i) + {f.name};
      i := i + 1;
    }
    ghost var declaredErrs := errs;
    var j := 0;
    while j < |m|
      invariant j <= |m|
      invariant errs == declaredErrs + UnknownFieldErrors(w.path, allowedNames, m, j)
    {
      if m[j].name !in allowedNames {
        errs := errs + [ValidationError(w.path, UnknownField(m[j].name))];
      }
      j := j + 1;
    }
    return Outcome(errs, leaf + leaves);
  }

  method DoList(sch: S.Schema, w: Walker, t: S.List) returns (o: Outcome)
    ensures o == ListValidation(sch, w, t)
    decreases w.value, 1, 0
  {
    if !(w.value.Null? || w.value.List?) {
      return Error(w, ExpectedList);
    }
    var v, leaf := w, [];
    if t.elementRelationship == S.Atomic {
      v, leaf := DoLeaf(w).0, DoLeaf(w).1;
    }
    if w.value.Null? {
      return Outcome([], leaf);
    }
    var items := w.value.items;
    var observedKeys: set<PathElement> := {};
    var errs: ValidationErrors := [];
    var leaves: seq<Path> := [];
    var i := 0;
    while i < |items|
      invariant i <= |items|
      invariant v.path == w.path && v.value == w.value
      invariant observedKeys == ObservedKeys(t, items, i)
      invariant errs == ListItemsOutcome(sch, v, t, i).errors
      invariant leaves == ListItemsOutcome(sch, v, t, i).leaves
    {
      var child := items[i];
      var pe := ListItemToPathElement(t, i, child);
      ListItemsOutcomeStep(sch, v, t, i);
      if pe.Err? {
        assert ListItemStep(sch, v, t, i) == Error(v, BadElement(i, pe.error));
        errs := errs + [ValidationError(w.path, BadElement(i, pe.error))];
      } else {
        ghost var dup := if pe.value in observedKeys then Error(v, DuplicateEntries(pe.value)) else NoOutcome;
        if pe.value in observedKeys {
          errs := errs + [ValidationError(w.path, DuplicateEntries(pe.value))];
        }
        var o2 := Validate(sch, Descend(v, pe.value, child, t.elementType));
        assert ListItemStep(sch, v, t, i) == Then(dup, o2);
        errs, leaves := errs + o2.errors, leaves + o2.leaves;
        observedKeys := observedKeys + {pe.value};
      }
      ObservedKeysStep(t, items, i);
      i := i + 1;
    }
    return Outcome(errs, leaf + leaves);
  }

  method DoMap(sch: S.Schema, w: Walker, t: S.Map) returns (o: Outcome)
    ensures o == MapValidation(sch, w, t)
    decreases w.value, 1, 0
  {
    if !(w.value.Null? || w.value.Map?) {
      return Error(w, ExpectedMap);
    }
    var v, leaf := w, [];
    if t.elementRelationship == S.Atomic {
      v, leaf := DoLeaf(w).0, DoLeaf(w).1;
    }
    if w.value.Null? {
      return Outcome([], leaf);
    }
    var items := w.value.fields;
    var errs: ValidationErrors := [];
    var leaves: seq<Path> := [];
    var i := 0;
    while i < |items|
      invariant i <= |items|
      invariant v.path == w.path && v.value == w.value
      invariant errs == MapItemsOutcome(sch, v, t, i).errors
      invariant leaves == MapItemsOutcome(sch, v, t, i).leaves
    {
      var item := items[i];
      MapItemsOutcomeStep(sch, v, t, i);
      var o2 := Validate(sch, Descend(v, FieldName(item.name), item.value, t.elementType));
      errs, leaves := errs + o2.errors, leaves + o2.leaves;
      i := i + 1;
    }
    return Outcome(errs, leaf + leaves);
  }
}
