# Field paths from values: the validator and the extractor

This project models two recursive walks from structured-merge-diff over a
value tree. A value is null, a boolean, an integer, a float, a string, a list
of values, or an ordered map of named fields. Both walks turn the tree into
*field paths*: sequences of path elements, each a field name, a list index,
a key (a sequence of name/value pairs) or a value.

- **The schema-directed validator** (`typed/validate.go`). A walker resolves
  its type reference to an atom: scalar, struct, list, map or untyped. It
  checks the value's shape against the atom and collects every error rather
  than stopping at the first. It also reports the *leaf* paths that the leaf
  callback would receive: scalars, atomic containers and untyped nodes.
  - A list element gets a path element by rule:
    - keyed associative list: a key built from the declared key fields;
    - associative list without keys (a set): the element's own value;
    - any other list: its index.
  - Two elements of one list with the same path element give a duplicate error.
  - An atomic struct, list or map does not stop the walk. Entering one only
    sets the walker's "in a big leaf" flag, so no further leaves are reported
    beneath it. Its children are still validated and their errors returned.
  - Unlike the extractor, the validator can report the empty root path as a
    leaf: a scalar at the root is a leaf at `[]`.
- **The schema-less extractor** (`fieldpath/fromvalue.go`). It walks any
  value and collects every path that ends at null or a scalar, except the
  empty root path. A list element is addressed by a guessed key when it is a
  map with scalar `key`, `id` or `name` fields, and by its index otherwise.

## How the model is built

- `wrappers.dfy`: `Option` and `Result`.
- `values.dfy`: the value tree and the first-match field lookup.
- `fieldpath.dfy`: path elements and paths.
- `schema.dfy`: atoms, type references and their resolution.
- `validate.dfy`: the validator.
- `validate_properties.dfy`: properties of the whole walk:
  - where errors and leaves are reported;
  - the leaf flag silences leaves;
  - the leaf flag never changes errors.
- `validate_theorems.dfy`: what each atom promises, and two worked examples.
- `fromvalue.dfy`: the extractor and its properties.

Each Go loop is a Dafny `method` with a `while` loop. The loops are in
`doStruct`, `doList`, `doMap`, the key building, `walk` and
`GuessBestListPathElement`. Each method is proved equal to a specification
function. That function is a left fold over the first `n` items, the same
value the loop invariant tracks. The properties are lemmas about these
functions.

Go's walker is copied before each descent (`v2 := v`). The model copies it
too, as a datatype value updated with `w.(path := …)`.

The leaf callback is not a closure here. The validator's result, an
`Outcome`, holds the errors and the leaf paths in the order they are
produced. The extractor's `do` callback inserts into a set, which `Walk`
threads through the recursion.

Validation terminates because every recursive call is on a strictly smaller
value. For a struct the child is the one `Get` returns, and
`Values.GetIsSmaller` proves that child smaller than its map.

## Model

| member | source | states |
|---|---|---|
| Values.Get | typed/validate.go:175-179 | a field found by name is one of the map's fields and has that name |
| Values.GetIsFirst | typed/validate.go:175-179 | the lookup fails exactly when no field has the name; otherwise it returns the first field with that name |
| Typed.StartWalker | typed/validate.go:56-63 | the walk starts at the empty path, outside any big leaf, on the value and its type reference |
| ValidateTheorems.RootScalarIsLeaf | typed/validate.go:112-125 | from the start walker, a matching scalar at the root reports the empty path as its one leaf, with no errors |
| Typed.DoLeaf | typed/validate.go:112-125 | afterwards the walker is inside a big leaf; the leaf fires at the walker's path unless it was already inside one |
| Typed.DoScalar | typed/validate.go:127-148 | a matching scalar has no errors and is a leaf unless already in one; a mismatch is exactly one error at the path, with no leaf |
| Typed.DoUntyped | typed/validate.go:334-341 | never an error; a leaf exactly when the relationship is unset or atomic and the walker is not already in a leaf |
| Typed.KeyFieldsExactly | typed/validate.go:210-223 | a key is built exactly when every declared key field is present; it then lists those fields, in declaration order, with the element's values; otherwise the error names the first missing key field |
| Typed.KeyFieldsErrorPersists | typed/validate.go:214-217 | once a key field is missing, the answer stays that field's error (the loop's early return) |
| Typed.KeyedAssociativeListItemToPathElement | typed/validate.go:199-224 | the loop computes the keyed element's answer: null refused, non-map refused, otherwise the key or the first missing key field |
| Typed.SetItemToPathElement | typed/validate.go:226-244 | a set element is accepted exactly when it is a scalar, as its own value; maps, lists and null each get their own error |
| Typed.ListItemToPathElement | typed/validate.go:246-258 | picks the keyed rule, the set rule or the index, by the list's relationship and keys |
| Typed.UnknownFieldErrorsExactly | typed/validate.go:186-191 | unknown-field errors sit at the struct's path and name exactly the map's fields whose names are not declared |
| Typed.Validate | typed/validate.go:88-108 | the method computes the specification: no type found, or dispatch to scalar, struct, list, map or untyped |
| Typed.DoStruct | typed/validate.go:150-197 | the two loops compute the declared fields in schema order, then the unknown-field errors in map order |
| Typed.DoList | typed/validate.go:260-302 | the loop computes the elements' outcomes: bad elements, duplicates against the keys seen so far, and each identified element's validation |
| Typed.DoMap | typed/validate.go:304-332 | the loop computes every entry's validation against the element type |
| ValidateProperties.ValidationUnder | typed/validate.go:88-108 | every error and every leaf lies at or beneath the walker's path |
| ValidateProperties.StructUnder | typed/validate.go:150-197 | a struct reports nothing outside its own subtree |
| ValidateProperties.ListUnder | typed/validate.go:260-302 | a list reports nothing outside its own subtree |
| ValidateProperties.MapUnder | typed/validate.go:304-332 | a map reports nothing outside its own subtree |
| ValidateProperties.StructFieldsUnder | typed/validate.go:170-184 | the declared fields' errors and leaves lie strictly beneath the struct, under a declared field the map holds |
| ValidateProperties.ListItemsUnder | typed/validate.go:280-299 | errors at the list's own path are bad or duplicate elements; everything else lies beneath an element whose path element was built |
| ValidateProperties.MapItemsUnder | typed/validate.go:322-329 | every error and leaf of the entries lies beneath one of the map's entries |
| ValidateProperties.InLeafIsSilent | typed/validate.go:112-125 | a walker already inside a big leaf reports no leaf at any depth |
| ValidateProperties.StructFieldsSilent | typed/validate.go:180-184 | the declared fields of a struct inside a big leaf report no leaf |
| ValidateProperties.ListItemsSilent | typed/validate.go:293-297 | the elements of a list inside a big leaf report no leaf |
| ValidateProperties.MapItemsSilent | typed/validate.go:323-328 | the entries of a map inside a big leaf report no leaf |
| ValidateProperties.ErrorsIgnoreInLeaf | typed/validate.go:112-125 | the errors of a validation are the same whether or not the walker is inside a big leaf |
| ValidateProperties.StructFieldsIgnoreInLeaf | typed/validate.go:180-184 | the declared fields' errors do not depend on the big-leaf flag |
| ValidateProperties.ListItemsIgnoreInLeaf | typed/validate.go:293-297 | list elements' errors do not depend on the big-leaf flag |
| ValidateProperties.MapItemsIgnoreInLeaf | typed/validate.go:323-328 | map entries' errors do not depend on the big-leaf flag |
| ValidateTheorems.UnresolvedTypeIsOneError | typed/validate.go:89-92 | an unresolvable (named) type reference is exactly one error at the path, with no descent and no leaf |
| ValidateTheorems.ScalarCheck | typed/validate.go:127-148 | through dispatch: no errors exactly when the kind matches; a match is a leaf unless already in one; a mismatch is one error and no leaf |
| ValidateTheorems.NumericAdmitsIntAndFloat | typed/validate.go:129-133 | a numeric scalar admits exactly integers and floats |
| ValidateTheorems.UntypedNeverFails | typed/validate.go:334-341 | through dispatch: an untyped node has no errors and is a leaf only for an unset or atomic relationship |
| ValidateTheorems.NullContainerAccepted | typed/validate.go:151-166 | a null struct, list or map has no errors and no descent; it is a leaf only when atomic and not already in a leaf |
| ValidateTheorems.WrongContainerKind | typed/validate.go:151-158 | a value of the wrong kind for a struct, list or map is exactly one error at its path, with no descent and no leaf |
| ValidateTheorems.AtomicContainerFiresOnce | typed/validate.go:160-162 | beneath an atomic struct, list or map the only leaf is the container's own path, or none inside an enclosing big leaf |
| ValidateTheorems.StructRelationshipKeepsErrors | typed/validate.go:160-192 | a struct's errors are the same under every relationship, atomic included |
| ValidateTheorems.MapRelationshipKeepsErrors | typed/validate.go:314-329 | a map's errors are the same under every relationship, atomic included |
| ValidateTheorems.ListRelationshipKeepsErrors | typed/validate.go:270-299 | a list's errors are the same under every non-associative relationship, atomic included |
| ValidateTheorems.MapItemsSameElementType | typed/validate.go:322-329 | map entries are checked against the element type alone |
| ValidateTheorems.ListItemsIndexed | typed/validate.go:256-257 | a non-associative list's elements are checked the same way under any other non-associative relationship with the same element type |
| ValidateTheorems.StructFieldsIncludeStep | typed/validate.go:170-184 | every error and every leaf of each present declared field appears in the struct's outcome |
| ValidateTheorems.StructUnknownField | typed/validate.go:186-191 | an unknown-field error for a name appears at the struct's path exactly when the map has a field of that name and the struct declares none |
| ValidateTheorems.StructErrorPlacement | typed/validate.go:170-191 | errors at a struct's path are unknown-field errors; every other error lies beneath a declared field the map holds, so absent fields contribute nothing |
| ValidateTheorems.StructChildErrorsIncluded | typed/validate.go:174-184 | every error of a present declared field's validation is reported by the struct, atomic or not |
| ValidateTheorems.StructChildLeavesIncluded | typed/validate.go:174-184 | a struct that is not atomic reports every leaf of each present declared field |
| ValidateTheorems.ListItemsIncludeStep | typed/validate.go:280-299 | every error and every leaf of each element's step appears in the list's outcome |
| ValidateTheorems.ListItemsBadElement | typed/validate.go:281-288 | over the first n elements, a bad-element error for i appears exactly when i < n and element i cannot be identified |
| ValidateTheorems.ListItemsDuplicate | typed/validate.go:289-292 | over the first n elements, a duplicate error for a path element appears exactly when two of them are identified by it |
| ValidateTheorems.ListBadElement | typed/validate.go:281-288 | a list reports bad element i, with its problem, exactly when no path element can be built for element i |
| ValidateTheorems.ListDuplicate | typed/validate.go:289-292 | a list reports duplicate entries for a path element exactly when an earlier and a later element are both identified by it |
| ValidateTheorems.ListErrorPlacement | typed/validate.go:280-299 | errors at a list's path are bad or duplicate elements; every other error lies beneath an identified element, so a bad element is skipped |
| ValidateTheorems.ListChildErrorsIncluded | typed/validate.go:293-298 | every identified element, a duplicate included, is validated against the element type and its errors are reported |
| ValidateTheorems.ListChildLeavesIncluded | typed/validate.go:293-298 | a list that is not atomic reports every leaf of each identified element |
| ValidateTheorems.MapItemsIncludeStep | typed/validate.go:322-329 | every error and every leaf of each entry appears in the map's outcome |
| ValidateTheorems.MapErrorPlacement | typed/validate.go:322-329 | a map never reports an error at its own path: there is no unknown-field check, and every error lies beneath an entry |
| ValidateTheorems.MapChildErrorsIncluded | typed/validate.go:322-329 | every entry is validated against the element type under its field name, and its errors are reported |
| ValidateTheorems.MapChildLeavesIncluded | typed/validate.go:322-329 | a map that is not atomic reports every leaf of each entry |
| ValidateTheorems.KeyedElement | typed/validate.go:199-224 | keyed elements: null and non-maps are refused; a map gets a key exactly when it has every key field, in key order with its own values; otherwise the first missing key field |
| ValidateTheorems.KeyValuesAreNotChecked | typed/validate.go:210-222 | a key field holding a list still yields a key: key values are not checked to be scalars |
| ValidateTheorems.SetElement | typed/validate.go:226-244 | in a set, exactly the scalars are accepted, as their own value; maps, lists and null each get their own error |
| ValidateTheorems.IndexedElement | typed/validate.go:256-257 | any other list identifies element i by Index(i) |
| ValidateTheorems.IndexedListHasNoErrorsOfItsOwn | typed/validate.go:246-299 | a non-associative list never reports an error at its own path |
| ValidateTheorems.DuplicateKeysAreReported | typed/validate.go:289-298 | two elements with the same key: one duplicate error at the list's path, and both still fire their leaves |
| ValidateTheorems.UnknownFieldIsReported | typed/validate.go:170-191 | a struct declaring `a` given `a` and `b`: one unknown-field error for `b`, and `a` is still checked and reported |
| FromValue.CandidateKeys | fieldpath/fromvalue.go:106-117 | at most one field per candidate name; a field is gathered exactly when its name is a candidate, it is the map's first field of that name, and its value is a primitive |
| FromValue.BestListPathElement | fieldpath/fromvalue.go:98-122 | a non-map gets its index; a map gets a key exactly when some candidate qualifies, and the key holds exactly the qualifying candidate fields, in the order `key`, `id`, `name`; otherwise its index |
| FromValue.GuessBestListPathElement | fieldpath/fromvalue.go:98-122 | the loop over the candidate names computes that answer |
| FromValue.GuessedKeyOrder | fieldpath/fromvalue.go:87-117 | the key is assembled in candidate order: `key`, then `id`, then `name` |
| FromValue.GuessPutsKeyBeforeName | fieldpath/fromvalue.go:106-117 | a map element with `name` before `key` gets the key `key`, then `name`: candidate order, not field order |
| FromValue.GuessFallsBackToIndex | fieldpath/fromvalue.go:118-121 | a map element with no candidate field gets its index |
| FromValue.GuessUsesNameKey | fieldpath/fromvalue.go:106-120 | a map element with a string `name` gets the key holding that field |
| FromValue.Walk | fieldpath/fromvalue.go:44-83 | the walk adds exactly the specification's leaf paths from its path and value to the set |
| FromValue.SetFromValue | fieldpath/fromvalue.go:24-35 | the set is exactly the leaf paths from the root |
| FromValue.LeafPathsExactly | fieldpath/fromvalue.go:44-83 | a path is emitted exactly when it is non-empty and extends the walker's path, one element per step, down to a node that is neither a list nor a map |
| FromValue.SetFromValueExactly | fieldpath/fromvalue.go:24-83 | the set from a value holds exactly the non-empty paths that reach a leaf from the root |
| FromValue.LeafIsNullOrScalar | fieldpath/fromvalue.go:45-53 | a path that reaches a leaf ends at null or a scalar |
| FromValue.ScalarRootHasNoPaths | fieldpath/fromvalue.go:79-82 | a bare scalar or null at the root yields the empty set |
| FromValue.EmptyContainersHaveNoPaths | fieldpath/fromvalue.go:55-76 | empty lists and empty maps contribute no paths |

## Left out

- Error messages. Errors carry a path and an abstract kind, not a formatted
  string. The renderings in `ValidationError.Error` and `ValidationErrors.Error`
  (typed/validate.go:36-54) and `HumanReadable` are not modelled. The wrong-kind
  message in `doMap` reads "expected list" (typed/validate.go:311). The model
  records that error as `ExpectedMap`.
- ValidateTheorems.ListDuplicate: duplicates are compared as path elements,
  not by their string form (typed/validate.go:289). The two agree only when
  the string form is injective. `PathElement.String` is not part of this model.
- Schema resolution. `schema.Resolve` is not part of this model. A type
  reference is an inline atom, or a name looked up in a finite map of atoms.
  A missing name is the failure case.
- Field lookup. `value.Map.Get` is not part of this model. It is modelled as
  the first field with a matching name.
- Sets of paths. `fieldpath.Set` (`NewSet`, `Insert`) is a Dafny `set` of paths.
- Floats are an opaque 64-bit payload with no numeric semantics.
- Integer width. Go's `int` indices are unbounded naturals, with no overflow.
- Other scalar kinds. Only numeric, string and boolean are modelled. Go
  accepts any other scalar string as a leaf without a check.
- Unrepresentable Go states. They disappear with proper sum types:
  - an atom with no variant set, which is the "invalid atom" error
    (typed/validate.go:107);
  - a value with no variant set, which `walk` treats as a leaf
    (fieldpath/fromvalue.go:45-53).
- Unions. The "Check unions" placeholder (typed/validate.go:194) does nothing.
- Callbacks. `leafFieldCallback` and `do` are function-valued fields; they
  are replaced by the leaves in the result and by the threaded set.
  - A nil `leafFieldCallback` is the case where the caller ignores the leaves.
- Pointer receivers. `doLeaf` updates the walker through a pointer; the model
  returns the updated walker instead.
- Slice aliasing. No sharing between `append(v.path, …)` results is modelled:
  paths are values.
- Shared loop variable in `walk`. `FieldName` path elements for map children
  point at the `range` variable's name field (fieldpath/fromvalue.go:70-72).
  Every iteration reuses that variable. The model gives each path its own
  field name, so it assumes that `Set.Insert` copies the name rather than
  keeping the pointer. `fieldpath.Set` is not part of this model.
