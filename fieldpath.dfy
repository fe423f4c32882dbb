/**
 * Field paths: the location of a node in a value tree, as the sequence of
 * steps from the root. Equality of paths is element-wise and variant-aware.
 */
module FieldPath {
  import opened Values

  /** One step from a parent node to a child. */
  datatype PathElement =
    | FieldName(name: string)      // descent into a map or struct field
    | Key(key: seq<Field>)         // descent into a keyed associative-list element
    | ValueElement(value: Value)   // descent into a set element, identified by itself
    | Index(index: nat)            // positional descent into a list element

  /** The empty path denotes the root. */
  type Path = seq<PathElement>

  predicate IsPrefix(p: Path, q: Path) {
    |p| <= |q| && q[..|p|] == p
  }

  /** A path beneath `p + [pe]` is strictly beneath `p`, one step along `pe`. */
  lemma ExtendedPrefix(p: Path, pe: PathElement, q: Path)
    requires IsPrefix(p + [pe], q)
    ensures |q| > |p| && IsPrefix(p, q) && q[|p|] == pe
  {
    assert q[..|p|] == q[..|p| + 1][..|p|];
    assert q[|p|] == q[..|p| + 1][|p|];
  }

  lemma PrefixOfSelf(p: Path)
    ensures IsPrefix(p, p)
  {
    assert p[..|p|] == p;
  }
}
