/**
 * The decoded value tree that both walkers read: a tagged union of null,
 * boolean, integer, float, string, list and map. A map is an ordered sequence
 * of named fields (insertion order is kept, but walkers look fields up by name).
 */
module Values {
  import opened Wrappers

  /** A float is an opaque payload (its IEEE-754 bit pattern); no arithmetic
      on it is modelled. */
  type FloatBits = bv64

  datatype Value =
    | Null
    | Boolean(b: bool)
    | Int(i: int)
    | Float(bits: FloatBits)
    | String(s: string)
    | List(items: seq<Value>)
    | Map(fields: seq<Field>)

  datatype Field = Field(name: string, value: Value)

  /** A scalar is a boolean, number or string: neither null nor a container. */
  predicate IsScalar(v: Value) {
    v.Boolean? || v.Int? || v.Float? || v.String?
  }

  /** The first field of `fields` called `name`, if any (value.Map.Get). */
  function Get(fields: seq<Field>, name: string): (r: Option<Field>)
    ensures r.Some? ==> r.value in fields && r.value.name == name
  {
    if |fields| == 0 then None
    else if fields[0].name == name then Some(fields[0])
    else Get(fields[1..], name)
  }

  /** Get finds a field exactly when one has the name, and then the first such field. */
  lemma {:induction false} GetIsFirst(fields: seq<Field>, name: string)
    ensures Get(fields, name).None? <==> forall j :: 0 <= j < |fields| ==> fields[j].name != name
    ensures Get(fields, name).Some? ==>
              exists k :: 0 <= k < |fields| && fields[k] == Get(fields, name).value
                          && forall j :: 0 <= j < k ==> fields[j].name != name
  {
    if |fields| > 0 && fields[0].name != name {
      GetIsFirst(fields[1..], name);
      var r := Get(fields[1..], name);
      if r.Some? {
        var k :| 0 <= k < |fields| - 1 && fields[1..][k] == r.value
                 && forall j :: 0 <= j < k ==> fields[1..][j].name != name;
        assert fields[k + 1] == r.value;
        forall j | 0 <= j < k + 1 ensures fields[j].name != name {
          if j > 0 { assert fields[j] == fields[1..][j - 1]; }
        }
      } else {
        forall j | 0 <= j < |fields| ensures fields[j].name != name {
          if j > 0 { assert fields[j] == fields[1..][j - 1]; }
        }
      }
    }
  }

  /** A field found by Get is strictly smaller than the map holding it. */
  lemma GetIsSmaller(fields: seq<Field>, name: string)
    requires Get(fields, name).Some?
    ensures Get(fields, name).value.value < Map(fields)
  {
    var k :| 0 <= k < |fields| && fields[k] == Get(fields, name).value;
    assert fields[k].value < fields[k];
  }
}
