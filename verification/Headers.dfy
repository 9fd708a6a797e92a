/**
 The header dictionary of `http_message`: the values of a header, replacing them, and looking
 one up.
 */
module Headers {
  import opened Bytes
  import opened HeaderMachine

  /** All values of a header, in order. */
  function Values(fields: seq<Field>, name: string): seq<string> {
    if fields == [] then []
    else (if IEquals(fields[0].name, name) then [fields[0].value] else []) + Values(fields[1..], name)
  }

  function Without(fields: seq<Field>, name: string): seq<Field> {
    if fields == [] then []
    else (if IEquals(fields[0].name, name) then [] else [fields[0]]) + Without(fields[1..], name)
  }

  /** `change_value`: the first occurrence gets the value and the others go; a missing one is added. */
  function ChangeValue(fields: seq<Field>, name: string, value: string): seq<Field> {
    if fields == [] then [Field(name, value)]
    else if IEquals(fields[0].name, name) then [Field(fields[0].name, value)] + Without(fields[1..], name)
    else [fields[0]] + ChangeValue(fields[1..], name, value)
  }

  lemma {:induction false} ValuesOfWithout(fields: seq<Field>, name: string, other: string)
    ensures Values(Without(fields, name), name) == []
    ensures !IEquals(other, name) ==> Values(Without(fields, name), other) == Values(fields, other)
  {
    if fields != [] {
      ValuesOfWithout(fields[1..], name, other);
      var f, rest := fields[0], Without(fields[1..], name);
      assert ([f] + rest)[1..] == rest && [] + rest == rest;
      assert !IEquals(other, name) && IEquals(f.name, name) ==> !IEquals(f.name, other);
    }
  }

  /** After a change there is exactly one value, and every other header is as before. */
  lemma {:induction false} ChangeValueSets(fields: seq<Field>, name: string, value: string, other: string)
    ensures Values(ChangeValue(fields, name, value), name) == [value]
    ensures !IEquals(other, name) ==> Values(ChangeValue(fields, name, value), other) == Values(fields, other)
  {
    if fields == [] {
      assert IEquals(name, name);
      assert [Field(name, value)][1..] == [];
    } else {
      var f := fields[0];
      if IEquals(f.name, name) {
        ValuesOfWithout(fields[1..], name, other);
        var g, rest := Field(f.name, value), Without(fields[1..], name);
        assert ([g] + rest)[1..] == rest;
        assert !IEquals(other, name) ==> !IEquals(f.name, other);
      } else {
        ChangeValueSets(fields[1..], name, value, other);
        var rest := ChangeValue(fields[1..], name, value);
        assert ([f] + rest)[1..] == rest;
      }
    }
  }

  lemma {:induction false} ValuesAppend(a: seq<Field>, b: seq<Field>, name: string)
    ensures Values(a + b, name) == Values(a, name) + Values(b, name)
    decreases |a|
  {
    if a == [] {
      assert a + b == b;
    } else {
      assert (a + b)[0] == a[0] && (a + b)[1..] == a[1..] + b;
      ValuesAppend(a[1..], b, name);
      Assoc(if IEquals(a[0].name, name) then [a[0].value] else [], Values(a[1..], name), Values(b, name));
    }
  }

  lemma ValuesOfOne(f: Field, name: string)
    ensures Values([f], name) == if IEquals(f.name, name) then [f.value] else []
  {
    assert [f][1..] == [];
  }

  // Looking a header up.

  type Lookup = (seq<Field>, string) -> Option<string>

  /**
   The law of `find` on an `unordered_multimap`: it finds one of the values if there is any.
   Which one it finds among several is left open.
   */
  ghost predicate FindsOne(find: Lookup) {
    forall fields, name ::
      var v := find(fields, name);
      if v.None? then Values(fields, name) == [] else v.value in Values(fields, name)
  }

  /** `get_header`: the empty string when the header is missing. */
  function Get(find: Lookup, fields: seq<Field>, name: string): string {
    var v := find(fields, name);
    if v.None? then "" else v.value
  }

  /** Every value of the header is `v`, and there is one. */
  predicate Says(fields: seq<Field>, name: string, v: string) {
    Values(fields, name) != [] && forall k | 0 <= k < |Values(fields, name)| :: Values(fields, name)[k] == v
  }

  /** Then every lookup finds `v`. */
  lemma LookupFinds(find: Lookup, fields: seq<Field>, name: string, v: string)
    requires FindsOne(find) && Says(fields, name, v)
    ensures find(fields, name) == Some(v)
  {
    assert find(fields, name).Some?;
  }
}
