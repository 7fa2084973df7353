/**
 * The later form of the field-name cache, `fieldIndexMap.go`: a name maps to
 * the descriptor of the field (`*reflect.StructField`) rather than to its
 * index, and a type that is not a struct has no map at all (a nil map).
 */
module FieldIndexMap {
  import opened Base
  import opened Reflect
  import Indices = Decoder

  /** What `structType.Field(i)` describes: the field and its position in the struct. */
  datatype StructField = StructField(field: Field, index: nat)

  /** The map `fieldIndexMap` builds: each field's descriptor under its wire name, later fields overwriting earlier ones. */
  function DescriptorMap(fs: seq<Field>): (m: map<Bytes, StructField>)
    ensures forall k | k in m :: m[k].index < |fs| && m[k].field == fs[m[k].index]
    decreases |fs|
  {
    if fs == [] then map[]
    else DescriptorMap(fs[..|fs| - 1])[WireName(fs[|fs| - 1]) := StructField(fs[|fs| - 1], |fs| - 1)]
  }

  /** Adding one more field to the map. */
  lemma DescriptorMapStep(fs: seq<Field>, i: nat)
    requires i < |fs|
    ensures DescriptorMap(fs[..i + 1]) == DescriptorMap(fs[..i])[WireName(fs[i]) := StructField(fs[i], i)]
  {
    assert fs[..i + 1][..i] == fs[..i];
  }

  /**
   * The two forms of the cache agree: the same names, and the descriptor of a
   * name is that of the field whose index the earlier map gives.
   */
  lemma {:induction false} DescriptorMapAgreesWithIndexMap(fs: seq<Field>)
    ensures DescriptorMap(fs).Keys == Indices.IndexMap(fs).Keys
    ensures forall k | k in DescriptorMap(fs) ::
      DescriptorMap(fs)[k] == StructField(fs[Indices.IndexMap(fs)[k]], Indices.IndexMap(fs)[k])
    decreases |fs|
  {
    if fs != [] {
      var fs' := fs[..|fs| - 1];
      DescriptorMapAgreesWithIndexMap(fs');
      forall k | k in DescriptorMap(fs)
        ensures DescriptorMap(fs)[k] == StructField(fs[Indices.IndexMap(fs)[k]], Indices.IndexMap(fs)[k])
      {
        if k != WireName(fs[|fs| - 1]) {
          assert fs'[Indices.IndexMap(fs')[k]] == fs[Indices.IndexMap(fs')[k]];
        }
      }
    }
  }

  /**
   * The keys of the map are exactly the wire names of the fields, and a name
   * maps to the descriptor of the last field carrying it.
   */
  lemma DescriptorMapLastWins(fs: seq<Field>)
    ensures DescriptorMap(fs).Keys == set j | 0 <= j < |fs| :: WireName(fs[j])
    ensures forall k | k in DescriptorMap(fs) ::
      WireName(DescriptorMap(fs)[k].field) == k
      && forall j | DescriptorMap(fs)[k].index < j < |fs| :: WireName(fs[j]) != k
  {
    DescriptorMapAgreesWithIndexMap(fs);
    Indices.IndexMapKeys(fs);
    Indices.IndexMapLastWins(fs);
  }

  class Decoder {
    /** The cache: the descriptor map of every struct type met so far. */
    var types: map<Type, map<Bytes, StructField>>

    /** Only struct types are cached, each with the map its fields call for. */
    ghost predicate Valid()
      reads this
    {
      forall t | t in types :: t.Struct? && types[t] == DescriptorMap(t.fields)
    }

    /** A decoder with an empty cache. */
    constructor ()
      ensures Valid() && types == map[]
    {
      types := map[];
    }

    /**
     * The descriptor map of `t`: none (Go's nil map) when `t` is not a
     * struct, and then the cache is left alone; else the cached map when
     * there is one, else a new one, which is cached. Either way a struct's map
     * is `DescriptorMap` of its fields, so a second call returns the same map.
     */
    method FieldIndexMap(t: Type) returns (r: Option<map<Bytes, StructField>>)
      requires Valid()
      modifies this
      ensures Valid()
      ensures t.NonStruct? ==> r == None && types == old(types)
      ensures t.Struct? ==> r == Some(DescriptorMap(t.fields)) && types == old(types)[t := DescriptorMap(t.fields)]
      ensures t in old(types) ==> types == old(types)
    {
      if !t.Struct? {
        return None;
      }

      if t in types {
        r := Some(types[t]);
        assert types[t := types[t]] == types;
        return;
      }

      var fields := map[];
      var i := 0;
      while i < |t.fields|
        invariant 0 <= i <= |t.fields|
        invariant fields == DescriptorMap(t.fields[..i])
        invariant unchanged(this)
      {
        var field := t.fields[i];
        var jsonName := field.jsonTag;
        DescriptorMapStep(t.fields, i);
        if jsonName != [] {
          var comma := IndexByte(jsonName, Comma);
          if comma != -1 {
            jsonName := jsonName[..comma];
          }
          fields := fields[jsonName := StructField(field, i)];
        } else {
          fields := fields[field.name := StructField(field, i)];
        }
        i := i + 1;
      }
      assert t.fields[..|t.fields|] == t.fields;
      types := types[t := fields];
      r := Some(fields);
    }
  }
}
