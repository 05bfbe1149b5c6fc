/** JSON values as the guest manipulates them (serde_json's `Value`), and the
    property-merging helper of rust/src/lib.rs.

    JSON text is opaque to the model: a `Codec` stands for the serializer and
    parser that the guest (serde_json) and the hosts (System.Text.Json,
    `JSON.parse` / `JSON.stringify`) bring with them.
 */
module Json {
  import opened Outcomes
  import Utf8

  datatype JVal =
    | JNull
    | JBool(b: bool)
    | JNum(n: int)
    | JStr(s: string)
    | JArr(items: seq<JVal>)
    | JObj(fields: map<string, JVal>)

  /** A JSON text serializer and parser, supplied from outside the model. */
  datatype Codec = Codec(parse: string -> Option<JVal>, serialize: JVal -> string)

  /** What the model assumes of the JSON libraries: serializing yields
      non-empty text that does not begin with a byte-order mark (section 8.1 of
      RFC 8259 forbids one), and parsing serialized text gives the value back.
      The last law holds only within the libraries' number range and nesting
      depth, which `JVal` does not bound. */
  ghost predicate Lawful(codec: Codec)
  {
    forall v :: |codec.serialize(v)| > 0 && codec.serialize(v)[0] != Utf8.Bom && codec.parse(codec.serialize(v)) == Some(v)
  }

  /** The keys a value contributes to a merge: its fields if it is an object, none otherwise. */
  function Fields(v: JVal): map<string, JVal>
  {
    if v.JObj? then v.fields else map[]
  }

  /** Reference definition of the merge: an object whose entries are those of
      `overrides`, plus those of `base` whose key `overrides` does not have. */
  function Overlay(base: JVal, overrides: JVal): JVal
  {
    JObj(Fields(base) + Fields(overrides))
  }

  /** `merge_json_values`: copy every entry of `base` (if it is an object) into a
      fresh map, then insert every entry of `overrides` (if it is an object),
      overwriting. The iteration order of the source's maps does not matter. */
  method MergeJsonValues(base: JVal, overrides: JVal) returns (r: JVal)
    ensures r.JObj?
    ensures r.fields.Keys == Fields(base).Keys + Fields(overrides).Keys
    ensures forall k :: k in Fields(overrides) ==> r.fields[k] == Fields(overrides)[k]
    ensures forall k :: k in Fields(base) && k !in Fields(overrides) ==> r.fields[k] == Fields(base)[k]
    ensures r == Overlay(base, overrides)
  {
    var result: map<string, JVal> := map[];
    if base.JObj? {
      var todo := base.fields.Keys;
      while todo != {}
        invariant todo <= base.fields.Keys
        invariant result.Keys == base.fields.Keys - todo
        invariant forall k :: k in result ==> result[k] == base.fields[k]
        decreases todo
      {
        var k :| k in todo;
        result := result[k := base.fields[k]];
        todo := todo - {k};
      }
    }
    ghost var fromBase := result;
    assert fromBase == Fields(base);
    if overrides.JObj? {
      var todo := overrides.fields.Keys;
      while todo != {}
        invariant todo <= overrides.fields.Keys
        invariant result.Keys == fromBase.Keys + (overrides.fields.Keys - todo)
        invariant forall k :: k in overrides.fields && k !in todo ==> result[k] == overrides.fields[k]
        invariant forall k :: k in result && (k !in overrides.fields || k in todo) ==> result[k] == fromBase[k]
        decreases todo
      {
        var k :| k in todo;
        result := result[k := overrides.fields[k]];
        todo := todo - {k};
      }
    }
    r := JObj(result);
  }

  /** A value that is not an object contributes nothing; two such values merge to `{}`. */
  lemma OverlayOfNonObjects(base: JVal, overrides: JVal)
    requires !base.JObj? && !overrides.JObj?
    ensures Overlay(base, overrides) == JObj(map[])
  {
  }

  /** Merging is associative, so layering defaults, then user properties, then
      more overrides does not depend on how the layers are grouped. */
  lemma OverlayAssociative(a: JVal, b: JVal, c: JVal)
    ensures Overlay(Overlay(a, b), c) == Overlay(a, Overlay(b, c))
  {
  }

  /** Re-applying the same overrides changes nothing. */
  lemma OverlayIdempotent(base: JVal, overrides: JVal)
    ensures Overlay(Overlay(base, overrides), overrides) == Overlay(base, overrides)
  {
  }
}
