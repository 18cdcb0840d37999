/** `validate_json_schema` of `json_utils.py`: a key-presence check. */
module JsonUtils {
  import opened PyDict
  import opened Values

  /** `[key for key in required_keys if key not in data]`. */
  function MissingKeys(data: Dict<string, Value>, requiredKeys: seq<string>): (missing: seq<string>)
    ensures forall k :: k in missing <==> k in requiredKeys && k !in Keys(data)
  {
    if requiredKeys == [] then []
    else (if requiredKeys[0] in Keys(data) then [] else [requiredKeys[0]]) + MissingKeys(data, requiredKeys[1..])
  }

  /** `validate_json_schema(data, required_keys)`. */
  function ValidateJsonSchema(data: Dict<string, Value>, requiredKeys: seq<string>): (ok: bool)
    ensures ok <==> forall k :: k in requiredKeys ==> k in Keys(data)
    ensures requiredKeys == [] ==> ok
  {
    var missing := MissingKeys(data, requiredKeys);
    assert missing != [] ==> missing[0] in missing;
    missing == []
  }

  /** Only which keys are required matters: not their order, not
      repetitions. */
  lemma SchemaKeySet(data: Dict<string, Value>, a: seq<string>, b: seq<string>)
    requires forall k :: k in a <==> k in b
    ensures ValidateJsonSchema(data, a) == ValidateJsonSchema(data, b)
  {
  }

  /** One missing key is enough to fail, whatever else is required. */
  lemma SchemaMissingKey(data: Dict<string, Value>, requiredKeys: seq<string>, k: string)
    requires k in requiredKeys && k !in Keys(data)
    ensures !ValidateJsonSchema(data, requiredKeys)
  {
  }

  /** Requiring more keys never turns a failure into a success. */
  lemma SchemaMonotone(data: Dict<string, Value>, a: seq<string>, b: seq<string>)
    ensures ValidateJsonSchema(data, a + b) ==> ValidateJsonSchema(data, a) && ValidateJsonSchema(data, b)
  {
    assert forall k :: k in a ==> k in a + b;
    assert forall k :: k in b ==> k in a + b;
  }
}
