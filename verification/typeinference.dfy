/** Field-type inference (src/wfs20/util.py `is_type`, `is_field_type`). */
module TypeInference {
  import opened Wrappers

  /** The Python type `is_type` reports for an element's text: `int`,
      `float`, `str`, or anything else (`NoneType`, `tuple`, ...). */
  datatype PyType = Int | Float | Str | Other

  /** `is_type`, which evaluates the text as a Python expression, taken as
      a given classifier of `.text` values. A missing text cannot be
      evaluated and is kept as `None`, whose type is `NoneType`. */
  type Classifier = c: Option<string> -> PyType | c(None) == Other
    witness (t: Option<string>) => Other

  /** `is_field_type(lst)`: str if any observation is str, otherwise float
      if any is float, otherwise int (also for an empty list or a list of
      other types). */
  function FieldType(obs: seq<PyType>): (t: PyType)
    ensures t != Other
    ensures t == Str <==> Str in obs
    ensures t == Float <==> Str !in obs && Float in obs
    ensures t == Int <==> Str !in obs && Float !in obs
  {
    var numeric := if Float in obs then Float else Int;
    if Str in obs then Str else numeric
  }

  /** Aggregating in two batches agrees with aggregating everything at once. */
  lemma FieldTypeConcat(a: seq<PyType>, b: seq<PyType>)
    ensures FieldType(a + b) == FieldType([FieldType(a), FieldType(b)])
  {
  }

  /** Adding observations already seen does not change the type. */
  lemma FieldTypeIdempotent(a: seq<PyType>, b: seq<PyType>)
    requires forall x :: x in b ==> x in a
    ensures FieldType(a + b) == FieldType(a)
  {
  }

  /** A single inferred type aggregates to itself. */
  lemma FieldTypeSingleton(t: PyType)
    requires t != Other
    ensures FieldType([t]) == t
  {
  }
}
