/** Scalar coercion (src/lib/transformers/booleanify.js, numberify.js), as applied by the
    query-string decoder. */
module Transformers {

  /** A decoded query value: text, a number, or a boolean. A number keeps the text it was
      read from, because `Number()` parsing is not modelled. */
  datatype Value = Str(s: string) | Num(source: string) | Bool(b: bool)

  /** `isNumeric` (src/util/isNumeric.js) rests on JavaScript's `Number()` and `NaN`, so it is
      a parameter; the one fact kept about it is that the empty string is not numeric. */
  type NumericTest = f: string -> bool | !f("") witness (s: string) => false

  /** `booleanify`: exactly the strings `'true'` and `'false'` become booleans; everything
      else, including `'True'`, `'1'`, `''`, numbers and booleans, passes through. */
  function Booleanify(v: Value): (r: Value)
    ensures r.Bool? <==> v == Str("true") || v == Str("false") || v.Bool?
    ensures r == Bool(true) <==> v == Str("true") || v == Bool(true)
    ensures v != Str("true") && v != Str("false") ==> r == v
  {
    if v == Str("true") then Bool(true)
    else if v == Str("false") then Bool(false)
    else v
  }

  /** Applying `booleanify` twice is applying it once. */
  lemma BooleanifyIdempotent(v: Value)
    ensures Booleanify(Booleanify(v)) == Booleanify(v)
  {
  }

  /** The comparison is exact and case-sensitive. */
  lemma BooleanifyPassesThrough()
    ensures Booleanify(Str("True")) == Str("True")
    ensures Booleanify(Str("1")) == Str("1")
    ensures Booleanify(Str("")) == Str("")
    ensures Booleanify(Num("1")) == Num("1")
  {
  }

  /** `numberify`: numeric text becomes a number, other text is kept. */
  function Numberify(text: string, isNumeric: NumericTest): (r: Value)
    ensures r.Num? <==> isNumeric(text)
    ensures r.Num? ==> r.source == text
    ensures !isNumeric(text) ==> r == Str(text)
  {
    if isNumeric(text) then Num(text) else Str(text)
  }

  /** `booleanify(numberify(text))`: numeric coercion is tried first, then boolean
      coercion on whatever it left; the empty string stays a string. */
  function Coerce(text: string, isNumeric: NumericTest): (r: Value)
    ensures isNumeric(text) ==> r == Num(text)
    ensures !isNumeric(text) ==>
              r == (if text == "true" then Bool(true) else if text == "false" then Bool(false) else Str(text))
    ensures text == "" ==> r == Str("")
  {
    Booleanify(Numberify(text, isNumeric))
  }
}
