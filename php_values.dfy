/**
 * Request-body values as `json_decode($input, true)` hands them to the
 * handlers, and the PHP operations the handlers apply to them: `empty`,
 * the string conversion done when a value is bound to a statement or
 * passed to a string function, `ctype_digit`, and loose `==` against a
 * non-numeric string literal (what `in_array` without `strict` uses).
 */
module PhpValues {
  import opened Text
  import opened Wrappers

  /**
   * A decoded JSON value. JSON objects become PHP arrays with string keys
   * (`JObject`); JSON lists become lists (`JArray`).
   */
  datatype Json =
    | JNull
    | JBool(b: bool)
    | JInt(i: int)
    | JString(s: string)
    | JArray(items: seq<Json>)
    | JObject(fields: map<string, Json>)

  /**
   * `$data[key]` for the request body: a missing key, and any body that is
   * not an object (invalid JSON decodes to null), read as null. Every such
   * read in the handlers sits inside `empty` or `isset`, which do not raise.
   */
  function Field(body: Json, key: string): Json
  {
    if body.JObject? && key in body.fields then body.fields[key] else JNull
  }

  /** PHP `empty`: null, false, 0, "", "0" and the empty array. */
  predicate Empty(v: Json)
  {
    match v
    case JNull => true
    case JBool(b) => !b
    case JInt(i) => i == 0
    case JString(s) => s == "" || s == "0"
    case JArray(items) => items == []
    case JObject(fields) => fields == map[]
  }

  /**
   * PHP's conversion to string, as done when a value is bound to a prepared
   * statement: true is "1", false and null are "", an array is "Array".
   */
  function PhpString(v: Json): string
  {
    match v
    case JNull => ""
    case JBool(b) => if b then "1" else ""
    case JInt(i) => IntToString(i)
    case JString(s) => s
    case JArray(_) => "Array"
    case JObject(_) => "Array"
  }

  /**
   * A value passed to a built-in taking a string (`strlen`, `preg_match`,
   * `DateTime`): arrays raise a TypeError (None), scalars are converted.
   */
  function StringArgument(v: Json): (r: Option<string>)
    ensures r.Some? <==> !(v.JArray? || v.JObject?)
    ensures r.Some? ==> r.value == PhpString(v)
  {
    if v.JArray? || v.JObject? then None else Some(PhpString(v))
  }

  /**
   * PHP `ctype_digit`: a string is all digits and not empty; an integer
   * between -128 and 255 is read as the character of that code (negative
   * ones plus 256); any other integer is read as its decimal text; every
   * other value is false.
   */
  predicate CtypeDigit(v: Json)
  {
    match v
    case JString(s) => s != [] && IsDigits(s)
    case JInt(i) =>
      if -128 <= i <= 255 then
        var code := if i < 0 then i + 256 else i;
        '0' as int <= code <= '9' as int
      else
        IsDigits(IntToString(i))
    case _ => false
  }

  /**
   * PHP 8 loose `v == lit` for a non-empty string literal that is not
   * numeric (such as "in" or "out"): a string compares as text; a boolean
   * compares with the literal's truth value, which is true; an integer is
   * compared as its decimal text; null compares as "", arrays never equal.
   */
  predicate LooseEqualsWord(v: Json, lit: string)
    requires lit != "" && lit != "0"
  {
    match v
    case JNull => lit == ""
    case JBool(b) => b
    case JInt(i) => IntToString(i) == lit
    case JString(s) => s == lit
    case _ => false
  }

  /** Only the text itself and `true` are loosely equal to a word such as "in". */
  lemma LooseEqualsWordExactly(v: Json, lit: string)
    requires lit != "" && lit != "0"
    requires !IsDigit(lit[0]) && lit[0] != '-'
    ensures LooseEqualsWord(v, lit) <==> v == JString(lit) || v == JBool(true)
  {
    if v.JInt? {
      IntToStringShape(v.i);
    }
  }
}
