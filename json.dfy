/**
 * An already-parsed JSON document, as the streaming reader presents it to the
 * extraction code: numbers keep their literal text (the reader hands them out
 * through `nextString`), and an object is an ordered member list in which a
 * key may repeat.
 */
module Json {

  import opened Wrappers

  datatype Json =
    | JString(text: string)
    | JNumber(literal: string)
    | JBool(b: bool)
    | JNull
    | JArray(elems: seq<Json>)
    | JObject(members: seq<Member>)

  datatype Member = Member(key: string, value: Json)

  /** The two token kinds the reader can hand out as a string. */
  predicate IsScalar(j: Json) {
    j.JString? || j.JNumber?
  }

  /** The text `nextString` returns for a string or number token. */
  function ScalarText(j: Json): string
    requires IsScalar(j)
  {
    if j.JString? then j.text else j.literal
  }

  /** One counted occurrence: a value recorded under an attribute name. */
  datatype Occurrence = Occurrence(key: string, value: string)

  /** Why the processing of one file stopped early. */
  datatype FormatError =
    | RootNotArray      // the document does not start with `[`
    | ElementNotObject  // an element of the root array is not an object
    | ValueNotString    // a tracked member whose value `nextString` cannot read

  /**
   * What one file contributes: the occurrences recorded, in order, up to the
   * point where processing stopped, and the error that stopped it, if any.
   * Nothing is rolled back on error.
   */
  datatype FileResult = FileResult(records: seq<Occurrence>, error: Option<FormatError>)
}
