/** The text-field enhancer that sets the HTML `type` of the input. */
module TextInputType {
  import opened PhpArray
  import opened PhpCompare
  import opened FieldConfig

  const Declared := Descriptor("text", "setInputType", 15)

  /** The input types the enhancer accepts. */
  const ValidTypes: seq<string> :=
    ["text", "email", "url", "tel", "password", "number", "search",
     "date", "time", "datetime-local", "month", "week", "color"]

  /** An input type on the whitelist: what the enhancer's private field always holds. */
  type InputType = t: string | t in ValidTypes witness "text"

  datatype InputTypeEnhancer = InputTypeEnhancer(inputType: InputType)

  /**
    The constructor: a type outside the whitelist falls back to "text".
    PHP's loose `in_array` is plain membership here; see LooseInArrayIsMembership.
  */
  function New(inputType: string): (d: InputTypeEnhancer)
    ensures d.inputType in ValidTypes
    ensures inputType in ValidTypes ==> d.inputType == inputType
    ensures inputType !in ValidTypes ==> d.inputType == "text"
  {
    InputTypeEnhancer(if inputType in ValidTypes then inputType else "text")
  }

  /** The delta: `input_type`, mirrored into `attributes` as `type`. */
  function GetConfigModifications(e: InputTypeEnhancer): Config
  {
    map["input_type" := Str(e.inputType), "attributes" := Arr([("type", Str(e.inputType))])]
  }

  /** No whitelist entry is a PHP numeric string: each begins with a lower-case letter. */
  lemma WhitelistNotNumeric()
    ensures |ValidTypes| == 13
    ensures forall i | 0 <= i < |ValidTypes| :: !IsNumericString(ValidTypes[i])
  {
  }

  /**
    Loose `in_array` against the whitelist holds exactly for whitelisted
    types, whatever PHP's numeric comparison is; so the constructor keeps
    exactly the types `in_array` accepts.
  */
  lemma LooseInArrayIsMembership(inputType: string, numEq: (string, string) -> bool)
    ensures InArray(inputType, ValidTypes, numEq) <==> inputType in ValidTypes
    ensures New(inputType).inputType == if InArray(inputType, ValidTypes, numEq) then inputType else "text"
  {
    WhitelistNotNumeric();
    InArrayNonNumeric(inputType, ValidTypes, numEq);
  }

  /** Normalising an already-normalised type changes nothing. */
  lemma NormaliseIdempotent(inputType: string)
    ensures New(New(inputType).inputType) == New(inputType)
  {
  }

  /**
    The delta has exactly the keys `input_type` and `attributes`, the type is
    the enhancer's (whitelisted) type, and `attributes` holds exactly the same
    type under `type`.
  */
  lemma Modifications(e: InputTypeEnhancer)
    ensures var m := GetConfigModifications(e);
      && m.Keys == {"input_type", "attributes"}
      && m["input_type"] == Str(e.inputType)
      && (exists i | 0 <= i < |ValidTypes| :: m["input_type"] == Str(ValidTypes[i]))
      && Mirrored(m, "input_type", "type")
      && Keys(Attributes(m)) == {"type"}
      && ValidConfig(m)
  {
  }
}
