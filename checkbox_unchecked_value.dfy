/** The checkbox decorator that sets the value submitted when the box is left unchecked. */
module CheckboxUncheckedValue {
  import opened PhpArray
  import opened FieldConfig

  const Declared := Descriptor("checkbox", "setUncheckedValue", 15)

  /** The constructor argument, of any PHP type, stored as given. */
  datatype UncheckedValueDecorator = UncheckedValueDecorator(uncheckedValue: Value)

  /** The delta: the single key `unchecked_value`. */
  function GetConfigModifications(d: UncheckedValueDecorator): Config
  {
    map["unchecked_value" := d.uncheckedValue]
  }

  /**
    The delta has exactly one key, `unchecked_value`, holding the
    constructor argument unchanged; no `attributes` are produced.
  */
  lemma Modifications(d: UncheckedValueDecorator)
    ensures var m := GetConfigModifications(d);
      && m.Keys == {"unchecked_value"}
      && m["unchecked_value"] == d.uncheckedValue
      && "attributes" !in m && Attributes(m) == []
      && (WellFormed(d.uncheckedValue) ==> ValidConfig(m))
  {
  }
}
