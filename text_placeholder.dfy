/** The text-field decorator that sets the input's placeholder text. */
module TextPlaceholder {
  import opened PhpArray
  import opened FieldConfig

  const Declared := Descriptor("text", "setPlaceholder", 20)

  /** The constructor argument, stored as given (the empty string included). */
  datatype PlaceholderDecorator = PlaceholderDecorator(placeholder: string)

  /** The delta: `placeholder`, mirrored into `attributes`. */
  function GetConfigModifications(d: PlaceholderDecorator): Config
  {
    map["placeholder" := Str(d.placeholder), "attributes" := Arr([("placeholder", Str(d.placeholder))])]
  }

  /**
    The delta has exactly the keys `placeholder` and `attributes`; the
    placeholder is the constructor argument unchanged, and `attributes`
    holds exactly the same value under `placeholder`.
  */
  lemma Modifications(d: PlaceholderDecorator)
    ensures var m := GetConfigModifications(d);
      && m.Keys == {"placeholder", "attributes"}
      && m["placeholder"] == Str(d.placeholder)
      && Mirrored(m, "placeholder", "placeholder")
      && Keys(Attributes(m)) == {"placeholder"}
      && ValidConfig(m)
  {
  }
}
