/**
  The text-field decorator that sets an HTML `pattern` (a regular
  expression, kept as an uninterpreted string) and, optionally, a
  description shown as the input's `title`.
*/
module TextPattern {
  import opened Wrappers
  import opened PhpArray
  import opened FieldConfig

  const Declared := Descriptor("text", "setPattern", 25)

  /** The constructor arguments, stored as given; a null description is `None`. */
  datatype PatternDecorator = PatternDecorator(pattern: string, description: Option<string> := None)

  /**
    The delta: `pattern`, mirrored into `attributes`; with a description,
    also `pattern_description` and, appended to `attributes`, `title`.
  */
  function GetConfigModifications(d: PatternDecorator): Config
  {
    var modifications := map["pattern" := Str(d.pattern), "attributes" := Arr([("pattern", Str(d.pattern))])];
    match d.description
    case None => modifications
    case Some(text) =>
      modifications["pattern_description" := Str(text)]
                   ["attributes" := Arr(Put(Attributes(modifications), "title", Str(text)))]
  }

  /** The pattern is always set, at the top level and in `attributes`. */
  lemma PatternAlwaysSet(d: PatternDecorator)
    ensures var m := GetConfigModifications(d);
      && m["pattern"] == Str(d.pattern)
      && Mirrored(m, "pattern", "pattern")
  {
  }

  /**
    A description is present exactly when one was given; then it is both
    `pattern_description` and `attributes.title`, the title coming after the
    pattern. Without one, `attributes` holds the pattern alone.
  */
  lemma DescriptionBranch(d: PatternDecorator)
    ensures var m := GetConfigModifications(d);
      && ("pattern_description" in m <==> d.description.Some?)
      && (d.description.Some? ==>
            && m["pattern_description"] == Str(d.description.value)
            && Mirrored(m, "pattern_description", "title")
            && Attributes(m) == [("pattern", Str(d.pattern)), ("title", Str(d.description.value))])
      && (d.description.None? ==> Keys(Attributes(m)) == {"pattern"})
  {
    var attrs := [("pattern", Str(d.pattern))];
    assert Keys(attrs) == {"pattern"};
    if d.description.Some? {
      PutGet(attrs, "title", Str(d.description.value), "title");
      PutAbsent(attrs, "title", Str(d.description.value));
    }
  }

  /** No key outside {pattern, attributes, pattern_description} and {pattern, title} is produced; the delta is well formed. */
  lemma KeysBounded(d: PatternDecorator)
    ensures var m := GetConfigModifications(d);
      && m.Keys <= {"pattern", "attributes", "pattern_description"}
      && "attributes" in m && m["attributes"].Arr?
      && Keys(Attributes(m)) <= {"pattern", "title"}
      && ValidConfig(m)
  {
    var attrs := [("pattern", Str(d.pattern))];
    assert Keys(attrs) == {"pattern"};
    if d.description.Some? {
      var t := Str(d.description.value);
      PutKeys(attrs, "title", t);
      PutUnique(attrs, "title", t);
      PutAbsent(attrs, "title", t);
    }
  }
}
