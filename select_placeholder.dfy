/**
  The select-field decorator that puts a placeholder option ("Choose one…")
  in front of a select field's options, and marks it disabled and selected
  when asked to.
*/
module SelectPlaceholder {
  import opened Wrappers
  import opened PhpArray
  import opened FieldConfig

  const Declared := Descriptor("select", "setPlaceholder", 5)

  /** The configuration keys this decorator writes. */
  const Written: set<Key> := {"placeholder", "placeholder_disabled", "options", "placeholder_attributes"}

  /**
    The constructor arguments, stored as given. `value` is the option key of
    the placeholder; PHP's `null` is `None`.
  */
  datatype SelectPlaceholderDecorator =
    SelectPlaceholderDecorator(placeholder: string, disabled: bool := true, value: Option<string> := Some(""))

  /** The key the placeholder option is stored under: PHP turns a null array key into "". */
  function OptionKey(d: SelectPlaceholderDecorator): Key
  {
    match d.value
    case Some(v) => v
    case None => ""
  }

  /** PHP `$v === $this->value` for a nullable string on the right. */
  predicate StrictlyEquals(v: Value, s: Option<string>)
  {
    match s
    case Some(t) => v == Str(t)
    case None => v == Null
  }

  /** Whether the placeholder option starts out selected: no current value, or the placeholder's own. */
  predicate PlaceholderSelected(d: SelectPlaceholderDecorator, c: Config)
  {
    !IsSet(c, "value") || StrictlyEquals(c["value"], d.value)
  }

  /**
    The options to merge behind the placeholder: none when `options` is unset
    or null; an error when it is set to something other than an array, since
    PHP refuses `array + non-array`.
  */
  function ExistingOptions(c: Config): Result<Entries, PhpError>
  {
    if !IsSet(c, "options") then Success([])
    else if c["options"].Arr? then Success(c["options"].entries)
    else Failure(UnsupportedOperandTypes)
  }

  /** The decorator's own transformation of the whole configuration. */
  function ApplyToConfig(d: SelectPlaceholderDecorator, c: Config): (r: Result<Config, PhpError>)
    ensures r.Failure? <==> IsSet(c, "options") && !c["options"].Arr?
  {
    match ExistingOptions(c)
    case Failure(err) => Failure(err)
    case Success(existing) =>
      var c1 := c["placeholder" := Str(d.placeholder)]["placeholder_disabled" := Bool(d.disabled)];
      var c2 := c1["options" := Arr(Union([(OptionKey(d), Str(d.placeholder))], existing))];
      if d.disabled then
        Success(c2["placeholder_attributes" :=
          Arr([("disabled", Str("disabled")), ("selected", Bool(PlaceholderSelected(d, c2)))])])
      else
        Success(c2)
  }

  /** This decorator contributes nothing through the delta path. */
  function GetConfigModifications(d: SelectPlaceholderDecorator): (m: Config)
    ensures m == map[]
  {
    map[]
  }

  /** The options after the decorator ran. */
  function ResultOptions(r: Config): Entries
  {
    if "options" in r && r["options"].Arr? then r["options"].entries else []
  }

  // ---------------------------------------------------------------- lemmas

  /** The options are never empty, start with the placeholder, and hold no second placeholder key. */
  lemma PlaceholderFirst(d: SelectPlaceholderDecorator, c: Config)
    requires ApplyToConfig(d, c).Success?
    ensures var r := ApplyToConfig(d, c).value;
      && "options" in r && r["options"].Arr?
      && var opts := r["options"].entries;
      && |opts| >= 1
      && opts[0] == (OptionKey(d), Str(d.placeholder))
      && forall i | 1 <= i < |opts| :: opts[i].0 != OptionKey(d)
  {
    var existing := ExistingOptions(c).value;
    var k := OptionKey(d);
    assert Keys([(k, Str(d.placeholder))]) == {k};
    var w := Without(existing, {k});
    WithoutKeys(existing, {k});
    forall i | 0 <= i < |w| ensures w[i].0 != k {
      KeysMember(w, w[i].0);
    }
  }

  /**
    The options are the placeholder followed by every existing option whose
    key differs from the placeholder's, in their original order; an existing
    option under the placeholder's key is dropped.
  */
  lemma ExistingOptionsKept(d: SelectPlaceholderDecorator, c: Config, existing: Entries)
    requires ExistingOptions(c) == Success(existing)
    ensures ApplyToConfig(d, c).Success?
    ensures var opts := ResultOptions(ApplyToConfig(d, c).value);
      && opts == [(OptionKey(d), Str(d.placeholder))] + Without(existing, {OptionKey(d)})
      && (forall x | x in existing && x.0 != OptionKey(d) :: x in opts[1..])
      && (UniqueKeys(existing) ==>
            |opts| == 1 + |existing| - if OptionKey(d) in Keys(existing) then 1 else 0)
  {
    var k := OptionKey(d);
    assert Keys([(k, Str(d.placeholder))]) == {k};
    var w := Without(existing, {k});
    forall x | x in existing && x.0 != k ensures x in w {
      WithoutMembers(existing, {k}, x);
    }
    if UniqueKeys(existing) {
      WithoutOneLength(existing, k);
    }
  }

  /** The existing options that survive behind the placeholder keep their relative order. */
  lemma ExistingOrderKept(d: SelectPlaceholderDecorator, c: Config, existing: Entries) returns (idx: seq<nat>)
    requires ExistingOptions(c) == Success(existing)
    ensures ApplyToConfig(d, c).Success?
    ensures SubsequenceAt(ResultOptions(ApplyToConfig(d, c).value)[1..], existing, idx)
  {
    var k := OptionKey(d);
    assert Keys([(k, Str(d.placeholder))]) == {k};
    idx := WithoutSubsequence(existing, {k});
    assert ResultOptions(ApplyToConfig(d, c).value)[1..] == Without(existing, {k});
  }

  /** With no options (absent or null), the placeholder becomes the only option. */
  lemma OptionsWhenUnset(d: SelectPlaceholderDecorator, c: Config)
    requires !IsSet(c, "options")
    ensures ApplyToConfig(d, c).Success?
    ensures ApplyToConfig(d, c).value["options"] == Arr([(OptionKey(d), Str(d.placeholder))])
  {
  }

  /** `placeholder` and `placeholder_disabled` hold the constructor arguments. */
  lemma StoredArguments(d: SelectPlaceholderDecorator, c: Config)
    requires ApplyToConfig(d, c).Success?
    ensures var r := ApplyToConfig(d, c).value;
      && "placeholder" in r && r["placeholder"] == Str(d.placeholder)
      && "placeholder_disabled" in r && r["placeholder_disabled"] == Bool(d.disabled)
  {
  }

  /**
    A disabled placeholder gets `placeholder_attributes` = disabled, and
    selected exactly when `value` is missing, null, or strictly the
    placeholder's value; an enabled one leaves `placeholder_attributes` alone.
  */
  lemma SelectedFlag(d: SelectPlaceholderDecorator, c: Config)
    requires ApplyToConfig(d, c).Success?
    ensures var r := ApplyToConfig(d, c).value;
      && (d.disabled ==>
            && "placeholder_attributes" in r
            && r["placeholder_attributes"] == Arr([
                 ("disabled", Str("disabled")),
                 ("selected", Bool("value" !in c || c["value"] == Null
                                   || (d.value.Some? && c["value"] == Str(d.value.value))))]))
      && (!d.disabled ==>
            && ("placeholder_attributes" in r <==> "placeholder_attributes" in c)
            && ("placeholder_attributes" in c ==> r["placeholder_attributes"] == c["placeholder_attributes"]))
  {
  }

  /** Every key the decorator does not write keeps its presence and its value. */
  lemma OtherKeysUnchanged(d: SelectPlaceholderDecorator, c: Config)
    requires ApplyToConfig(d, c).Success?
    ensures var r := ApplyToConfig(d, c).value;
      && r.Keys == c.Keys + {"placeholder", "placeholder_disabled", "options"}
                          + (if d.disabled then {"placeholder_attributes"} else {})
      && forall k | k in c && k !in Written :: r[k] == c[k]
  {
  }

  /** Well-formed configurations stay well-formed: in particular the option keys stay distinct. */
  lemma ValidPreserved(d: SelectPlaceholderDecorator, c: Config)
    requires ValidConfig(c) && ApplyToConfig(d, c).Success?
    ensures ValidConfig(ApplyToConfig(d, c).value)
  {
    var existing := ExistingOptions(c).value;
    var l := [(OptionKey(d), Str(d.placeholder))];
    assert WellFormed(Arr(existing)) by {
      if IsSet(c, "options") { assert c["options"] == Arr(existing); }
    }
    UnionUnique(l, existing);
    var u := Union(l, existing);
    forall i | 0 <= i < |u| ensures WellFormed(u[i].1) {
      if i > 0 {
        var w := Without(existing, Keys(l));
        assert u[i] == w[i - 1];
        WithoutMembers(existing, Keys(l), u[i]);
      }
    }
  }

  /** Running the decorator twice with the same arguments gives what running it once gives. */
  lemma Idempotent(d: SelectPlaceholderDecorator, c: Config)
    requires ApplyToConfig(d, c).Success?
    ensures ApplyToConfig(d, ApplyToConfig(d, c).value) == ApplyToConfig(d, c)
  {
    var r := ApplyToConfig(d, c).value;
    var existing := ExistingOptions(c).value;
    var l := [(OptionKey(d), Str(d.placeholder))];
    assert ExistingOptions(r) == Success(Union(l, existing));
    UnionAbsorb(l, existing);
    var r2 := ApplyToConfig(d, r).value;
    assert r2.Keys == r.Keys;
    assert forall k | k in r :: r2[k] == r[k];
    assert r2 == r;
  }
}
