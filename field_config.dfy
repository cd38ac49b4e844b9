/**
  The configuration of one form field: a PHP array from string keys to
  values. Its top-level key order plays no part in what the decorators do,
  so it is a `map`; nested arrays (`options`, `attributes`) keep their order.
*/
module FieldConfig {
  import opened Wrappers
  import opened PhpArray

  type Config = map<Key, Value>

  /** Every value held by the configuration is a well-formed PHP value. */
  predicate ValidConfig(c: Config)
  {
    forall k | k in c :: WellFormed(c[k])
  }

  /** PHP `isset($config[$k])`: the key is present and its value is not null. */
  predicate IsSet(c: Config, k: Key)
  {
    k in c && c[k] != Null
  }

  /** The entries of the nested `attributes` array of a delta, or none. */
  function Attributes(m: Config): Entries
  {
    if "attributes" in m && m["attributes"].Arr? then m["attributes"].entries else []
  }

  /** The delta holds `top`, and its `attributes` hold the same value under `attr`. */
  predicate Mirrored(m: Config, top: Key, attr: Key)
  {
    top in m && Get(Attributes(m), attr) == Some(m[top])
  }

  /**
    What a decorator declares about itself in its `#[FieldDecorator]` or
    `#[FieldEnhancer]` attribute: the field type it applies to, the builder
    method it stands for, and its default priority (lower applies earlier).
  */
  datatype Descriptor = Descriptor(fieldType: string, builderMethod: string, priority: int)
}
