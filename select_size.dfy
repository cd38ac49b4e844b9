/** The select-field decorator that sets how many options are visible at once. */
module SelectSize {
  import opened PhpArray
  import opened FieldConfig

  const Declared := Descriptor("select", "setSize", 25)

  /** A size of at least one: what the decorator's private field always holds. */
  type Size = n: int | n >= 1 witness 1

  datatype SelectSizeDecorator = SelectSizeDecorator(size: Size)

  /** The constructor: `max(1, size)`, so a size below one becomes one. */
  function New(size: int): (d: SelectSizeDecorator)
    ensures d.size >= 1
    ensures size >= 1 ==> d.size == size
    ensures size <= 0 ==> d.size == 1
  {
    SelectSizeDecorator(if size < 1 then 1 else size)
  }

  /** The delta: `size`, mirrored into `attributes`. */
  function GetConfigModifications(d: SelectSizeDecorator): Config
  {
    map["size" := Int(d.size), "attributes" := Arr([("size", Int(d.size))])]
  }

  /** Building from an effective size gives the same decorator back. */
  lemma ClampIdempotent(size: int)
    ensures New(New(size).size) == New(size)
  {
  }

  /** A larger requested size never gives a smaller effective size. */
  lemma ClampMonotone(size: int, size': int)
    requires size <= size'
    ensures New(size).size <= New(size').size
  {
  }

  /**
    The delta has exactly the keys `size` and `attributes`, the size is the
    effective size (at least one), and
    `attributes` holds exactly the same size.
  */
  lemma Modifications(d: SelectSizeDecorator)
    ensures var m := GetConfigModifications(d);
      && m.Keys == {"size", "attributes"}
      && (exists n: int | n >= 1 :: m["size"] == Int(n))
      && m["size"] == Int(d.size)
      && Mirrored(m, "size", "size")
      && Keys(Attributes(m)) == {"size"}
      && ValidConfig(m)
  {
  }
}
