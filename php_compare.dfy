/**
  PHP 8's loose comparison `==` between two strings, and `in_array` with
  its default loose comparison, over a list of strings.

  Two strings compare by numeric value only when both are numeric strings;
  otherwise they compare as strings. Parsing a numeric string into an
  integer or a float is not modelled: the numeric comparison is the
  parameter `numEq`, and every result below holds whatever it is.
*/
module PhpCompare {
  import opened Wrappers

  /** The whitespace PHP allows around a numeric string. */
  predicate IsWhitespace(c: char)
  {
    c == ' ' || c == '\t' || c == '\n' || c == '\r' || c == '\U{B}' || c == '\U{C}'
  }

  predicate IsDigit(c: char)
  {
    '0' <= c <= '9'
  }

  /**
    The states of a recogniser for PHP's numeric strings:
    whitespace? sign? (digits ('.' digits?)? | '.' digits) (('e' | 'E') sign? digits)? whitespace?
  */
  datatype NumState = Lead | Sign | IntPart | DotOnly | Frac | Exp | ExpSign | ExpInt | Trail

  function Step(st: NumState, c: char): Option<NumState>
  {
    match st
    case Lead =>
      if IsWhitespace(c) then Some(Lead)
      else if c == '+' || c == '-' then Some(Sign)
      else if IsDigit(c) then Some(IntPart)
      else if c == '.' then Some(DotOnly)
      else None
    case Sign =>
      if IsDigit(c) then Some(IntPart) else if c == '.' then Some(DotOnly) else None
    case IntPart =>
      if IsDigit(c) then Some(IntPart)
      else if c == '.' then Some(Frac)
      else if c == 'e' || c == 'E' then Some(Exp)
      else if IsWhitespace(c) then Some(Trail)
      else None
    case DotOnly =>
      if IsDigit(c) then Some(Frac) else None
    case Frac =>
      if IsDigit(c) then Some(Frac)
      else if c == 'e' || c == 'E' then Some(Exp)
      else if IsWhitespace(c) then Some(Trail)
      else None
    case Exp =>
      if c == '+' || c == '-' then Some(ExpSign) else if IsDigit(c) then Some(ExpInt) else None
    case ExpSign =>
      if IsDigit(c) then Some(ExpInt) else None
    case ExpInt =>
      if IsDigit(c) then Some(ExpInt) else if IsWhitespace(c) then Some(Trail) else None
    case Trail =>
      if IsWhitespace(c) then Some(Trail) else None
  }

  predicate Accepting(st: NumState)
  {
    st == IntPart || st == Frac || st == ExpInt || st == Trail
  }

  predicate Run(st: NumState, s: string)
    decreases |s|
  {
    if s == [] then Accepting(st)
    else match Step(st, s[0])
      case None => false
      case Some(next) => Run(next, s[1..])
  }

  /** PHP's numeric strings, such as "42", " -1.5e3 " and ".5". */
  predicate IsNumericString(s: string)
  {
    Run(Lead, s)
  }

  /** PHP 8 `$a == $b` for two strings. */
  predicate LooseEquals(a: string, b: string, numEq: (string, string) -> bool)
  {
    if IsNumericString(a) && IsNumericString(b) then numEq(a, b) else a == b
  }

  /** `in_array($needle, $haystack)`, whose comparison is loose by default. */
  predicate InArray(needle: string, haystack: seq<string>, numEq: (string, string) -> bool)
  {
    haystack != [] && (LooseEquals(needle, haystack[0], numEq) || InArray(needle, haystack[1..], numEq))
  }

  /** A numeric string starts with whitespace, a sign, a dot or a digit. */
  lemma NumericStart(s: string)
    requires IsNumericString(s)
    ensures |s| > 0 && (IsWhitespace(s[0]) || s[0] == '+' || s[0] == '-' || s[0] == '.' || IsDigit(s[0]))
  {
  }

  /** Against a list with no numeric string, loose `in_array` is plain membership. */
  lemma {:induction false} InArrayNonNumeric(needle: string, haystack: seq<string>, numEq: (string, string) -> bool)
    requires forall i | 0 <= i < |haystack| :: !IsNumericString(haystack[i])
    ensures InArray(needle, haystack, numEq) <==> needle in haystack
  {
    if haystack != [] {
      InArrayNonNumeric(needle, haystack[1..], numEq);
      assert needle in haystack <==> needle == haystack[0] || needle in haystack[1..];
    }
  }
}
