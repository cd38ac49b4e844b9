# Field-builder decorators of wp-settings-kit, in Dafny

wp-settings-kit builds the configuration of each HTML form field as a PHP
array. Before a field is rendered, small decorators and enhancers change
that array. Each one is built from a few constructor arguments. It either
returns a delta (`getConfigModifications`) or rewrites the whole
configuration (`applyToConfig`).

This project models six of them and proves what each one produces:

- `SelectPlaceholder` (select fields) puts a placeholder option in front of
  `options` using PHP array union, stores the placeholder settings, and
  derives whether the placeholder starts out selected.
- `TextPattern`, `TextPlaceholder`, `SelectSize`, `TextInputType` and
  `CheckboxUncheckedValue` return deltas. Most of them mirror a top-level key
  into the nested `attributes` array.
- `SelectSize.New` and `TextInputType.New` model the constructors' fail-safe
  normalisation: the size is clamped to at least 1, and an unknown input type
  becomes `"text"`.

Supporting modules:

- `PhpCompare` holds PHP's numeric-string test, loose string `==` and
  `in_array`.
- `PhpArray` holds PHP values and ordered arrays, with the array operations
  the code uses: lookup, assignment `$a[$k] = $v` (`Put`) and union `$a + $b`
  (`Union`). It also proves their laws: left-hand keys win, right-hand
  survivors keep their order, keys stay distinct, and union absorbs a
  repeated left-hand side.
- `FieldConfig` holds the configuration map, PHP `isset`, and the declared
  metadata record `Descriptor`.
- `Wrappers` holds `Option` and `Result`.

Each decorator's attribute metadata is a constant `Declared` in its module:

| decorator | field type | builder method | default priority |
|---|---|---|---|
| SelectPlaceholder | select | setPlaceholder | 5 |
| SelectSize | select | setSize | 25 |
| TextInputType | text | setInputType | 15 |
| TextPlaceholder | text | setPlaceholder | 20 |
| TextPattern | text | setPattern | 25 |
| CheckboxUncheckedValue | checkbox | setUncheckedValue | 15 |

Modelling choices:

- A PHP array is an ordered list of (key, value) entries. `WellFormed` says
  its keys are distinct. The top-level configuration is a `map`, because no
  decorator depends on the order of top-level keys.
- Keys are strings. An integer key is represented by its decimal string.
  PHP turns the key `"5"` into the integer `5`, so this keeps key identity
  exactly as PHP has it.
- A null placeholder value is stored under the key `""`, as PHP does with a
  null array key (`SelectPlaceholder.OptionKey`).
- `options` set to something other than an array makes PHP 8 throw a
  `TypeError` at `$options + $config['options']`. `ApplyToConfig` returns
  `Failure(UnsupportedOperandTypes)` in that case. So `applyToConfig` can
  fail, although decorators otherwise normalise bad input instead of
  throwing.
- `selected` uses strict `===`. A current `value` of integer `5` is
  therefore not the placeholder value `"5"`.
- `in_array` compares loosely. `PhpCompare` defines PHP's numeric strings
  and its loose string `==`: two strings compare as numbers only when both
  are numeric strings. The numeric comparison itself is a parameter. No
  whitelist entry is a numeric string, so loose `in_array` against the
  whitelist is plain membership, whatever that comparison is
  (`TextInputType.LooseInArrayIsMembership`).
- The enhancer's input type and the select size are subset types
  (`TextInputType.InputType`, `SelectSize.Size`): the normalised field
  values hold by construction.

## Model

| member | source | states |
|---|---|---|
| `SelectPlaceholder.ApplyToConfig` | src/Builder/Decorator/SelectField/SelectPlaceholderDecorator.php:56-83 | the rewrite fails (PHP TypeError) exactly when `options` is set to a non-array; otherwise it yields the new configuration |
| `SelectPlaceholder.PlaceholderFirst` | src/Builder/Decorator/SelectField/SelectPlaceholderDecorator.php:66-72 | after the rewrite `options` is a non-empty array whose first entry is (placeholder value, placeholder text), and no later entry has the placeholder's key |
| `SelectPlaceholder.ExistingOptionsKept` | src/Builder/Decorator/SelectField/SelectPlaceholderDecorator.php:71-72 | the options are the placeholder followed by the existing options minus the one under the placeholder key; every other existing option survives; with distinct keys the length is 1 + the number of existing keys other than the placeholder's |
| `SelectPlaceholder.ExistingOrderKept` | src/Builder/Decorator/SelectField/SelectPlaceholderDecorator.php:71-72 | the existing options behind the placeholder form a subsequence of the original options: their relative order is kept |
| `SelectPlaceholder.OptionsWhenUnset` | src/Builder/Decorator/SelectField/SelectPlaceholderDecorator.php:61-72 | with `options` absent or null the rewrite succeeds and `options` is exactly the single placeholder entry |
| `SelectPlaceholder.StoredArguments` | src/Builder/Decorator/SelectField/SelectPlaceholderDecorator.php:58-59 | `placeholder` and `placeholder_disabled` equal the constructor arguments |
| `SelectPlaceholder.SelectedFlag` | src/Builder/Decorator/SelectField/SelectPlaceholderDecorator.php:74-80 | when disabled, `placeholder_attributes` is [disabled => "disabled", selected => b], where b holds exactly when `value` is missing, null, or strictly the placeholder value; when not disabled, `placeholder_attributes` is left as it was |
| `SelectPlaceholder.OtherKeysUnchanged` | src/Builder/Decorator/SelectField/SelectPlaceholderDecorator.php:56-83 | the keys after the rewrite are the old ones plus placeholder, placeholder_disabled, options (and placeholder_attributes when disabled); every other key keeps its value |
| `SelectPlaceholder.ValidPreserved` | src/Builder/Decorator/SelectField/SelectPlaceholderDecorator.php:67-72 | a well-formed configuration stays well formed: option keys stay distinct |
| `SelectPlaceholder.Idempotent` | src/Builder/Decorator/SelectField/SelectPlaceholderDecorator.php:58-80 | applying the decorator to its own output gives that output again |
| `SelectPlaceholder.GetConfigModifications` | src/Builder/Decorator/SelectField/SelectPlaceholderDecorator.php:88-93 | the delta path contributes the empty array |
| `PhpArray.UnionKeys` | src/Builder/Decorator/SelectField/SelectPlaceholderDecorator.php:72 | the keys of `$l + $r` are the keys of both operands |
| `PhpArray.UnionGet` | src/Builder/Decorator/SelectField/SelectPlaceholderDecorator.php:72 | a lookup in `$l + $r` finds the left-hand value when the left has the key, and the right-hand value otherwise |
| `PhpArray.UnionUnique` | src/Builder/Decorator/SelectField/SelectPlaceholderDecorator.php:72 | the union of two arrays with distinct keys has distinct keys |
| `PhpArray.UnionAbsorb` | src/Builder/Decorator/SelectField/SelectPlaceholderDecorator.php:72 | `$l + ($l + $r)` equals `$l + $r` |
| `PhpArray.WithoutSubsequence` | src/Builder/Decorator/SelectField/SelectPlaceholderDecorator.php:72 | the right-hand entries that survive a union form a subsequence of the right-hand array (order kept) |
| `PhpArray.WithoutMembers` | src/Builder/Decorator/SelectField/SelectPlaceholderDecorator.php:72 | a right-hand entry survives exactly when its key is absent on the left |
| `PhpArray.WithoutKeys` | src/Builder/Decorator/SelectField/SelectPlaceholderDecorator.php:72 | dropping the left-hand keys removes exactly those keys from the right-hand side |
| `PhpArray.WithoutOneLength` | src/Builder/Decorator/SelectField/SelectPlaceholderDecorator.php:72 | with distinct keys, dropping one key shortens the array by one exactly when the key is present |
| `PhpArray.PutGet` | src/Builder/Decorator/TextField/PatternDecorator.php:56 | after `$a[$k] = $v`, `$a[$k]` is `v` and every other key reads as before |
| `PhpArray.PutKeys` | src/Builder/Decorator/TextField/PatternDecorator.php:56 | assignment adds `k` to the keys and nothing else |
| `PhpArray.PutAbsent` | src/Builder/Decorator/TextField/PatternDecorator.php:56 | assigning to an absent key appends the entry at the end |
| `PhpArray.PutPresent` | src/Builder/Decorator/TextField/PatternDecorator.php:56 | assigning to a present key replaces that entry at its position; every other entry stays where it was |
| `PhpArray.PutUnique` | src/Builder/Decorator/TextField/PatternDecorator.php:56 | assignment keeps keys distinct |
| `PhpArray.GetFindsKeys` | src/Builder/Decorator/TextField/PlaceholderDecorator.php:42-44 | `Get`, the lookup the delta lemmas use to read a value back out of `attributes`, finds a value exactly for the array's keys |
| `TextPattern.PatternAlwaysSet` | src/Builder/Decorator/TextField/PatternDecorator.php:47-52 | the delta always has `pattern` = pattern and `attributes.pattern` = pattern |
| `TextPattern.DescriptionBranch` | src/Builder/Decorator/TextField/PatternDecorator.php:47-57 | `pattern_description` is present exactly when a description is given; then it equals `attributes.title`, which follows `pattern` in `attributes`; without one, `attributes` has exactly the key `pattern` |
| `TextPattern.KeysBounded` | src/Builder/Decorator/TextField/PatternDecorator.php:45-60 | top-level keys lie in {pattern, attributes, pattern_description}, `attributes` keys in {pattern, title}, and the delta is well formed |
| `TextPlaceholder.Modifications` | src/Builder/Decorator/TextField/PlaceholderDecorator.php:29-45 | the delta has exactly `placeholder` and `attributes`; `placeholder` is the constructor argument unchanged (empty string included); `attributes` holds exactly the same value under `placeholder` |
| `SelectSize.New` | src/Builder/Decorator/SelectField/SelectSizeDecorator.php:29-33 | the effective size is at least 1; an input of at least 1 is kept; an input of 0 or less becomes exactly 1 |
| `SelectSize.ClampIdempotent` | src/Builder/Decorator/SelectField/SelectSizeDecorator.php:32 | clamping an effective size gives it back |
| `SelectSize.ClampMonotone` | src/Builder/Decorator/SelectField/SelectSizeDecorator.php:32 | a larger input never gives a smaller effective size |
| `SelectSize.Modifications` | src/Builder/Decorator/SelectField/SelectSizeDecorator.php:38-46 | the delta has exactly `size` and `attributes`; `size` is the effective size (at least 1); `attributes` holds exactly the same size |
| `TextInputType.New` | src/Domain/Field/Enhancer/BuilderEnhancer/TextField/InputTypeEnhancer.php:34-38 | the effective type is always on the 13-entry whitelist; a whitelisted type is kept; any other string becomes "text" |
| `TextInputType.WhitelistNotNumeric` | src/Domain/Field/Enhancer/BuilderEnhancer/TextField/InputTypeEnhancer.php:26 | the whitelist has 13 entries, none of them a PHP numeric string |
| `TextInputType.LooseInArrayIsMembership` | src/Domain/Field/Enhancer/BuilderEnhancer/TextField/InputTypeEnhancer.php:37 | loose `in_array` against the whitelist holds exactly for whitelisted strings, whatever PHP's numeric comparison is; so the constructor keeps exactly the types `in_array` accepts and turns the rest into "text" |
| `PhpCompare.NumericStart` | src/Domain/Field/Enhancer/BuilderEnhancer/TextField/InputTypeEnhancer.php:37 | a PHP numeric string is non-empty and starts with whitespace, a sign, a dot or a digit |
| `PhpCompare.InArrayNonNumeric` | src/Domain/Field/Enhancer/BuilderEnhancer/TextField/InputTypeEnhancer.php:37 | against a list that holds no numeric string, loose `in_array` is plain membership |
| `TextInputType.NormaliseIdempotent` | src/Domain/Field/Enhancer/BuilderEnhancer/TextField/InputTypeEnhancer.php:37 | normalising a normalised type changes nothing |
| `TextInputType.Modifications` | src/Domain/Field/Enhancer/BuilderEnhancer/TextField/InputTypeEnhancer.php:43-51 | the delta has exactly `input_type` and `attributes`; the type is the enhancer's, which is on the whitelist; `attributes` holds exactly the same type under `type` |
| `CheckboxUncheckedValue.Modifications` | src/Builder/Decorator/CheckboxField/UncheckedValueDecorator.php:29-43 | the delta has exactly one key, `unchecked_value`, holding the constructor argument unchanged whatever its type; no `attributes` |

## Left out

- ValidationDecorator (src/Decorator/ValidationDecorator.php) is not modelled. It formats HTML with `sprintf` and escapes it with WordPress's `esc_attr`, whose behaviour is not visible.
- The merge of a delta into the configuration is not modelled. This includes the key-by-key merge of nested `attributes`. It lives in `AbstractFieldBuilderDecorator`, which is not part of this model. So the model states each decorator's own output, not the configuration after several decorators have run.
- The per-instance priority override (`$priority`, handed to the parent constructor) is not modelled. The collection of decorators and their ordering by priority are not modelled either. Neither is in the modelled files. Declared priorities appear only as constants.
- The `#[FieldDecorator]` / `#[FieldEnhancer]` attributes are not read by reflection. Their contents are the `Declared` constants.
- PHP key types: a key read back from an array has a type, int or string, and the model does not record it. Union, lookup and assignment depend only on key identity, which the model keeps.
- Floats, objects and resources are the opaque `Value.Other`. They reach the model as the unchecked value, or anywhere in the configuration that `applyToConfig` receives (a float `value`, float option labels, an object under `options`). The model only carries them along. Under `===` they never equal a string or null. Under `options`, a non-array makes `ApplyToConfig` fail (the TypeError). Their own PHP semantics (float comparison, object identity) is not modelled.
- PHP's comparison of two numeric strings by value (integer or float parsing) is not modelled. `PhpCompare.LooseEquals` takes it as the parameter `numEq`. No modelled result depends on it.
- PHP's 64-bit `int` is modelled by unbounded `int`. `max(1, size)` cannot overflow, so nothing is lost.
- Argument coercion at the PHP call boundary is not modelled. For example, PHP turns an int passed as `$inputType` into a string. The model takes the declared parameter types as given.
