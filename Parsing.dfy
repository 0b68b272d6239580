/**
 * The two plug-in interfaces the service dispatches to: a parameter
 * parser (one per target type, declaring the types it matches) and an
 * array splitter. Their implementations are not part of this model; a
 * parser is any total function from the input text to an optional value.
 */
module Parsing {
  import opened Wrappers
  import opened Reflection

  /**
   * A parsed value. `V` stands for whatever the concrete parsers build
   * (numbers, dates, strings, ...). An array value records its component
   * type and one slot per element; an empty slot is Java's `null`.
   */
  datatype Value<V> =
    | Scalar(v: V)
    | ArrayOf(component: Ty, slots: seq<Option<Value<V>>>)

  /**
   * A parameter parser: the types it declares in `match()`, and its
   * `parse` method, which yields `None` (Java's `null`) on failure.
   */
  datatype ParamParser<V> = ParamParser(matches: seq<Ty>, parse: string -> Option<Value<V>>)

  /** An array splitter: cuts the raw parameter into element tokens. */
  type Splitter = string -> seq<string>
}
