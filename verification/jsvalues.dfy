/** JavaScript truthiness of the values the components test with `&&` and
    `filter(Boolean)`. */
module JsValues {
  import opened Wrappers

  /** A string is truthy iff it is non-empty. */
  predicate Truthy(s: string) {
    s != ""
  }

  /** An optional string prop: undefined is falsy. */
  predicate TruthyOpt(o: Option<string>) {
    o.Some? && Truthy(o.value)
  }

  /** An optional boolean prop: only true is truthy. */
  predicate TruthyFlag(o: Option<bool>) {
    o == Some(true)
  }
}
