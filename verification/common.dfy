/** Optional values, fallible results and the JavaScript notion of truthiness,
    shared by the server-side and browser-side models. */
module Common {

  /** A value that may be absent: Rust's `Option`, or a JSON field that is
      `null` or missing. */
  datatype Option<+T> = None | Some(value: T)

  /** The outcome of a computation that can fail. */
  datatype Result<+T, +E> = Ok(value: T) | Err(error: E)

  /** Unsigned and signed machine integers of the Rust structs. */
  type u32 = x: int | 0 <= x < 0x1_0000_0000
  type u64 = x: int | 0 <= x < 0x1_0000_0000_0000_0000
  type i32 = x: int | -0x8000_0000 <= x < 0x8000_0000

  /** JavaScript truthiness of a number field: `undefined`, `null` and `0`
      are falsy, every other number is truthy. */
  predicate TruthyNum(x: Option<int>) {
    x.Some? && x.value != 0
  }

  /** JavaScript truthiness of a string field: `undefined`, `null` and `""`
      are falsy. */
  predicate TruthyStr(x: Option<string>) {
    x.Some? && x.value != ""
  }

  /** JavaScript `a || fallback` on a string field. */
  function OrElse(a: Option<string>, fallback: string): string {
    if TruthyStr(a) then a.value else fallback
  }

  /** Lifts a Rust `Option<u64>` into the JSON number field it serialises to. */
  function AsNumber(x: Option<u64>): Option<int> {
    match x
    case None => None
    case Some(v) => Some(v)
  }
}
