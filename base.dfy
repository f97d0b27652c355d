/** Small vocabulary shared by every module: Go's `byte` and an optional value
    (Go's `nil` / non-`nil` for errors and function fields). */
module Base {

  /** Go's `byte` (uint8). */
  type byte = x: int | 0 <= x < 256

  datatype Option<+T> = None | Some(value: T)
}
