/** Decoded configuration values and Go's unsigned narrowing conversions. */
module Json {

  type uint16 = x: int | 0 <= x < 0x1_0000
  type uint32 = x: int | 0 <= x < 0x1_0000_0000

  /** A decoded value. `Number` is what a JSON number decodes to (a Go float64,
      restricted to integral values here); `Int` is a Go `int` placed into a
      flags map by Go code rather than by the JSON decoder. */
  datatype Value =
    | Str(s: string)
    | Number(n: int)
    | Int(i: int)
    | Bool(b: bool)
    | Null
    | Array(items: seq<Value>)
    | Object(fields: map<string, Value>)

  /** A config file decoded into a string-keyed map. */
  type Document = map<string, Value>

  /** Go's `uint16(x)`: keeps the value when it fits, otherwise wraps modulo 2^16. */
  function ToUint16(x: int): (r: uint16)
    ensures 0 <= x < 0x1_0000 ==> r == x
    ensures (x - r) % 0x1_0000 == 0
  {
    x % 0x1_0000
  }

  /** Go's `uint32(x)`: keeps the value when it fits, otherwise wraps modulo 2^32. */
  function ToUint32(x: int): (r: uint32)
    ensures 0 <= x < 0x1_0000_0000 ==> r == x
    ensures (x - r) % 0x1_0000_0000 == 0
  {
    x % 0x1_0000_0000
  }
}
