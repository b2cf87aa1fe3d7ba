/** Machine types shared by the firmware model: bytes read from the meter, the
    32-bit millisecond clock and the fixed-width integers of a decoded reading. */
module Base {

  /** An octet as read from the serial link, as the unsigned number it holds. */
  type byte = x: int | 0 <= x < 0x100

  /** `unsigned long` on the ESP8266, the type of `millis()`. */
  type uint32 = x: int | 0 <= x < 0x1_0000_0000

  /** `int8_t`, the type of a decoded scaler. */
  type int8 = x: int | -0x80 <= x < 0x80

  /** `int64_t`, the type of a decoded value. */
  type int64 = x: int | -0x8000_0000_0000_0000 <= x < 0x8000_0000_0000_0000

  const TwoTo64: nat := 0x1_0000_0000_0000_0000

  /** `uint64_t`, the type of the decoder's accumulator. */
  type uint64 = x: int | 0 <= x < 0x1_0000_0000_0000_0000

  /** A null pointer or a missing entry. */
  datatype Option<+T> = None | Some(value: T)

  /** Conversion of a byte to `int8_t`: two's complement, as the compiler does it. */
  function ToInt8(b: byte): (r: int8)
    ensures r >= 0 <==> b < 0x80
    ensures r % 256 == b
  {
    if b < 0x80 then b else b - 0x100
  }

  /** Conversion of a `uint64_t` to `int64_t`: reduction modulo 2^64, as the compiler does it. */
  function ToInt64(u: uint64): (r: int64)
    ensures r >= 0 <==> u < 0x8000_0000_0000_0000
    ensures r % TwoTo64 == u
  {
    if u < 0x8000_0000_0000_0000 then u else u - TwoTo64
  }

  /** Conversion of an `int64_t` back to `uint64_t`. */
  function ToUint64(v: int64): (r: uint64)
    ensures r % TwoTo64 == v % TwoTo64
  {
    if v >= 0 then v else v + TwoTo64
  }
}
