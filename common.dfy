/** Machine types shared by the iButton store and the MQTT coordinator. */
module Common {

  /** An Arduino `byte` (uint8_t). */
  type Byte = b: int | 0 <= b < 0x100

  /** An ESP32 `uint32_t` / `unsigned long` (both are 32 bits wide there). */
  type U32 = n: int | 0 <= n < 0x1_0000_0000

  const U32_MODULUS: int := 0x1_0000_0000

  datatype Option<+T> = None | Some(value: T)
}
