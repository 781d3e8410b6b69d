/** The fixed-width integer types of esp8266_global.h and the status codes
    the configuration functions return. */
module Platform {

  /** `UINT8`, `unsigned char`, and one byte of memory or EEPROM. */
  type UInt8 = x: int | 0 <= x < 0x100

  /** `UINT16`. */
  type UInt16 = x: int | 0 <= x < 0x1_0000

  /** `unsigned int` / `unsigned long` on the 32-bit ESP8266. */
  type UInt32 = x: int | 0 <= x < 0x1_0000_0000

  const FALSE: UInt8 := 0
  const TRUE: UInt8 := 1

  /** What My_Config_Validate, My_Config_Save and My_Config_Load return. */
  const FN_RETURN_ERROR: UInt8 := FALSE
  const FN_RETURN_OK: UInt8 := TRUE

  /** A pointer argument that may be NULL. */
  datatype Option<T> = None | Some(value: T)
}
