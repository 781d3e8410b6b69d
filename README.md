# ESP8266 IoT gateway: configuration store and log-line assembly

This project models two parts of the firmware of an ESP8266 relay/level
controller, and proves properties of each:

- **The persistent configuration store** (`main/esp8266_global.cpp`). The
  store holds `MY_CONFIG_RECORD`. The record has a 16-bit format version,
  four NUL-terminated credential buffers (station SSID and password, access
  point SSID and password; 32/16/32/16 bytes) and the `relay_auto` flag.
  It is copied byte for byte to and from the start of a 512-byte EEPROM
  region.
  - `My_Config_Save` guards the record size, writes the bytes one by one
    and commits.
  - `My_Config_Load` guards the size, reads the bytes back into the caller's
    record and accepts them only when the version is 2.
  - `My_Config_Set_Defaults` stamps version 2 and copies in the default
    credentials with `strcpy`.
  - `My_Config_Initialise` is the boot path. It loads, and on failure falls
    back to the defaults and tries to save them.
- **Log-line assembly** (`LOG_ID_Handle` in `main/logging.cpp`). It clamps
  the category and the level, replaces a NULL format with "", and bounds the
  message by a 128-byte stack buffer. It then builds the line
  `<level char>,<id>,[<timestamp>]: <message>`.

Files:

- `platform.dfy`: the C integer types, the status codes and a nullable pointer.
- `cstrings.dfy`: how a NUL-terminated buffer is read and what `strcpy`
  leaves in it.
- `config_store.dfy`: the record, its byte image, the defaults and the
  store operations. A `Device` class holds the state involved: the flash
  sector behind the EEPROM emulation, the EEPROM library's RAM copy of it,
  and the global `My_Config`.
- `logging.dfy`: `LOG_ID_Handle`.

Modelling choices:

- **Record layout.** The record's layout is a parameter, `Layout`. It gives
  the sizes of the credential buffers, which the build sets with
  `WIFI_SSID_STR_MAX_SIZE` and `WIFI_PWD_STR_MAX_SIZE`.
- **Record size.** `sizeof(MY_CONFIG_RECORD)` is 2 + 32 + 16 + 32 + 16 + 1
  bytes of fields. Add 1 byte of trailing padding: the struct aligns to
  2 bytes for its `UINT16`, and the field bytes always add up to an odd
  number. The shipped layout is therefore 100 bytes (`TargetRecordFits`).
- **Size guard.** The `data_len >= 512` guard can never fire for the shipped
  layout. It is reachable for a build with larger buffers, so the model
  covers both outcomes.
- **Byte order.** The version is stored little-endian, as on the ESP8266.
- **`relay_auto`.** The model keeps it as its storage byte, because the
  firmware `memcpy`s arbitrary EEPROM bytes into it.
- **Flash and its RAM copy.** `EEPROM.begin(512)` reloads the RAM copy from
  flash; `EEPROM.read`/`EEPROM.write` address the RAM copy; only a
  successful `EEPROM.commit()` makes flash equal to it. What a failed commit
  leaves in flash (the old bytes, an erased sector, part of the write) is
  a parameter, `flashAfterFailure`.
- **Inputs for things the model does not run.** The outcome of
  `EEPROM.commit()` is a boolean parameter. The uninitialised stack record of
  `My_Config_Initialise` is a parameter. `vsnprintf` is a function parameter
  `render` from format to printed text. The timestamp text is a parameter.
  So are the uninitialised contents of the log buffer.

The model follows the code as written, including where it does less than a
reader of the design might expect:

- The record has no schedule or distance-threshold fields.
- `My_Config_Set_Defaults` does not reset `relay_auto`. It also leaves
  every byte after each copied terminator as it was. At boot these bytes
  hold whatever the failed `Load` read, or the stack's garbage.
- Save is not all-or-nothing. The bytes are written to the RAM copy before
  the commit, and a failed commit does not undo them there; the next
  `EEPROM.begin` reloads flash over them, and flash then holds whatever
  the failed commit left.
- A boot whose defaults fail to commit does not heal: the next boot reads
  flash again, and Load rejects it again unless the failure happened to
  leave a version-2 record.
- A too-large record is not fatal. Save and Load only return ERROR.
- There is no separate storage-read error.

## Model

| member | source | states |
|---|---|---|
| `ConfigStore.TargetRecordFits` | main/esp8266_global.h:111-127 | the shipped record is 100 bytes, below the 512-byte EEPROM region |
| `ConfigStore.Serialize` | main/esp8266_global.cpp:121 | the memcpy image of a record has RecordSize bytes, and its first two bytes hold the version little-endian |
| `ConfigStore.Deserialize` | main/esp8266_global.cpp:164 | reinterpreting RecordSize bytes as a record gives buffers of the layout's sizes |
| `ConfigStore.DeserializeSerialize` | main/esp8266_global.cpp:121 | reading back a record's memory image gives the same record |
| `ConfigStore.SerializeDeserialize` | main/esp8266_global.cpp:164 | every byte pattern is the image of the record it reads as, so images and records correspond one to one |
| `ConfigStore.Validate` | main/esp8266_global.cpp:86-100 | returns OK (1) exactly when format_version is 2, whatever the other fields hold; otherwise ERROR (0) |
| `ConfigStore.VersionGate` | main/esp8266_global.cpp:90 | on stored bytes, the record is accepted exactly when its first two bytes are 2, 0 |
| `ConfigStore.TargetFitsDefaults` | main/esp8266_global.cpp:34-42 | each default credential plus its NUL fits its buffer: 4 <= 32, 9 <= 16, 7 <= 32, 9 <= 16 |
| `ConfigStore.DefaultsNulFree` | main/esp8266_global.cpp:34-42 | no default credential contains a NUL byte |
| `CStrings.StrCpy` | main/esp8266_global.cpp:78-81 | strcpy into a buffer large enough leaves the source, then a NUL, then the buffer's old bytes, at the buffer's length |
| `CStrings.StrCpyReadsBack` | main/esp8266_global.cpp:78-81 | after strcpy of a NUL-free string, the buffer reads back as exactly that string, and bytes past its terminator are unchanged |
| `CStrings.UpToNul` | main/logging.cpp:190 | a C string read from a buffer is the longest NUL-free prefix, followed by a NUL or the end of the buffer |
| `CStrings.UpToNulStops` | main/esp8266_global.cpp:78-81 | reading a buffer stops at the first NUL, whatever follows it |
| `ConfigStore.SetDefaults` | main/esp8266_global.cpp:72-82 | sets version 2 and makes the four buffers read "ZXG", "86968188", "ESP_AP", "88888888"; relay_auto, the padding and every byte after each terminator are unchanged |
| `ConfigStore.Saved` | main/esp8266_global.cpp:121-125 | after the write loop, addresses [0, size) hold the record's image and higher addresses their old bytes |
| `ConfigStore.SaveLoadRoundTrip` | main/esp8266_global.cpp:104-178 | after Save's writes, a Load with no write in between reads back exactly the saved record, and accepts it iff its version is 2 |
| `ConfigStore.LoadAccepts` | main/esp8266_global.cpp:150-176 | Load returns OK on given flash bytes exactly when the record fits the region and the bytes start 2, 0 |
| `ConfigStore.Device.constructor` | main/esp8266_global.cpp:59 | at power-up flash holds given bytes and My_Config is zero-initialised |
| `ConfigStore.Device.Begin` | main/esp8266_global.cpp:111 | EEPROM.begin(512) makes the RAM copy equal to flash |
| `ConfigStore.Device.Commit` | main/esp8266_global.cpp:128-137 | a successful commit makes flash equal to the RAM copy; a failed one leaves flash holding whatever the failure left; the outcome is reported |
| `ConfigStore.Device.Save` | main/esp8266_global.cpp:104-139 | the RAM copy is reloaded from flash. A record of 512 bytes or more: ERROR, nothing written, flash unchanged. Otherwise record byte i goes to address i of the RAM copy for every i below the size, higher addresses keep the flash bytes, the result is OK iff the commit succeeds, and only then does flash hold the new bytes |
| `ConfigStore.Device.Load` | main/esp8266_global.cpp:143-178 | the RAM copy is reloaded from flash. A record of 512 bytes or more: ERROR and the caller's record untouched. Otherwise the caller's record becomes flash bytes [0, size), even when the version then fails, and the result is OK iff the loaded version is 2 |
| `ConfigStore.SaveThenLoad` | main/esp8266_global.cpp:104-178 | running Save then Load on a version-2 record: if Save returned OK, Load returns OK and the identical record; if the commit failed, Load reads whatever the failure left in flash |
| `ConfigStore.BootConfig` | main/esp8266_global.cpp:182-202 | the configuration the boot path ends with always has version 2. When Load accepted the flash bytes, it is exactly the record those bytes hold; otherwise its four buffers read as the default credentials |
| `ConfigStore.BootEeprom` | main/esp8266_global.cpp:186-196 | after boot the RAM copy equals flash if Load accepted it or the record is too large; otherwise it holds the image of the defaulted record below the record size and the flash bytes above |
| `ConfigStore.BootFlash` | main/esp8266_global.cpp:186-196 | after boot flash is unchanged if nothing was saved, equals the RAM copy if the defaults' commit succeeded, and holds whatever a failed commit left otherwise |
| `ConfigStore.Device.Initialise` | main/esp8266_global.cpp:182-202 | My_Config ends with version 2. It is the loaded record if Load succeeded, otherwise the defaults over the local record. The RAM copy and flash end as BootEeprom and BootFlash say. The commit outcome does not affect My_Config |
| `ConfigStore.BootHeals` | main/esp8266_global.cpp:182-202 | when the record fits and either Load accepted flash or the defaults' commit succeeded, flash afterwards holds the image of My_Config, so the next boot's Load accepts it and keeps the same configuration |
| `Logging.NormaliseLogId` | main/logging.cpp:124-128 | an ID >= NUM_LOG_IDS (2) becomes LOG_ID_INVALID (0); IDs 0 and 1 pass through |
| `Logging.NormaliseLogLevel` | main/logging.cpp:130-134 | a level above DBG_3 becomes 9, levels 0..9 pass through, and the result always indexes the 10-entry prefix table |
| `Logging.LevelCharacter` | main/logging.cpp:187 | the prefix character is a table entry: the level's own for levels 0..9, '3' for any higher level |
| `Logging.LevelCharacterTable` | main/logging.cpp:79-82 | levels 0..9 print P, C, A, E, W, N, I, 1, 2, 3 (alert prints 'C', critical 'A'); every higher level prints '3' |
| `Logging.DecimalDigit` | main/logging.cpp:188 | a normalised ID prints as its single decimal digit |
| `Logging.VsnPrintf` | main/logging.cpp:163-166 | vsnprintf writes as much of the text as leaves room for a terminator, then the terminator |
| `Logging.Message` | main/logging.cpp:159-172 | the printed message is a prefix of the formatted text, at most 127 characters and NUL-free. It stops early only at a NUL in the text; a NUL-free text is cut to exactly min(length, 127) |
| `Logging.BufferHoldsMessage` | main/logging.cpp:159-172 | after vsnprintf, reading the 128-byte buffer gives exactly that message, whatever the buffer held before |
| `Logging.LogLine` | main/logging.cpp:187-190 | the line is the level char, ",", the ID digit, ",", "[", the timestamp, "]: ", then the message, at those positions |
| `Logging.LogIdHandle` | main/logging.cpp:108-249 | the line sent to the console is built from the clamped level's character, the clamped ID, the timestamp and the bounded message. A NULL format prints an empty message |

## Left out

- WiFi and GPIO setup (`Wifi_Initialise`, `GPIO_Initialise`): radio and pin calls with a wall-clock wait loop.
- MQTT client, HTTP server and HTML pages: transport code over external libraries, with no configuration logic in them.
- The mutation gateway, automatic relay control and status aggregation: the firmware has no such code. The MQTT callback only logs, and the record has no timing or distance fields.
- The EEPROM library's internals: its sector address, its 4-byte rounding of the size, its dirty flag, and how a commit erases and writes the sector. The model keeps only what `begin`, `read`, `write` and `commit` do to the RAM copy and to flash; the commit outcome and what a failed commit leaves in flash are parameters.
- ConfigStore.Device.Initialise, ConfigStore.Device.Save, ConfigStore.Device.Load: the record is assumed smaller than 64 KiB. Above that, `UINT16 data_len` would wrap and `memcpy` would overrun the 512-byte `data_buff`, which C leaves undefined.
- ConfigStore.SetDefaults: a layout whose buffers are too small for the default credentials is excluded, because `strcpy` past the buffer is undefined in C.
- The `LOG` calls inside the configuration functions: they only produce console output.
- `vsnprintf` formatting, the float rendering of `micros()/1000`, `Serial.print`, and the unused `pFile`, `pFunction` and `Line` parameters.
- The disabled `#if 0` / `#else` branches of `LOG_ID_Handle`.
- Logging.LogIdHandle: the overflow patch that writes NUL at index 127 is shown never to run, rather than modelled as a write. A NUL is already there, either the preset one or vsnprintf's terminator.
- The second copy of `LogLevelCharacters` in `main/esp8266_global.cpp`: nothing uses it.
- The prototype in `main/esp8266_global.h` declares `Log_ID` as `UINT16`, while `main/logging.cpp` uses `unsigned int`. The model uses the definition's 32-bit width.
