/** The persistent configuration store of esp8266_global.cpp: the
    MY_CONFIG_RECORD layout, its byte image at the start of the 512-byte
    EEPROM region, and My_Config_Set_Defaults, _Validate, _Save, _Load and
    _Initialise. */
module ConfigStore {
  import opened Platform
  import opened CStrings

  /** The EEPROM region the record is kept in (EEPROM.begin(512)); the
      record starts at address 0 of it. */
  const EEPROM_CONFIG_SIZE: nat := 512

  /** The only record format this build accepts. */
  const MY_CONFIG_FORMAT_VERSION: UInt16 := 2

  const WIFI_SSID_STR_MAX_SIZE: nat := 32
  const WIFI_PWD_STR_MAX_SIZE: nat := 16

  const NUL: UInt8 := 0

  // ---------------------------------------------------------------------
  // Record layout
  // ---------------------------------------------------------------------

  /** The build-time sizes of the credential buffers (the values of
      WIFI_SSID_STR_MAX_SIZE and WIFI_PWD_STR_MAX_SIZE). They decide
      sizeof(MY_CONFIG_RECORD), which the size guard in Save and Load checks
      against the EEPROM region. */
  datatype Layout = Layout(ssidSize: nat, pwdSize: nat)

  /** The layout this firmware is built with. */
  const TARGET_LAYOUT: Layout := Layout(WIFI_SSID_STR_MAX_SIZE, WIFI_PWD_STR_MAX_SIZE)

  /** sizeof(MY_CONFIG_RECORD): the 2-byte version, the four character
      buffers, the 1-byte bool, and one padding byte that rounds the (always
      odd) sum of the fields up to the struct's 2-byte alignment. */
  function RecordSize(l: Layout): nat {
    2 + 2 * l.ssidSize + 2 * l.pwdSize + 1 + 1
  }

  lemma TargetRecordFits()
    ensures RecordSize(TARGET_LAYOUT) == 100 < EEPROM_CONFIG_SIZE
  {
  }

  /** MY_CONFIG_RECORD as the bytes it occupies. `relayAuto` is the storage
      byte of `BOOL relay_auto` (non-zero reads as true) and `padding` the
      trailing padding byte: both travel with memcpy like every other byte. */
  datatype ConfigRecord = ConfigRecord(
    formatVersion: UInt16,
    staSsid: seq<UInt8>,
    staPwd: seq<UInt8>,
    apSsid: seq<UInt8>,
    apPwd: seq<UInt8>,
    relayAuto: UInt8,
    padding: UInt8)

  /** The record's buffers have the sizes the layout declares. */
  predicate Conforms(r: ConfigRecord, l: Layout) {
    && |r.staSsid| == l.ssidSize && |r.staPwd| == l.pwdSize
    && |r.apSsid| == l.ssidSize && |r.apPwd| == l.pwdSize
  }

  /** The record's memory image, field by field in declaration order, with
      the 16-bit version stored little-endian as on the ESP8266. */
  function Serialize(l: Layout, r: ConfigRecord): (bytes: seq<UInt8>)
    requires Conforms(r, l)
    ensures |bytes| == RecordSize(l)
    ensures bytes[0] as int + 0x100 * bytes[1] as int == r.formatVersion
  {
    [r.formatVersion % 0x100, r.formatVersion / 0x100]
      + r.staSsid + r.staPwd + r.apSsid + r.apPwd
      + [r.relayAuto, r.padding]
  }

  /** Reinterprets RecordSize(l) bytes as a record, as memcpy into a
      MY_CONFIG_RECORD does. */
  function Deserialize(l: Layout, bytes: seq<UInt8>): (r: ConfigRecord)
    requires |bytes| == RecordSize(l)
    ensures Conforms(r, l)
  {
    var s, p := l.ssidSize, l.pwdSize;
    ConfigRecord(
      bytes[0] as int + 0x100 * bytes[1] as int,
      bytes[2 .. 2 + s],
      bytes[2 + s .. 2 + s + p],
      bytes[2 + s + p .. 2 + 2 * s + p],
      bytes[2 + 2 * s + p .. 2 + 2 * s + 2 * p],
      bytes[2 + 2 * s + 2 * p],
      bytes[3 + 2 * s + 2 * p])
  }

  /** Reading back a record's image gives the record. */
  lemma DeserializeSerialize(l: Layout, r: ConfigRecord)
    requires Conforms(r, l)
    ensures Deserialize(l, Serialize(l, r)) == r
  {
  }

  /** Every byte pattern is the image of the record it reads as: no two
      byte images give the same record. */
  lemma SerializeDeserialize(l: Layout, bytes: seq<UInt8>)
    requires |bytes| == RecordSize(l)
    ensures Serialize(l, Deserialize(l, bytes)) == bytes
  {
  }

  // ---------------------------------------------------------------------
  // My_Config_Validate
  // ---------------------------------------------------------------------

  /** My_Config_Validate: OK exactly when the record has this build's
      format version; no other field is looked at. */
  function Validate(r: ConfigRecord): (status: UInt8)
    ensures status == FN_RETURN_OK || status == FN_RETURN_ERROR
    ensures status == FN_RETURN_OK <==> r.formatVersion == MY_CONFIG_FORMAT_VERSION
  {
    if r.formatVersion != MY_CONFIG_FORMAT_VERSION then FN_RETURN_ERROR else FN_RETURN_OK
  }

  /** The version gate seen on the stored bytes: an image is accepted exactly
      when its first two bytes are 2, 0 (little-endian version 2). */
  lemma VersionGate(l: Layout, bytes: seq<UInt8>)
    requires |bytes| == RecordSize(l)
    ensures Validate(Deserialize(l, bytes)) == FN_RETURN_OK <==> bytes[0] == 2 && bytes[1] == 0
  {
  }

  // ---------------------------------------------------------------------
  // My_Config_Set_Defaults
  // ---------------------------------------------------------------------

  /** The bytes of a text of 7-bit characters. */
  function Ascii(text: string): (bytes: seq<UInt8>)
    requires forall i | 0 <= i < |text| :: text[i] < 128 as char
    ensures |bytes| == |text|
    ensures forall i | 0 <= i < |text| :: bytes[i] == text[i] as int
  {
    seq(|text|, i requires 0 <= i < |text| => text[i] as int)
  }

  /** The compile-time default credentials STASSID, STAPSK, APSSID, APPSK. */
  const STASSID: seq<UInt8> := Ascii("ZXG")
  const STAPSK: seq<UInt8> := Ascii("86968188")
  const APSSID: seq<UInt8> := Ascii("ESP_AP")
  const APPSK: seq<UInt8> := Ascii("88888888")

  /** Each default credential and its terminating NUL fit their buffers,
      so the strcpy calls of Set_Defaults stay inside them. */
  predicate DefaultsFit(l: Layout) {
    && |STASSID| < l.ssidSize && |STAPSK| < l.pwdSize
    && |APSSID| < l.ssidSize && |APPSK| < l.pwdSize
  }

  /** The target layout has room for the defaults: 4 <= 32, 9 <= 16,
      7 <= 32, 9 <= 16 bytes with the terminators. */
  lemma TargetFitsDefaults()
    ensures DefaultsFit(TARGET_LAYOUT)
    ensures |STASSID| + 1 == 4 && |STAPSK| + 1 == 9 && |APSSID| + 1 == 7 && |APPSK| + 1 == 9
  {
  }

  /** None of the default credentials holds a NUL byte. */
  lemma DefaultsNulFree()
    ensures NUL !in STASSID && NUL !in STAPSK && NUL !in APSSID && NUL !in APPSK
  {
  }

  /** My_Config_Set_Defaults: sets the format version and strcpy's the four
      default credentials into their buffers. The bytes behind each copied
      terminator, relay_auto and the padding keep what they held. */
  function SetDefaults(l: Layout, r: ConfigRecord): (d: ConfigRecord)
    requires Conforms(r, l) && DefaultsFit(l)
    ensures Conforms(d, l)
    ensures d.formatVersion == MY_CONFIG_FORMAT_VERSION
    ensures UpToNul(d.staSsid, NUL) == STASSID && UpToNul(d.staPwd, NUL) == STAPSK
    ensures UpToNul(d.apSsid, NUL) == APSSID && UpToNul(d.apPwd, NUL) == APPSK
    ensures d.staSsid[|STASSID| + 1..] == r.staSsid[|STASSID| + 1..]
    ensures d.staPwd[|STAPSK| + 1..] == r.staPwd[|STAPSK| + 1..]
    ensures d.apSsid[|APSSID| + 1..] == r.apSsid[|APSSID| + 1..]
    ensures d.apPwd[|APPSK| + 1..] == r.apPwd[|APPSK| + 1..]
    ensures d.relayAuto == r.relayAuto && d.padding == r.padding
  {
    DefaultsNulFree();
    StrCpyReadsBack(r.staSsid, STASSID, NUL);
    StrCpyReadsBack(r.staPwd, STAPSK, NUL);
    StrCpyReadsBack(r.apSsid, APSSID, NUL);
    StrCpyReadsBack(r.apPwd, APPSK, NUL);
    r.(formatVersion := MY_CONFIG_FORMAT_VERSION,
       staSsid := StrCpy(r.staSsid, STASSID, NUL),
       staPwd := StrCpy(r.staPwd, STAPSK, NUL),
       apSsid := StrCpy(r.apSsid, APSSID, NUL),
       apPwd := StrCpy(r.apPwd, APPSK, NUL))
  }

  // ---------------------------------------------------------------------
  // What Save and Load do to the EEPROM bytes, and what Initialise ends with
  // ---------------------------------------------------------------------

  /** The EEPROM bytes after a Save of `r` that passed the size guard: the
      record's image at addresses [0, size), the old bytes above it. */
  function Saved(l: Layout, r: ConfigRecord, eeprom: seq<UInt8>): (after: seq<UInt8>)
    requires Conforms(r, l) && RecordSize(l) < |eeprom|
    ensures |after| == |eeprom|
    ensures after[..RecordSize(l)] == Serialize(l, r)
    ensures after[RecordSize(l)..] == eeprom[RecordSize(l)..]
  {
    Serialize(l, r) + eeprom[RecordSize(l)..]
  }

  /** Save/Load round trip: with no write in between, Load reads back
      exactly the record Save wrote, and accepts it iff its version is 2. */
  lemma SaveLoadRoundTrip(l: Layout, r: ConfigRecord, eeprom: seq<UInt8>)
    requires Conforms(r, l) && RecordSize(l) < |eeprom|
    ensures Deserialize(l, Saved(l, r, eeprom)[..RecordSize(l)]) == r
    ensures Validate(Deserialize(l, Saved(l, r, eeprom)[..RecordSize(l)])) == FN_RETURN_OK
        <==> r.formatVersion == MY_CONFIG_FORMAT_VERSION
  {
  }

  /** Load succeeds on these EEPROM bytes: the record fits the region and
      the bytes it reads carry format version 2, that is, they start 2, 0. */
  function LoadAccepts(l: Layout, eeprom: seq<UInt8>): (accepted: bool)
    requires |eeprom| == EEPROM_CONFIG_SIZE
    ensures accepted <==> RecordSize(l) < EEPROM_CONFIG_SIZE && eeprom[0] == 2 && eeprom[1] == 0
  {
    RecordSize(l) < EEPROM_CONFIG_SIZE
      && Validate(Deserialize(l, eeprom[..RecordSize(l)])) == FN_RETURN_OK
  }

  /** The My_Config that Initialise leaves, from the flash contents at boot
      and the uninitialised stack record `stack`: the loaded record if Load
      accepted it, otherwise the defaults written over whatever the local
      record held (the bytes Load read, or `stack` if Load read nothing). */
  function BootConfig(l: Layout, flash: seq<UInt8>, stack: ConfigRecord): (r: ConfigRecord)
    requires |flash| == EEPROM_CONFIG_SIZE && Conforms(stack, l) && DefaultsFit(l)
    ensures Conforms(r, l)
    ensures r.formatVersion == MY_CONFIG_FORMAT_VERSION
    ensures LoadAccepts(l, flash) ==> Serialize(l, r) == flash[..RecordSize(l)]
    ensures !LoadAccepts(l, flash) ==>
      && UpToNul(r.staSsid, NUL) == STASSID && UpToNul(r.staPwd, NUL) == STAPSK
      && UpToNul(r.apSsid, NUL) == APSSID && UpToNul(r.apPwd, NUL) == APPSK
  {
    if RecordSize(l) >= EEPROM_CONFIG_SIZE then SetDefaults(l, stack)
    else
      var loaded := Deserialize(l, flash[..RecordSize(l)]);
      SerializeDeserialize(l, flash[..RecordSize(l)]);
      if Validate(loaded) == FN_RETURN_OK then loaded else SetDefaults(l, loaded)
  }

  /** The EEPROM library's RAM copy after Initialise: the flash contents when
      Load accepted them (or when the record is too large to save),
      otherwise the defaults written over its first RecordSize(l) bytes,
      whether or not the commit then succeeds. */
  function BootEeprom(l: Layout, flash: seq<UInt8>, stack: ConfigRecord): (after: seq<UInt8>)
    requires |flash| == EEPROM_CONFIG_SIZE && Conforms(stack, l) && DefaultsFit(l)
    ensures |after| == EEPROM_CONFIG_SIZE
    ensures LoadAccepts(l, flash) || RecordSize(l) >= EEPROM_CONFIG_SIZE ==> after == flash
    ensures !LoadAccepts(l, flash) && RecordSize(l) < EEPROM_CONFIG_SIZE ==>
      && after[..RecordSize(l)] == Serialize(l, BootConfig(l, flash, stack))
      && after[RecordSize(l)..] == flash[RecordSize(l)..]
  {
    if LoadAccepts(l, flash) || RecordSize(l) >= EEPROM_CONFIG_SIZE then flash
    else Saved(l, BootConfig(l, flash, stack), flash)
  }

  /** The flash contents after Initialise: unchanged when nothing was saved;
      the RAM copy when the defaults' commit succeeded; and whatever a
      failed commit left (`flashAfterFailure`) otherwise. */
  function BootFlash(l: Layout, flash: seq<UInt8>, stack: ConfigRecord,
                     commitOk: bool, flashAfterFailure: seq<UInt8>): (after: seq<UInt8>)
    requires |flash| == EEPROM_CONFIG_SIZE && Conforms(stack, l) && DefaultsFit(l)
    requires |flashAfterFailure| == EEPROM_CONFIG_SIZE
    ensures |after| == EEPROM_CONFIG_SIZE
    ensures LoadAccepts(l, flash) || RecordSize(l) >= EEPROM_CONFIG_SIZE ==> after == flash
    ensures commitOk ==> after == BootEeprom(l, flash, stack)
    ensures !LoadAccepts(l, flash) && RecordSize(l) < EEPROM_CONFIG_SIZE && !commitOk ==>
      after == flashAfterFailure
  {
    if LoadAccepts(l, flash) || RecordSize(l) >= EEPROM_CONFIG_SIZE || commitOk then
      BootEeprom(l, flash, stack)
    else flashAfterFailure
  }

  /** Self-healing, when the record fits the region and either Load
      accepted the flash contents or the defaults' commit succeeded: flash
      then holds the image of My_Config, so the next boot's Load accepts it
      and yields the same configuration, whatever the stack held. */
  lemma BootHeals(l: Layout, flash: seq<UInt8>, stack: ConfigRecord, stack': ConfigRecord,
                  commitOk: bool, flashAfterFailure: seq<UInt8>)
    requires |flash| == EEPROM_CONFIG_SIZE && Conforms(stack, l) && Conforms(stack', l)
    requires |flashAfterFailure| == EEPROM_CONFIG_SIZE
    requires DefaultsFit(l) && RecordSize(l) < EEPROM_CONFIG_SIZE
    requires LoadAccepts(l, flash) || commitOk
    ensures BootFlash(l, flash, stack, commitOk, flashAfterFailure)[..RecordSize(l)]
      == Serialize(l, BootConfig(l, flash, stack))
    ensures LoadAccepts(l, BootFlash(l, flash, stack, commitOk, flashAfterFailure))
    ensures BootConfig(l, BootFlash(l, flash, stack, commitOk, flashAfterFailure), stack')
      == BootConfig(l, flash, stack)
  {
    var config := BootConfig(l, flash, stack);
    DeserializeSerialize(l, config);
  }

  // ---------------------------------------------------------------------
  // The global state: flash, the EEPROM library's RAM copy, and My_Config
  // ---------------------------------------------------------------------

  class Device {
    /** The record layout of this build: sizeof(MY_CONFIG_RECORD). */
    const layout: Layout
    /** The flash sector that keeps the 512 EEPROM bytes across reboots. */
    var flash: seq<UInt8>
    /** The EEPROM library's RAM copy of those bytes: what EEPROM.read and
        EEPROM.write address, and what EEPROM.commit writes to flash. */
    const eeprom: array<UInt8>
    /** The global My_Config. */
    var myConfig: ConfigRecord

    ghost predicate Valid()
      reads this
    {
      && |flash| == EEPROM_CONFIG_SIZE
      && eeprom.Length == EEPROM_CONFIG_SIZE
      && RecordSize(layout) < 0x1_0000
      && Conforms(myConfig, layout)
    }

    /** Power-up: flash holds `contents` and the global My_Config is
        zero-initialised, as C does for globals. */
    constructor (layout: Layout, contents: seq<UInt8>)
      requires |contents| == EEPROM_CONFIG_SIZE && RecordSize(layout) < 0x1_0000
      ensures Valid() && fresh(eeprom)
      ensures this.layout == layout && flash == contents
      ensures myConfig == Deserialize(layout, seq(RecordSize(layout), _ => 0))
    {
      this.layout := layout;
      flash := contents;
      eeprom := new UInt8[EEPROM_CONFIG_SIZE];
      myConfig := Deserialize(layout, seq(RecordSize(layout), _ => 0));
    }

    /** EEPROM.begin(512): reloads the RAM copy from flash, which discards
        any write that was not committed. */
    method Begin()
      requires Valid()
      modifies eeprom
      ensures eeprom[..] == flash
    {
      forall i | 0 <= i < EEPROM_CONFIG_SIZE {
        eeprom[i] := flash[i];
      }
    }

    /** EEPROM.commit(): a commit that succeeds leaves flash equal to the RAM
        copy; one that fails leaves flash holding `flashAfterFailure` (the
        old contents, an erased sector or part of the write), which the
        model leaves open. */
    method Commit(commitOk: bool, flashAfterFailure: seq<UInt8>) returns (ok: bool)
      requires Valid() && |flashAfterFailure| == EEPROM_CONFIG_SIZE
      modifies this`flash
      ensures Valid()
      ensures ok == commitOk
      ensures flash == if commitOk then eeprom[..] else flashAfterFailure
    {
      flash := if commitOk then eeprom[..] else flashAfterFailure;
      ok := commitOk;
    }

    /** My_Config_Save: reloads the RAM copy; refuses a record too large for
        the region without writing; otherwise copies the record's bytes to
        addresses [0, size) one by one, commits, and reports the commit. */
    method Save(config: ConfigRecord, commitOk: bool, flashAfterFailure: seq<UInt8>)
        returns (status: UInt8)
      requires Valid() && Conforms(config, layout) && |flashAfterFailure| == EEPROM_CONFIG_SIZE
      modifies this`flash, eeprom
      ensures Valid()
      ensures status == FN_RETURN_OK || status == FN_RETURN_ERROR
      ensures RecordSize(layout) >= EEPROM_CONFIG_SIZE ==>
        status == FN_RETURN_ERROR && flash == old(flash) && eeprom[..] == flash
      ensures RecordSize(layout) < EEPROM_CONFIG_SIZE ==>
        && eeprom[..] == Saved(layout, config, old(flash))
        && (status == FN_RETURN_OK <==> commitOk)
        && flash == if commitOk then eeprom[..] else flashAfterFailure
    {
      var dataLen: UInt16 := RecordSize(layout);
      Begin();
      if dataLen >= EEPROM_CONFIG_SIZE {
        return FN_RETURN_ERROR;
      }
      var image := Serialize(layout, config);
      var dataBuff := new UInt8[EEPROM_CONFIG_SIZE];
      forall i | 0 <= i < dataLen {
        dataBuff[i] := image[i];
      }
      assert dataBuff[..dataLen] == image;
      for count := 0 to dataLen
        invariant dataBuff[..dataLen] == image
        invariant eeprom[..count] == image[..count]
        invariant flash == old(flash)
        invariant eeprom[count..] == flash[count..]
      {
        eeprom[count] := dataBuff[count];
      }
      assert eeprom[..] == eeprom[..dataLen] + eeprom[dataLen..];
      var committed := Commit(commitOk, flashAfterFailure);
      status := if committed then FN_RETURN_OK else FN_RETURN_ERROR;
    }

    /** My_Config_Load: reloads the RAM copy from flash; refuses a record too
        large for the region and leaves the caller's record as it was;
        otherwise reads addresses [0, size) into the caller's record, which
        keeps the loaded bytes even when the version check then fails. */
    method Load(config: ConfigRecord) returns (status: UInt8, loaded: ConfigRecord)
      requires Valid() && Conforms(config, layout)
      modifies eeprom
      ensures eeprom[..] == flash
      ensures Conforms(loaded, layout)
      ensures status == FN_RETURN_OK || status == FN_RETURN_ERROR
      ensures RecordSize(layout) >= EEPROM_CONFIG_SIZE ==> status == FN_RETURN_ERROR && loaded == config
      ensures RecordSize(layout) < EEPROM_CONFIG_SIZE ==>
        && loaded == Deserialize(layout, flash[..RecordSize(layout)])
        && (status == FN_RETURN_OK <==> loaded.formatVersion == MY_CONFIG_FORMAT_VERSION)
    {
      loaded := config;
      var dataLen: UInt16 := RecordSize(layout);
      Begin();
      if dataLen >= EEPROM_CONFIG_SIZE {
        return FN_RETURN_ERROR, loaded;
      }
      var dataBuff := new UInt8[EEPROM_CONFIG_SIZE];
      for count := 0 to dataLen
        invariant eeprom[..] == flash
        invariant dataBuff[..count] == eeprom[..count]
      {
        dataBuff[count] := eeprom[count];
      }
      loaded := Deserialize(layout, dataBuff[..dataLen]);
      status := Validate(loaded);
    }

    /** My_Config_Initialise: Load into a local record; if that fails, put
        the defaults into the local record and Save them, ignoring the
        outcome; then copy the local record into My_Config. */
    method Initialise(stack: ConfigRecord, commitOk: bool, flashAfterFailure: seq<UInt8>)
      requires Valid() && Conforms(stack, layout) && DefaultsFit(layout)
      requires |flashAfterFailure| == EEPROM_CONFIG_SIZE
      modifies this, eeprom
      ensures Valid()
      ensures myConfig.formatVersion == MY_CONFIG_FORMAT_VERSION
      ensures myConfig == BootConfig(layout, old(flash), stack)
      ensures eeprom[..] == BootEeprom(layout, old(flash), stack)
      ensures flash == BootFlash(layout, old(flash), stack, commitOk, flashAfterFailure)
    {
      var config := stack;
      var status;
      status, config := Load(config);
      if status != FN_RETURN_OK {
        config := SetDefaults(layout, config);
        var _ := Save(config, commitOk, flashAfterFailure);
      }
      myConfig := config;
    }
  }

  /** A Save followed by a Load with nothing in between: a committed record
      of version 2 comes back byte for byte and is accepted; after a failed
      commit, Load reads whatever the failure left in flash. */
  method SaveThenLoad(device: Device, config: ConfigRecord, commitOk: bool,
                      flashAfterFailure: seq<UInt8>)
      returns (saveStatus: UInt8, loadStatus: UInt8, loaded: ConfigRecord)
    requires device.Valid() && Conforms(config, device.layout)
    requires |flashAfterFailure| == EEPROM_CONFIG_SIZE
    requires config.formatVersion == MY_CONFIG_FORMAT_VERSION
    modifies device`flash, device.eeprom
    ensures saveStatus == FN_RETURN_OK ==> loadStatus == FN_RETURN_OK && loaded == config
    ensures RecordSize(device.layout) < EEPROM_CONFIG_SIZE && !commitOk ==>
      loaded == Deserialize(device.layout, flashAfterFailure[..RecordSize(device.layout)])
  {
    saveStatus := device.Save(config, commitOk, flashAfterFailure);
    loadStatus, loaded := device.Load(config);
    if saveStatus == FN_RETURN_OK {
      SaveLoadRoundTrip(device.layout, config, old(device.flash));
    }
  }
}
