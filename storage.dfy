/**
  The sketch's EEPROM layout (a 512-byte emulated EEPROM) and the byte
  encodings its load/save functions use:

    address 0..259    the `Config` struct as `EEPROM.put`/`EEPROM.get` move it
                      (sizeof(Config) is 260, although only 256 bytes are reserved)
    address 256..383  the last message: up to 126 characters, NUL-filled
    address 384       brightness, one byte
    address 385..386  scroll speed, big-endian

  The configuration and the message record overlap at 256..259; the lemmas
  below say exactly what each save does to the other records.
 */
module Storage {
  import opened Platform

  const EEPROM_SIZE: nat := 512
  const CONFIG_START: nat := 0
  /** The bytes the layout reserves for the configuration. */
  const CONFIG_SIZE: nat := 256
  /** sizeof(Config): four char arrays of 32+64+32 bytes, a 4-byte-aligned `int`, three more arrays of 32+64+32. */
  const CONFIG_BYTES: nat := 260
  const MESSAGE_START: nat := 256
  const MESSAGE_SIZE: nat := 128
  /** `toCharArray(buffer, MESSAGE_SIZE - 1)` keeps at most 126 characters and a NUL. */
  const MESSAGE_MAX: nat := 126
  const BRIGHTNESS_ADDR: nat := 384
  const SCROLL_SPEED_ADDR: nat := 385

  /** Offsets of the `Config` fields inside the 260-byte record. */
  const SSID_AT: nat := 0
  const PASSWORD_AT: nat := 32
  const HOST_AT: nat := 96
  const PORT_AT: nat := 128
  const USER_AT: nat := 132
  const PASS_AT: nat := 164
  const CLIENT_ID_AT: nat := 228

  /** The `Config` struct: fixed-size char arrays and a 32-bit port. */
  datatype Config = Config(
    ssid: seq<byte>,
    password: seq<byte>,
    mqttHost: seq<byte>,
    mqttPort: int32,
    mqttUser: seq<byte>,
    mqttPass: seq<byte>,
    clientId: seq<byte>)

  /** Every char array has its declared size. */
  predicate WellFormed(c: Config)
  {
    && |c.ssid| == 32 && |c.password| == 64 && |c.mqttHost| == 32
    && |c.mqttUser| == 32 && |c.mqttPass| == 64 && |c.clientId| == 32
  }

  function Zeros(n: nat): (r: seq<byte>)
    ensures |r| == n && forall i :: 0 <= i < n ==> r[i] == 0
  {
    seq(n, _ => 0)
  }

  /** The zero-initialised global `Config config;`, and what `memset(&config, 0, …)` leaves. */
  const ZeroConfig: Config := Config(Zeros(32), Zeros(64), Zeros(32), 0, Zeros(32), Zeros(64), Zeros(32))

  // ---------------------------------------------------------------------
  // The EEPROM as a byte image
  // ---------------------------------------------------------------------

  /** `EEPROM.put`/`EEPROM.write`: `data` lands at `addr`, nothing else changes. */
  function WriteAt(mem: seq<byte>, addr: nat, data: seq<byte>): (r: seq<byte>)
    requires addr + |data| <= |mem|
    ensures |r| == |mem|
    ensures r[addr..addr + |data|] == data
    ensures r[..addr] == mem[..addr] && r[addr + |data|..] == mem[addr + |data|..]
  {
    mem[..addr] + data + mem[addr + |data|..]
  }

  /** Writing the same bytes twice at one address leaves what writing them once leaves. */
  lemma WriteAtTwice(mem: seq<byte>, addr: nat, data: seq<byte>)
    requires addr + |data| <= |mem|
    ensures WriteAt(WriteAt(mem, addr, data), addr, data) == WriteAt(mem, addr, data)
  {
    var once := WriteAt(mem, addr, data);
    var twice := WriteAt(once, addr, data);
    assert twice == once[..addr] + data + once[addr + |data|..];
    assert once == once[..addr] + once[addr..addr + |data|] + once[addr + |data|..];
  }

  // ---------------------------------------------------------------------
  // Config record
  // ---------------------------------------------------------------------

  /** The `int` port as its four little-endian two's-complement bytes. */
  function PortBytes(p: int32): (r: seq<byte>)
    ensures |r| == 4
  {
    var u := p % 0x1_0000_0000;
    [u % 0x100, u / 0x100 % 0x100, u / 0x100 / 0x100 % 0x100, u / 0x100 / 0x100 / 0x100]
  }

  function PortValue(b: seq<byte>): int32
    requires |b| == 4
  {
    var u := b[0] as int + 0x100 * (b[1] as int + 0x100 * (b[2] as int + 0x100 * b[3] as int));
    if u <= INT32_MAX then u else u - 0x1_0000_0000
  }

  lemma ByteSplit(lo: byte, hi: nat)
    ensures (lo + 0x100 * hi) % 0x100 == lo && (lo + 0x100 * hi) / 0x100 == hi
  {
  }

  lemma PortRoundTrip(p: int32)
    ensures PortValue(PortBytes(p)) == p
  {
    var u := p % 0x1_0000_0000;
    var u1 := u / 0x100;
    var u2 := u1 / 0x100;
    var u3 := u2 / 0x100;
    assert u3 < 0x100;
    assert u2 == u2 % 0x100 + 0x100 * u3;
    assert u1 == u1 % 0x100 + 0x100 * u2;
    assert u == u % 0x100 + 0x100 * u1;
  }

  lemma PortBytesOfValue(b: seq<byte>)
    requires |b| == 4
    ensures PortBytes(PortValue(b)) == b
  {
    var v2 := b[2] as int + 0x100 * b[3] as int;
    var v1 := b[1] as int + 0x100 * v2;
    var u := b[0] as int + 0x100 * v1;
    assert PortValue(b) % 0x1_0000_0000 == u;
    ByteSplit(b[0], v1);
    ByteSplit(b[1], v2);
    ByteSplit(b[2], b[3]);
    assert b[3] / 0x100 == 0;
  }

  /** The bytes `y[i..j]` keep their place, shifted by `|x|`, when `x` is put in front. */
  lemma SliceAfter(x: seq<byte>, y: seq<byte>, i: nat, j: nat)
    requires i <= j <= |y|
    ensures (x + y)[|x| + i..|x| + j] == y[i..j]
  {
  }

  /**
    The 260 bytes `EEPROM.put(CONFIG_START, config)` writes: the struct's
    fields in declaration order, each at its offset.
   */
  function EncodeConfig(c: Config): (r: seq<byte>)
    requires WellFormed(c)
    ensures |r| == CONFIG_BYTES
    ensures r[SSID_AT..PASSWORD_AT] == c.ssid && r[PASSWORD_AT..HOST_AT] == c.password
    ensures r[HOST_AT..PORT_AT] == c.mqttHost && r[PORT_AT..USER_AT] == PortBytes(c.mqttPort)
    ensures r[USER_AT..PASS_AT] == c.mqttUser && r[PASS_AT..CLIENT_ID_AT] == c.mqttPass
    ensures r[CLIENT_ID_AT..CONFIG_BYTES] == c.clientId
  {
    var t6 := c.mqttPass + c.clientId;
    var t5 := c.mqttUser + t6;
    var t4 := PortBytes(c.mqttPort) + t5;
    var t3 := c.mqttHost + t4;
    var t2 := c.password + t3;
    var r := c.ssid + t2;
    SliceAfter(c.ssid, t2, 0, 64);
    SliceAfter(c.ssid, t2, 64, 96);
    SliceAfter(c.password, t3, 0, 32);
    SliceAfter(c.ssid, t2, 96, 100);
    SliceAfter(c.password, t3, 32, 36);
    SliceAfter(c.mqttHost, t4, 0, 4);
    SliceAfter(c.ssid, t2, 100, 132);
    SliceAfter(c.password, t3, 36, 68);
    SliceAfter(c.mqttHost, t4, 4, 36);
    SliceAfter(PortBytes(c.mqttPort), t5, 0, 32);
    SliceAfter(c.ssid, t2, 132, 228);
    SliceAfter(c.password, t3, 68, 164);
    SliceAfter(c.mqttHost, t4, 36, 132);
    SliceAfter(PortBytes(c.mqttPort), t5, 32, 128);
    SliceAfter(c.mqttUser, t6, 0, 96);
    assert t6[0..64] == c.mqttPass && t6[64..96] == c.clientId;
    assert t5[32..96] == c.mqttPass && t5[96..128] == c.clientId;
    r
  }

  /** The `Config` that `EEPROM.get(CONFIG_START, config)` reads from 260 bytes. */
  function DecodeConfig(b: seq<byte>): (c: Config)
    requires |b| == CONFIG_BYTES
    ensures WellFormed(c)
  {
    Config(b[SSID_AT..PASSWORD_AT], b[PASSWORD_AT..HOST_AT], b[HOST_AT..PORT_AT],
           PortValue(b[PORT_AT..USER_AT]), b[USER_AT..PASS_AT], b[PASS_AT..CLIENT_ID_AT],
           b[CLIENT_ID_AT..CONFIG_BYTES])
  }

  lemma DecodeEncodeConfig(c: Config)
    requires WellFormed(c)
    ensures DecodeConfig(EncodeConfig(c)) == c
  {
    PortRoundTrip(c.mqttPort);
  }

  /** Two 260-byte records that agree field by field are equal. */
  lemma SameFields(x: seq<byte>, y: seq<byte>)
    requires |x| == |y| == CONFIG_BYTES
    requires x[SSID_AT..PASSWORD_AT] == y[SSID_AT..PASSWORD_AT] && x[PASSWORD_AT..HOST_AT] == y[PASSWORD_AT..HOST_AT]
    requires x[HOST_AT..PORT_AT] == y[HOST_AT..PORT_AT] && x[PORT_AT..USER_AT] == y[PORT_AT..USER_AT]
    requires x[USER_AT..PASS_AT] == y[USER_AT..PASS_AT] && x[PASS_AT..CLIENT_ID_AT] == y[PASS_AT..CLIENT_ID_AT]
    requires x[CLIENT_ID_AT..CONFIG_BYTES] == y[CLIENT_ID_AT..CONFIG_BYTES]
    ensures x == y
  {
    assert x == x[SSID_AT..PASSWORD_AT] + x[PASSWORD_AT..HOST_AT] + x[HOST_AT..PORT_AT]
              + x[PORT_AT..USER_AT] + x[USER_AT..PASS_AT] + x[PASS_AT..CLIENT_ID_AT]
              + x[CLIENT_ID_AT..CONFIG_BYTES];
    assert y == y[SSID_AT..PASSWORD_AT] + y[PASSWORD_AT..HOST_AT] + y[HOST_AT..PORT_AT]
              + y[PORT_AT..USER_AT] + y[USER_AT..PASS_AT] + y[PASS_AT..CLIENT_ID_AT]
              + y[CLIENT_ID_AT..CONFIG_BYTES];
  }

  lemma EncodeDecodeConfig(b: seq<byte>)
    requires |b| == CONFIG_BYTES
    ensures EncodeConfig(DecodeConfig(b)) == b
  {
    PortBytesOfValue(b[PORT_AT..USER_AT]);
    SameFields(EncodeConfig(DecodeConfig(b)), b);
  }

  /** The validity test of `loadConfig`: the first byte of the SSID and of the broker host is neither NUL nor erased. */
  predicate ConfigValid(c: Config)
    requires WellFormed(c)
    ensures ConfigValid(c) ==> CString(c.ssid) != [] && CString(c.mqttHost) != []
  {
    c.ssid[0] != 0 && c.ssid[0] != 255 && c.mqttHost[0] != 0 && c.mqttHost[0] != 255
  }

  /** The NULs `loadConfig` forces into a valid configuration. */
  function Terminate(c: Config): (r: Config)
    requires WellFormed(c)
    ensures WellFormed(r) && (ConfigValid(r) <==> ConfigValid(c))
    ensures r.ssid[31] == 0 && r.password[63] == 0 && r.mqttHost[31] == 0 && r.clientId[31] == 0
    ensures r.ssid[..31] == c.ssid[..31] && r.password[..63] == c.password[..63]
    ensures r.mqttHost[..31] == c.mqttHost[..31] && r.clientId[..31] == c.clientId[..31]
    ensures r.mqttPort == c.mqttPort && r.mqttUser == c.mqttUser && r.mqttPass == c.mqttPass
  {
    c.(ssid := c.ssid[31 := 0], password := c.password[63 := 0],
       mqttHost := c.mqttHost[31 := 0], clientId := c.clientId[31 := 0])
  }

  /** What `loadConfig` leaves in `config` and `config_valid` for an EEPROM image. */
  function LoadConfig(mem: seq<byte>): (r: (Config, bool))
    requires |mem| == EEPROM_SIZE
    ensures WellFormed(r.0)
    ensures r.1 <==> mem[SSID_AT] !in {0, 255} && mem[HOST_AT] !in {0, 255}
  {
    var c := DecodeConfig(mem[CONFIG_START..CONFIG_START + CONFIG_BYTES]);
    if ConfigValid(c) then (Terminate(c), true) else (c, false)
  }

  // ---------------------------------------------------------------------
  // Last message record
  // ---------------------------------------------------------------------

  /** The characters of `message` that `toCharArray(buffer, 127)` copies: its C string, cut to 126. */
  function StoredText(message: seq<byte>): (t: seq<byte>)
    ensures |t| <= MESSAGE_MAX && |t| <= |message| && 0 !in t
    ensures t == message[..|t|]
    ensures |t| == Min(|CString(message)|, MESSAGE_MAX)
  {
    var s := CString(message);
    s[..Min(|s|, MESSAGE_MAX)]
  }

  /** The 128 bytes `saveLastMessage` writes: the stored text, then NUL fill. */
  function MessageRecord(message: seq<byte>): (r: seq<byte>)
    ensures |r| == MESSAGE_SIZE
    ensures r[..|StoredText(message)|] == StoredText(message)
    ensures forall i :: |StoredText(message)| <= i < MESSAGE_SIZE ==> r[i] == 0
  {
    var t := StoredText(message);
    t + Zeros(MESSAGE_SIZE - |t|)
  }

  /** `loadLastMessage` on the 128-byte record: nothing when the first byte is NUL or erased, else its C string. */
  function DecodeMessage(rec: seq<byte>): (r: Option<seq<byte>>)
    requires |rec| == MESSAGE_SIZE
    ensures r.Some? <==> rec[0] != 0 && rec[0] != 255
    ensures r.Some? ==> 1 <= |r.value| <= MESSAGE_SIZE && r.value == rec[..|r.value|] && 0 !in r.value
    ensures r.Some? && |r.value| < MESSAGE_SIZE ==> rec[|r.value|] == 0
  {
    if rec[0] == 0 || rec[0] == 255 then None else Some(CString(rec))
  }

  function StoredMessage(mem: seq<byte>): Option<seq<byte>>
    requires |mem| == EEPROM_SIZE
  {
    DecodeMessage(mem[MESSAGE_START..MESSAGE_START + MESSAGE_SIZE])
  }

  // ---------------------------------------------------------------------
  // Brightness and scroll speed
  // ---------------------------------------------------------------------

  /** `EEPROM.write(addr, brightness)`: the `int` is narrowed to `uint8_t`. */
  function BrightnessByte(brightness: int): (r: byte)
    ensures 0 <= brightness < 0x100 ==> r == brightness
    ensures 0 <= brightness <= 15 ==> DecodeBrightness(r) == Some(brightness)
  {
    brightness % 0x100
  }

  /** `loadBrightness`: only a stored 0..15 is taken. */
  function DecodeBrightness(stored: byte): (r: Option<int>)
    ensures r.Some? <==> stored <= 15
    ensures r.Some? ==> r.value == stored
  {
    if stored != 255 && 0 <= stored <= 15 then Some(stored) else None
  }

  function StoredBrightness(mem: seq<byte>): Option<int>
    requires |mem| == EEPROM_SIZE
  {
    DecodeBrightness(mem[BRIGHTNESS_ADDR])
  }

  /** `saveScrollSpeed`: `(speed >> 8) & 0xFF` then `speed & 0xFF`. */
  function SpeedBytes(speed: int): (r: seq<byte>)
    ensures |r| == 2
    ensures 0 <= speed < 0x1_0000 ==> r[0] as int * 0x100 + r[1] as int == speed
    ensures 50 <= speed <= 500 ==> DecodeSpeed(r[0], r[1]) == Some(speed)
  {
    [speed / 0x100 % 0x100, speed % 0x100]
  }

  /** `loadScrollSpeed`: `(high << 8) | low`, taken only when it is 50..500. */
  function DecodeSpeed(high: byte, low: byte): (r: Option<int>)
    ensures r.Some? <==> 50 <= high as int * 0x100 + low as int <= 500
    ensures r.Some? ==> r.value == high as int * 0x100 + low as int
  {
    var stored := high as int * 0x100 + low as int;
    if stored != 0xFFFF && 50 <= stored <= 500 then Some(stored) else None
  }

  function StoredScrollSpeed(mem: seq<byte>): Option<int>
    requires |mem| == EEPROM_SIZE
  {
    DecodeSpeed(mem[SCROLL_SPEED_ADDR], mem[SCROLL_SPEED_ADDR + 1])
  }

  // ---------------------------------------------------------------------
  // What each save does to what each load sees
  // ---------------------------------------------------------------------

  /** A blank (all 0xFF) EEPROM holds no record: every load keeps its default. */
  lemma ErasedImageLoadsNothing(mem: seq<byte>)
    requires |mem| == EEPROM_SIZE
    requires forall i :: 0 <= i < |mem| ==> mem[i] == 255
    ensures !LoadConfig(mem).1
    ensures StoredMessage(mem) == None
    ensures StoredBrightness(mem) == None
    ensures StoredScrollSpeed(mem) == None
  {
    assert mem[MESSAGE_START..MESSAGE_START + MESSAGE_SIZE][0] == mem[MESSAGE_START];
  }

  /**
    `saveLastMessage` then `loadLastMessage`: the message comes back cut to
    126 characters, unless it starts with a NUL or a 0xFF byte; brightness,
    scroll speed and the validity of the configuration are untouched, but
    `loadConfig` now reads the first four message bytes as `client_id[28..31]`.
   */
  lemma SaveMessageThenLoad(mem: seq<byte>, message: seq<byte>)
    requires |mem| == EEPROM_SIZE
    ensures var after := WriteAt(mem, MESSAGE_START, MessageRecord(message));
      && StoredMessage(after) == (if StoredText(message) != [] && StoredText(message)[0] != 255
                                  then Some(StoredText(message)) else None)
      && StoredBrightness(after) == StoredBrightness(mem)
      && StoredScrollSpeed(after) == StoredScrollSpeed(mem)
      && LoadConfig(after).1 == LoadConfig(mem).1
      && DecodeConfig(after[..CONFIG_BYTES]).clientId[28..] == MessageRecord(message)[..4]
  {
    var rec := MessageRecord(message);
    var after := WriteAt(mem, MESSAGE_START, rec);
    var t := StoredText(message);
    assert after[MESSAGE_START..MESSAGE_START + MESSAGE_SIZE] == rec;
    assert rec == t + Zeros(MESSAGE_SIZE - |t|);
    CStringOfTerminated(t, Zeros(MESSAGE_SIZE - |t|));
    assert after[BRIGHTNESS_ADDR] == mem[BRIGHTNESS_ADDR];
    assert after[SCROLL_SPEED_ADDR] == mem[SCROLL_SPEED_ADDR];
    assert after[SCROLL_SPEED_ADDR + 1] == mem[SCROLL_SPEED_ADDR + 1];
    assert after[SSID_AT] == mem[SSID_AT] && after[HOST_AT] == mem[HOST_AT];
    assert after[..CONFIG_BYTES][CLIENT_ID_AT..CONFIG_BYTES] == after[CLIENT_ID_AT..CONFIG_BYTES];
    assert after[MESSAGE_START..CONFIG_BYTES] == rec[..4];
  }

  /** `saveBrightness` then `loadBrightness` restores any 0..15 and changes no other record. */
  lemma SaveBrightnessThenLoad(mem: seq<byte>, brightness: int)
    requires |mem| == EEPROM_SIZE
    requires 0 <= brightness <= 15
    ensures var after := WriteAt(mem, BRIGHTNESS_ADDR, [BrightnessByte(brightness)]);
      && StoredBrightness(after) == Some(brightness)
      && StoredScrollSpeed(after) == StoredScrollSpeed(mem)
      && StoredMessage(after) == StoredMessage(mem)
      && LoadConfig(after) == LoadConfig(mem)
  {
    var after := WriteAt(mem, BRIGHTNESS_ADDR, [BrightnessByte(brightness)]);
    assert after[..BRIGHTNESS_ADDR] == mem[..BRIGHTNESS_ADDR];
    assert after[MESSAGE_START..MESSAGE_START + MESSAGE_SIZE] == mem[MESSAGE_START..MESSAGE_START + MESSAGE_SIZE];
    assert after[CONFIG_START..CONFIG_START + CONFIG_BYTES] == mem[CONFIG_START..CONFIG_START + CONFIG_BYTES];
    assert after[SCROLL_SPEED_ADDR] == mem[SCROLL_SPEED_ADDR];
    assert after[SCROLL_SPEED_ADDR + 1] == mem[SCROLL_SPEED_ADDR + 1];
  }

  /** `saveScrollSpeed` then `loadScrollSpeed` restores any speed in 50..500 and changes no other record. */
  lemma SaveScrollSpeedThenLoad(mem: seq<byte>, speed: int)
    requires |mem| == EEPROM_SIZE
    requires 50 <= speed <= 500
    ensures var after := WriteAt(mem, SCROLL_SPEED_ADDR, SpeedBytes(speed));
      && StoredScrollSpeed(after) == Some(speed)
      && StoredBrightness(after) == StoredBrightness(mem)
      && StoredMessage(after) == StoredMessage(mem)
      && LoadConfig(after) == LoadConfig(mem)
  {
    var after := WriteAt(mem, SCROLL_SPEED_ADDR, SpeedBytes(speed));
    assert after[..SCROLL_SPEED_ADDR] == mem[..SCROLL_SPEED_ADDR];
    assert after[MESSAGE_START..MESSAGE_START + MESSAGE_SIZE] == mem[MESSAGE_START..MESSAGE_START + MESSAGE_SIZE];
    assert after[CONFIG_START..CONFIG_START + CONFIG_BYTES] == mem[CONFIG_START..CONFIG_START + CONFIG_BYTES];
    assert after[BRIGHTNESS_ADDR] == mem[BRIGHTNESS_ADDR];
  }

  /**
    `saveConfig` then `loadConfig` gives back the configuration (with the
    forced NULs) and its validity; brightness and speed are untouched, but the
    message record now starts with `client_id[28..31]`.
   */
  lemma SaveConfigThenLoad(mem: seq<byte>, c: Config)
    requires |mem| == EEPROM_SIZE
    requires WellFormed(c)
    ensures var after := WriteAt(mem, CONFIG_START, EncodeConfig(c));
      && LoadConfig(after) == (if ConfigValid(c) then (Terminate(c), true) else (c, false))
      && StoredBrightness(after) == StoredBrightness(mem)
      && StoredScrollSpeed(after) == StoredScrollSpeed(mem)
      && StoredMessage(after) == DecodeMessage(c.clientId[28..] + mem[CONFIG_BYTES..MESSAGE_START + MESSAGE_SIZE])
  {
    var after := WriteAt(mem, CONFIG_START, EncodeConfig(c));
    assert after[CONFIG_START..CONFIG_START + CONFIG_BYTES] == EncodeConfig(c);
    DecodeEncodeConfig(c);
    ConfigSaveLeavesSettings(mem, EncodeConfig(c));
    ConfigSaveMessageBytes(mem, c);
  }

  /** A configuration write ends below the brightness and speed bytes. */
  lemma ConfigSaveLeavesSettings(mem: seq<byte>, e: seq<byte>)
    requires |mem| == EEPROM_SIZE && |e| == CONFIG_BYTES
    ensures var after := WriteAt(mem, CONFIG_START, e);
      && StoredBrightness(after) == StoredBrightness(mem)
      && StoredScrollSpeed(after) == StoredScrollSpeed(mem)
  {
    var after := WriteAt(mem, CONFIG_START, e);
    assert after[CONFIG_BYTES..] == mem[CONFIG_BYTES..];
    assert after[BRIGHTNESS_ADDR] == mem[BRIGHTNESS_ADDR];
    assert after[SCROLL_SPEED_ADDR] == mem[SCROLL_SPEED_ADDR];
    assert after[SCROLL_SPEED_ADDR + 1] == mem[SCROLL_SPEED_ADDR + 1];
  }

  /** The message record after a configuration write: `client_id[28..31]`, then the old bytes 260..383. */
  lemma ConfigSaveMessageBytes(mem: seq<byte>, c: Config)
    requires |mem| == EEPROM_SIZE && WellFormed(c)
    ensures WriteAt(mem, CONFIG_START, EncodeConfig(c))[MESSAGE_START..MESSAGE_START + MESSAGE_SIZE]
         == c.clientId[28..] + mem[CONFIG_BYTES..MESSAGE_START + MESSAGE_SIZE]
  {
    var e := EncodeConfig(c);
    var after := WriteAt(mem, CONFIG_START, e);
    assert e[MESSAGE_START..] == c.clientId[28..];
    assert after[MESSAGE_START..CONFIG_BYTES] == e[MESSAGE_START..];
    assert after[CONFIG_BYTES..MESSAGE_START + MESSAGE_SIZE] == mem[CONFIG_BYTES..MESSAGE_START + MESSAGE_SIZE];
    assert after[MESSAGE_START..MESSAGE_START + MESSAGE_SIZE]
        == after[MESSAGE_START..CONFIG_BYTES] + after[CONFIG_BYTES..MESSAGE_START + MESSAGE_SIZE];
  }


  /**
    `resetConfig` (all-zero configuration) then `loadConfig` finds no valid
    configuration, and the zeroes at 256..259 also erase the last message.
   */
  lemma ResetConfigThenLoad(mem: seq<byte>)
    requires |mem| == EEPROM_SIZE
    ensures var after := WriteAt(mem, CONFIG_START, EncodeConfig(ZeroConfig));
      && LoadConfig(after) == (ZeroConfig, false)
      && StoredMessage(after) == None
      && StoredBrightness(after) == StoredBrightness(mem)
      && StoredScrollSpeed(after) == StoredScrollSpeed(mem)
  {
    SaveConfigThenLoad(mem, ZeroConfig);
    assert ZeroConfig.ssid[0] == 0;
    assert ZeroConfig.clientId[28] == 0;
  }

  /**
    A configuration whose `client_id[31]` is NUL (every configuration
    `loadConfig` found valid) puts a NUL at address 259 when saved, so the
    last message then reads back as at most three characters.
   */
  lemma SaveConfigCutsMessage(mem: seq<byte>, c: Config)
    requires |mem| == EEPROM_SIZE
    requires WellFormed(c) && c.clientId[31] == 0
    ensures var after := WriteAt(mem, CONFIG_START, EncodeConfig(c));
      StoredMessage(after).Some? ==> |StoredMessage(after).value| <= 3
  {
    var after := WriteAt(mem, CONFIG_START, EncodeConfig(c));
    SaveConfigThenLoad(mem, c);
    var rec := c.clientId[28..] + mem[CONFIG_BYTES..MESSAGE_START + MESSAGE_SIZE];
    assert rec[3] == 0;
  }

  // ---------------------------------------------------------------------
  // A configuration record confined to its 256 reserved bytes
  // ---------------------------------------------------------------------

  /** The first CONFIG_SIZE bytes of the configuration: all the layout reserves for it. */
  function ConfigRecord(c: Config): (r: seq<byte>)
    requires WellFormed(c)
    ensures |r| == CONFIG_SIZE
  {
    EncodeConfig(c)[..CONFIG_SIZE]
  }

  /** Loading from the reserved bytes only; the four `client_id` bytes beyond them read as NUL. */
  function LoadConfigRecord(mem: seq<byte>): (r: (Config, bool))
    requires |mem| == EEPROM_SIZE
    ensures WellFormed(r.0) && r.0.clientId[28..] == [0, 0, 0, 0]
    ensures r.1 <==> mem[SSID_AT] !in {0, 255} && mem[HOST_AT] !in {0, 255}
  {
    var c := DecodeConfig(mem[CONFIG_START..CONFIG_START + CONFIG_SIZE] + Zeros(CONFIG_BYTES - CONFIG_SIZE));
    if ConfigValid(c) then (Terminate(c), true) else (c, false)
  }

  /**
    Saving within the reserved bytes keeps the records disjoint: the message,
    brightness and speed are untouched, and every configuration whose
    `client_id` fits in 28 bytes loads back unchanged.
   */
  lemma SaveConfigRecordThenLoad(mem: seq<byte>, c: Config)
    requires |mem| == EEPROM_SIZE
    requires WellFormed(c) && c.clientId[28..] == [0, 0, 0, 0]
    ensures var after := WriteAt(mem, CONFIG_START, ConfigRecord(c));
      && after[CONFIG_SIZE..] == mem[CONFIG_SIZE..]
      && LoadConfigRecord(after) == (if ConfigValid(c) then (Terminate(c), true) else (c, false))
      && StoredMessage(after) == StoredMessage(mem)
      && StoredBrightness(after) == StoredBrightness(mem)
      && StoredScrollSpeed(after) == StoredScrollSpeed(mem)
  {
    var after := WriteAt(mem, CONFIG_START, ConfigRecord(c));
    var e := EncodeConfig(c);
    assert e[CONFIG_SIZE..] == c.clientId[28..];
    assert after[CONFIG_START..CONFIG_START + CONFIG_SIZE] + Zeros(CONFIG_BYTES - CONFIG_SIZE) == e;
    DecodeEncodeConfig(c);
    assert after[MESSAGE_START..MESSAGE_START + MESSAGE_SIZE] == mem[MESSAGE_START..MESSAGE_START + MESSAGE_SIZE];
    assert after[BRIGHTNESS_ADDR] == mem[BRIGHTNESS_ADDR];
    assert after[SCROLL_SPEED_ADDR] == mem[SCROLL_SPEED_ADDR];
    assert after[SCROLL_SPEED_ADDR + 1] == mem[SCROLL_SPEED_ADDR + 1];
  }
}
