/** The layout of the sprinkler configuration record (src/configlog.h)
    inside the 1024-word record image the record store keeps: the
    `config_base` header (words 0..3), six 24-byte `zone_settings` (words
    4..39), the `uint16_t last_log_idx` (low half of word 40; the high half
    is padding), and the event log, one 8-byte `log_entry` per two words
    from word 41 on. Bit-fields are allocated from the least significant
    bit of their unit, as the little-endian GCC ABI of the firmware does. */
module ConfigLayout {
  import opened Words
  import opened Records

  const NumZones: nat := 6
  const ZoneBytes: nat := 24
  const HeaderBytes: nat := 16
  /** `sizeof(config_settings)`: header, zones, `last_log_idx`, two bytes
      of padding to the 32-bit alignment. */
  const SettingsBytes: nat := 164
  const EntryBytes: nat := 8
  const ConfigSize: nat := 0x1000
  /** The number of `log_entry` slots of `config::log`,
      `(config_size - sizeof(config_settings)) / sizeof(log_entry)`. */
  const LogCapacity: nat := 491

  const LastLogIdxWord: nat := 40
  const LogWord: nat := 41

  /** `sizeof(config)`. */
  function ConfigBytes(): nat
  {
    SettingsBytes + EntryBytes * LogCapacity
  }

  /** The static assertions of configlog.h: the record fits one sector with
      less than one entry of slack, the settings end where the log begins,
      and the capacity is what fits after the settings. */
  lemma ConfigFitsSector()
    ensures ConfigBytes() <= ConfigSize && ConfigSize - ConfigBytes() < EntryBytes
    ensures HeaderBytes + NumZones * ZoneBytes + 2 == LastLogIdxWord * 4 + 2
    ensures LogWord * 4 == SettingsBytes && LogCapacity == (ConfigSize - SettingsBytes) / EntryBytes
    ensures LogWord + 2 * LogCapacity <= RecordWords
  {
  }

  // ---------------------------------------------------------------------
  // Event codes and log entries.

  /** `LOG_ZERO` and `LOG_INVALID`: the two sentinels around the valid codes. */
  const LogZero: nat := 0
  const LogInvalid: nat := 8
  const LogConfigUpdate: nat := 1
  const LogCodeBits: nat := 4
  const DataLimit: nat := 0x1000_0000

  predicate ValidCode(event: int)
  {
    LogZero < event < LogInvalid
  }

  /** `log_entry`: a 32-bit timestamp, a 4-bit event code and 28-bit data. */
  datatype LogEntry = LogEntry(timestamp: u32, event: nat, data: nat)
  {
    predicate Fields()
    {
      event < 16 && data < DataLimit
    }
  }

  /** The two words `log_entry` occupies. */
  function EncodeEntry(e: LogEntry): (ws: seq<u32>)
    requires e.Fields()
    ensures |ws| == 2 && ws[0] == e.timestamp
  {
    [e.timestamp, e.event + 16 * e.data]
  }

  function DecodeEntry(w0: u32, w1: u32): (e: LogEntry)
    ensures e.Fields()
  {
    LogEntry(w0, w1 % 16, w1 / 16)
  }

  /** `log_entry` is exactly 8 bytes: any two words are an entry, and an
      entry's fields survive being stored. */
  lemma EntryRoundTrip(e: LogEntry, w0: u32, w1: u32)
    requires e.Fields()
    ensures DecodeEntry(EncodeEntry(e)[0], EncodeEntry(e)[1]) == e
    ensures EncodeEntry(DecodeEntry(w0, w1)) == [w0, w1]
  {
    DivUnique(e.event + 16 * e.data, 16, e.data, e.event);
  }

  /** What an erased entry reads as: timestamp `~0u`, code 15. */
  const ErasedEntry: LogEntry := DecodeEntry(Ones, Ones)

  /** First word of entry `k` of the log. */
  function EntryWord(k: nat): nat
  {
    LogWord + 2 * k
  }

  /** `cfg->log[k]`. */
  function EntryAt(img: seq<u32>, k: nat): (e: LogEntry)
    requires IsImage(img) && k < LogCapacity
    ensures e.Fields()
  {
    DecodeEntry(img[EntryWord(k)], img[EntryWord(k) + 1])
  }

  /** `log[k].timestamp = ...; log[k].event = ...; log[k].data = ...`:
      only the two words of entry `k` change. */
  function SetEntry(img: seq<u32>, k: nat, e: LogEntry): (r: seq<u32>)
    requires IsImage(img) && k < LogCapacity && e.Fields()
    ensures IsImage(r) && EntryAt(r, k) == e
    ensures forall w :: 0 <= w < RecordWords && w != EntryWord(k) && w != EntryWord(k) + 1 ==> r[w] == img[w]
  {
    var w1 := e.event + 16 * e.data;
    DivUnique(w1, 16, e.data, e.event);
    img[EntryWord(k) := e.timestamp][EntryWord(k) + 1 := w1]
  }

  /** `cfg->last_log_idx`. */
  function LastLogIdx(img: seq<u32>): u16
    requires IsImage(img)
  {
    img[LastLogIdxWord] % U16
  }

  /** `cfg->last_log_idx = v`: the padding half of the word is kept. */
  function SetLastLogIdx(img: seq<u32>, v: u16): (r: seq<u32>)
    requires IsImage(img)
    ensures IsImage(r) && LastLogIdx(r) == v
    ensures r[LastLogIdxWord] / U16 == img[LastLogIdxWord] / U16
    ensures forall w :: 0 <= w < RecordWords && w != LastLogIdxWord ==> r[w] == img[w]
  {
    var hi := img[LastLogIdxWord] / U16;
    DivUnique(hi * U16 + v, U16, hi, v);
    img[LastLogIdxWord := hi * U16 + v]
  }

  /** The log array of a record, as entries. */
  function LogOf(img: seq<u32>): (log: seq<LogEntry>)
    requires IsImage(img)
    ensures |log| == LogCapacity
    ensures forall k :: 0 <= k < LogCapacity ==> log[k] == EntryAt(img, k)
  {
    seq(LogCapacity, k requires 0 <= k < LogCapacity => EntryAt(img, k))
  }

  /** Is word `w` one of the log array's? */
  predicate InLog(w: int)
  {
    LogWord <= w < EntryWord(LogCapacity)
  }

  /** `os_memcpy(cfg->log, next->log, sizeof(cfg->log));
      cfg->last_log_idx = next->last_log_idx;` */
  function CopyLog(dst: seq<u32>, src: seq<u32>): (r: seq<u32>)
    requires IsImage(dst) && IsImage(src)
    ensures IsImage(r) && LogOf(r) == LogOf(src) && LastLogIdx(r) == LastLogIdx(src)
    ensures r[LastLogIdxWord] / U16 == dst[LastLogIdxWord] / U16
    ensures forall w :: 0 <= w < RecordWords && !InLog(w) && w != LastLogIdxWord ==> r[w] == dst[w]
  {
    var moved := seq(RecordWords, w requires 0 <= w < RecordWords => if InLog(w) then src[w] else dst[w]);
    SetLastLogIdx(moved, LastLogIdx(src))
  }

  // ---------------------------------------------------------------------
  // Zone settings.

  const NameBytes: nat := 21

  /** `zone_settings`: `order` 3 bits, `time_min` 6 bits, `days` 7 bits,
      `dow` 1 bit, a 21-byte name. With `dow` set, `days` is a mask of
      weekdays (bit 0 Monday .. bit 6 Sunday); otherwise it waters every
      `days` days, 0 meaning never. */
  datatype Zone = Zone(order: nat, timeMin: nat, days: nat, dow: bool, name: seq<byte>)
  {
    predicate Fields()
    {
      order < 8 && timeMin < 64 && days < 128 && |name| == NameBytes
    }
  }

  /** First word of zone `i`. */
  function ZoneWord(i: nat): nat
  {
    HeaderBytes / 4 + (ZoneBytes / 4) * i
  }

  /** Byte `b` of a little-endian word. */
  function ByteOf(w: u32, b: nat): byte
    requires b < 4
  {
    if b == 0 then w % 256 else if b == 1 then w / 0x100 % 256
    else if b == 2 then w / 0x1_0000 % 256 else w / 0x100_0000
  }

  /** The bytes of `name`: byte 3 of the first zone word, then the five
      words after it. */
  function NameOf(img: seq<u32>, i: nat): (name: seq<byte>)
    requires IsImage(img) && i < NumZones
    ensures |name| == NameBytes
  {
    var w := ZoneWord(i);
    seq(NameBytes, j requires 0 <= j < NameBytes =>
      if j == 0 then ByteOf(img[w], 3) else ByteOf(img[w + 1 + (j - 1) / 4], (j - 1) % 4))
  }

  /** `cfg->zones[i]`: `order` in bits 0..2 of its first word, `time_min`
      in bits 8..13 (a `uint8_t` field does not straddle a byte), `days` in
      bits 16..22, `dow` in bit 23. */
  function ZoneAt(img: seq<u32>, i: nat): (z: Zone)
    requires IsImage(img) && i < NumZones
    ensures z.Fields()
  {
    var w0 := img[ZoneWord(i)];
    Zone(w0 % 8, w0 / 0x100 % 64, w0 / 0x1_0000 % 128, w0 / 0x80_0000 % 2 == 1, NameOf(img, i))
  }

  /** The padding bits of a zone's first word (bits 3..7 and 14..15),
      which assigning the fields leaves as they were. */
  function ZonePadding(w0: u32): nat
  {
    (w0 / 8 % 32) * 8 + (w0 / 0x4000 % 4) * 0x4000
  }

  lemma ZoneWordFields(p: nat, order: nat)
    requires p < 32 && order < 8
    ensures var w0 := p * 8 + order;
      w0 < U32 && w0 % 8 == order && w0 / 0x100 % 64 == 0 && w0 / 0x1_0000 % 128 == 0
      && w0 / 0x80_0000 % 2 == 0 && w0 / 0x100_0000 == 0 && w0 / 8 % 32 == p && w0 / 0x4000 % 4 == 0
  {
    DivUnique(p * 8 + order, 8, p, order);
  }

  lemma ZonePaddingFields(w: u32, order: nat)
    requires order < 8
    ensures var w0 := ZonePadding(w) + order;
      w0 < U32 && w0 % 8 == order && w0 / 0x100 % 64 == 0 && w0 / 0x1_0000 % 128 == 0
      && w0 / 0x80_0000 % 2 == 0 && w0 / 0x100_0000 == 0 && ZonePadding(w0) == ZonePadding(w)
  {
    var p, q := w / 8 % 32, w / 0x4000 % 4;
    var w0 := ZonePadding(w) + order;
    ZoneWordFields(p, order);
    var lowPart := p * 8 + order;
    // w0 == q * 0x4000 + lowPart, with lowPart < 256.
    DivUnique(w0, 0x100, q * 64, lowPart);
    DivUnique(q * 64, 64, q, 0);
    DivUnique(w0, 0x4000, q, lowPart);
    DivUnique(w0, 8, q * 0x800 + p, order);
    DivUnique(q * 0x800 + p, 32, q * 64, p);
    DivUnique(w0, 0x1_0000, 0, w0);
    DivUnique(w0, 0x80_0000, 0, w0);
    DivUnique(w0, 0x100_0000, 0, w0);
  }

  /** A zone is read from its own six words only. */
  lemma ZoneFrame(a: seq<u32>, b: seq<u32>, i: nat)
    requires IsImage(a) && IsImage(b) && i < NumZones
    requires forall w :: ZoneWord(i) <= w < ZoneWord(i) + 6 ==> a[w] == b[w]
    ensures ZoneAt(a, i) == ZoneAt(b, i)
  {
    assert NameOf(a, i) == NameOf(b, i);
  }

  /** A zone whose name bytes all lie in zero bytes has the empty name. */
  lemma ZeroName(r: seq<u32>, i: nat)
    requires IsImage(r) && i < NumZones && r[ZoneWord(i)] / 0x100_0000 == 0
    requires forall w :: ZoneWord(i) < w < ZoneWord(i) + 6 ==> r[w] == 0
    ensures NameOf(r, i) == Zeros(NameBytes)
  {
    var z := ZoneWord(i);
    forall j | 0 <= j < NameBytes
      ensures NameOf(r, i)[j] == 0
    {
      if j > 0 {
        var w := z + 1 + (j - 1) / 4;
        assert z < w < z + 6 && r[w] == 0;
      }
    }
  }

  /** What `get_config` writes into zone `i` of a virgin record: `order`
      i + 1, a zero time, no days, interval mode and an empty name. The
      padding bits are kept. */
  function SetDefaultZone(img: seq<u32>, i: nat): (r: seq<u32>)
    requires IsImage(img) && i < NumZones
    ensures IsImage(r) && ZoneAt(r, i) == Zone(i + 1, 0, 0, false, Zeros(NameBytes))
    ensures ZonePadding(r[ZoneWord(i)]) == ZonePadding(img[ZoneWord(i)])
    ensures forall w :: 0 <= w < RecordWords && !(ZoneWord(i) <= w < ZoneWord(i) + 6) ==> r[w] == img[w]
  {
    var z := ZoneWord(i);
    ZonePaddingFields(img[z], i + 1);
    var w0 := ZonePadding(img[z]) + i + 1;
    var r := img[z := w0][z + 1 := 0][z + 2 := 0][z + 3 := 0][z + 4 := 0][z + 5 := 0];
    assert r[z] == w0;
    ZeroName(r, i);
    r
  }
}
