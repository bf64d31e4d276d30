/** Partitioning of the SPI flash (src/filesystem.cpp `configure_flash`):
    `[0, dataBegin)` firmware, `[dataBegin, dataEnd)` static files,
    `[logBegin, logEnd)` the record rotation pool, and five reserved sectors
    `[logEnd, flashSize)` for the SDK. `logBegin` is the same variable as
    `dataEnd`. All values are 32-bit unsigned in the source. */
module FlashLayout {
  import opened Words
  import opened Wrappers

  const SectorSize: nat := 4096
  const MaxDataSize: nat := 128 * 1024
  const ReservedSectors: nat := 5

  /** The SDK's flash size map, in the order of its enumeration. */
  datatype FlashSizeMap =
    | Flash4M_256_256
    | Flash2M
    | Flash8M_512_512
    | Flash16M_512_512
    | Flash32M_512_512
    | Flash16M_1024_1024
    | Flash32M_1024_1024
    | Flash32M_2048_2048
    | Flash64M_1024_1024
    | Flash128M_1024_1024

  /** The module-level globals that `configure_flash` assigns. */
  datatype Layout = Layout(flashSize: u32, dataBegin: u32, dataEnd: u32, logEnd: u32, supportsOta: bool)
  {
    /** `log_begin` is a reference to `data_end`. */
    function LogBegin(): u32 { dataEnd }

    /** Number of sectors in the rotation pool (`get_num_log_sectors`). */
    function NumLogSectors(): nat
    {
      if dataEnd <= logEnd then (logEnd - dataEnd) / SectorSize else 0
    }
  }

  /** The globals' values before the first call. */
  const Boot: Layout := Layout(0, 0, 0, 0, false)

  /** Flash size, data start and OTA flag for the maps the firmware knows;
      `None` for the rest, which leave the globals unchanged. */
  function KnownMap(m: FlashSizeMap): Option<(u32, u32, bool)>
  {
    match m
    case Flash4M_256_256 => Some((512 * 1024, 256 * 1024, false))
    case Flash8M_512_512 => Some((1024 * 1024, 512 * 1024, false))
    case Flash16M_512_512 => Some((2 * 1024 * 1024, 1024 * 1024, true))
    case Flash16M_1024_1024 => Some((2 * 1024 * 1024, 1024 * 1024, false))
    case Flash32M_512_512 => Some((4 * 1024 * 1024, 1024 * 1024, true))
    case Flash32M_1024_1024 => Some((4 * 1024 * 1024, 2 * 1024 * 1024, true))
    case Flash32M_2048_2048 => Some((4 * 1024 * 1024, 2 * 1024 * 1024, false))
    case Flash64M_1024_1024 => Some((8 * 1024 * 1024, 2 * 1024 * 1024, true))
    case Flash128M_1024_1024 => Some((16 * 1024 * 1024, 2 * 1024 * 1024, true))
    case Flash2M => None
  }

  /** `configure_flash()`, applied to the globals `prev` it finds. The OTA
      flag is only ever set, never cleared. */
  function ConfigureFlash(prev: Layout, m: FlashSizeMap): (l: Layout)
    ensures l.logEnd == (l.flashSize - ReservedSectors * SectorSize) % U32
    ensures KnownMap(m).None? ==> l.flashSize == prev.flashSize
    ensures KnownMap(m).Some? ==> l.flashSize == KnownMap(m).value.0
  {
    var (size, begin, ota) :=
      match KnownMap(m)
      case Some(v) => (v.0, v.1, prev.supportsOta || v.2)
      case None => (prev.flashSize, prev.dataBegin, prev.supportsOta);
    var logEnd := (size - ReservedSectors * SectorSize) % U32;
    if begin != 0 then
      var end := (begin + MaxDataSize) % U32;
      Layout(size, begin, if end > logEnd then logEnd else end, logEnd, ota)
    else
      Layout(size, logEnd, logEnd, logEnd, ota)
  }

  /** A layout the record store and the file store can work in. */
  predicate WellFormed(l: Layout)
  {
    && l.dataBegin % SectorSize == 0 && l.dataEnd % SectorSize == 0 && l.logEnd % SectorSize == 0
    && l.dataBegin < l.dataEnd < l.logEnd
    && l.logEnd + ReservedSectors * SectorSize == l.flashSize
  }

  /** For every map the firmware knows, whatever the globals held before:
      the log ends five sectors before the end of flash, the data area is
      at most 128 KiB and is cut short by the log, and the rotation pool is
      not empty. */
  lemma KnownMapLayout(prev: Layout, m: FlashSizeMap)
    requires KnownMap(m).Some?
    ensures var l := ConfigureFlash(prev, m);
      && WellFormed(l)
      && l.dataBegin == KnownMap(m).value.1
      && l.dataEnd == Min(l.dataBegin + MaxDataSize, l.logEnd)
      && l.LogBegin() == l.dataEnd
      && l.NumLogSectors() >= 1
  {
  }

  function Min(a: int, b: int): int { if a < b then a else b }

  /** On a map the firmware does not know, starting from the boot values,
      the flash size stays 0, `logEnd` wraps round to 0xFFFFB000 and the
      rotation pool is empty, so the record store reports "config area not
      available". */
  lemma UnknownMapLeavesNoPool()
    ensures var l := ConfigureFlash(Boot, Flash2M);
      && l.logEnd == 0xFFFF_B000 && l.LogBegin() == l.logEnd && l.dataBegin == l.logEnd
      && l.NumLogSectors() == 0
  {
  }

  /** The layout the unit-test mock reports (a 4 MiB NodeMCU board): the
      mock's allowed sector window [0x100, 0x3FB) is exactly
      [dataBegin, logEnd), and the pool has 731 sectors. */
  lemma MockLayout()
    ensures var l := ConfigureFlash(Boot, Flash32M_512_512);
      && l.dataBegin == 0x10_0000 && l.dataEnd == 0x12_0000 && l.logEnd == 0x3F_B000
      && l.NumLogSectors() == 731
  {
  }

  /** `user_rf_cal_sector_set()` as written: the sector index of `data_end`. */
  function RfCalSectorAsWritten(l: Layout): nat
  {
    l.dataEnd / SectorSize
  }

  /** For every known map the sector handed to the SDK for its RF
      calibration data is the first sector of the record rotation pool,
      not one of the five reserved sectors at the end of flash. */
  lemma RfCalSectorAsWrittenIsInPool(prev: Layout, m: FlashSizeMap)
    requires KnownMap(m).Some?
    ensures var l := ConfigureFlash(prev, m);
      && RfCalSectorAsWritten(l) * SectorSize == l.LogBegin()
      && l.LogBegin() < l.logEnd
  {
  }

  /** The sector the SDK should be given: the first of the five reserved
      sectors, i.e. the sector of `log_end`. */
  function RfCalSector(l: Layout): nat
  {
    l.logEnd / SectorSize
  }

  /** For every known map the corrected sector and the four after it lie
      in the reserved tail of flash, outside both the data area and the
      rotation pool. */
  lemma RfCalSectorIsReserved(prev: Layout, m: FlashSizeMap)
    requires KnownMap(m).Some?
    ensures var l := ConfigureFlash(prev, m);
      && RfCalSector(l) * SectorSize == l.logEnd
      && (RfCalSector(l) + ReservedSectors) * SectorSize == l.flashSize
      && l.LogBegin() < l.logEnd && l.dataEnd <= l.logEnd
  {
  }
}
