/** The configuration record store of src/filesystem.cpp: a pool of N
    flash sectors `[logBegin, logEnd)` written round-robin, one 4096-byte
    record per sector, each carrying an id one greater than the last. The
    newest record is found again after a reboot with a binary search over
    the rotated pool, and writes are rate-limited and deferred to the next
    midnight when the limit fires. */
module RecordStore {
  import opened Words
  import opened Wrappers
  import opened Checksums
  import opened Records
  import opened FlashLayout
  import opened SectorStore
  import opened RateLimit

  // ---------------------------------------------------------------------
  // Pool arithmetic on byte addresses.

  /** The layout holds a non-empty, sector-aligned pool whose addresses
      add up without wrapping. */
  predicate PoolShape(l: Layout)
  {
    && l.LogBegin() < l.logEnd
    && l.LogBegin() % SectorBytes == 0
    && l.logEnd == l.LogBegin() + SectorBytes * l.NumLogSectors()
    && 2 * l.logEnd < U32
  }

  /** ... and lies inside a flash of `words` words. */
  predicate Fits(l: Layout, words: nat)
  {
    PoolShape(l) && l.logEnd / 4 <= words
  }

  /** Byte address of slot `j`. */
  function SlotAddr(l: Layout, j: nat): int
  {
    l.LogBegin() + SectorBytes * j
  }

  /** Word index of the first word of slot `j`. */
  function SlotWord(l: Layout, j: nat): nat
  {
    l.LogBegin() / 4 + WordsPerSector * j
  }

  predicate InPool(l: Layout, a: int)
  {
    l.LogBegin() <= a < l.logEnd && (a - l.LogBegin()) % SectorBytes == 0
  }

  /** The slot an address in the pool designates; `logEnd` itself, what
      the locator records for an empty pool, designates N. */
  function SlotIndex(l: Layout, a: int): int
  {
    (a - l.LogBegin()) / SectorBytes
  }

  lemma SlotAddrWord(l: Layout, j: nat)
    requires l.LogBegin() % SectorBytes == 0
    ensures SlotAddr(l, j) % SectorBytes == 0 && SlotAddr(l, j) / 4 == SlotWord(l, j)
  {
    var b := l.LogBegin() / SectorBytes;
    DivUnique(SlotAddr(l, j), 4, WordsPerSector * (b + j), 0);
    DivUnique(SlotAddr(l, j), SectorBytes, b + j, 0);
    DivUnique(l.LogBegin(), 4, WordsPerSector * b, 0);
  }

  /** Slots of a fitting pool are exactly the pool addresses, one per
      sector, and every slot's words lie in the flash. */
  lemma SlotInPool(l: Layout, words: nat, j: nat)
    requires Fits(l, words) && j < l.NumLogSectors()
    ensures InPool(l, SlotAddr(l, j)) && SlotIndex(l, SlotAddr(l, j)) == j
    ensures SlotAddr(l, j) % SectorBytes == 0 && SlotAddr(l, j) / 4 == SlotWord(l, j)
    ensures SlotWord(l, j) + WordsPerSector <= words
  {
    SlotAddrWord(l, j);
    DivUnique(SectorBytes * j, SectorBytes, j, 0);
    SlotAddrWord(l, l.NumLogSectors());
  }

  lemma PoolAddrSlot(l: Layout, a: int)
    requires PoolShape(l) && InPool(l, a)
    ensures 0 <= SlotIndex(l, a) < l.NumLogSectors() && a == SlotAddr(l, SlotIndex(l, a))
  {
    var j := SlotIndex(l, a);
    assert a - l.LogBegin() == SectorBytes * j;
  }

  lemma SlotAddrInPool(l: Layout, j: nat)
    requires PoolShape(l) && j < l.NumLogSectors()
    ensures InPool(l, SlotAddr(l, j)) && SlotIndex(l, SlotAddr(l, j)) == j
  {
    DivUnique(SectorBytes * j, SectorBytes, j, 0);
  }

  /** `write_config_sector`'s choice of the sector to write: the one after
      `cfg_addr`, wrapping to `log_begin` at or past `log_end`. */
  function NextSlotAddr(l: Layout, a: u32): u32
  {
    var w := (a + SectorBytes) % U32;
    if w >= l.logEnd then l.LogBegin() else w
  }

  /** Writes go round-robin: from slot j the next write lands in slot
      j + 1 mod N, and from `logEnd` (nothing written yet) in slot 0. */
  lemma NextSlotRoundRobin(l: Layout, a: u32)
    requires PoolShape(l) && (a == l.logEnd || InPool(l, a))
    ensures InPool(l, NextSlotAddr(l, a))
    ensures a == l.logEnd ==> SlotIndex(l, NextSlotAddr(l, a)) == 0
    ensures a != l.logEnd ==>
      SlotIndex(l, NextSlotAddr(l, a)) == (SlotIndex(l, a) + 1) % l.NumLogSectors()
  {
    var n := l.NumLogSectors();
    if a == l.logEnd {
      assert NextSlotAddr(l, a) == SlotAddr(l, 0);
      SlotAddrInPool(l, 0);
    } else {
      PoolAddrSlot(l, a);
      NextFromSlot(l, a, SlotIndex(l, a), n);
    }
  }

  /** From slot `j` of `n` the next write lands in slot `j + 1 mod n`. */
  lemma NextFromSlot(l: Layout, a: u32, j: nat, n: nat)
    requires PoolShape(l) && n == l.NumLogSectors() && j < n && a == SlotAddr(l, j)
    ensures InPool(l, NextSlotAddr(l, a)) && SlotIndex(l, NextSlotAddr(l, a)) == (j + 1) % n
  {
    var s := a + SectorBytes;
    assert s == SlotAddr(l, j + 1) by {
      assert SectorBytes * (j + 1) == SectorBytes * j + SectorBytes;
    }
    if j + 1 < n {
      assert s < l.logEnd by {
        MulLess(j + 1, n, SectorBytes);
      }
      assert NextSlotAddr(l, a) == SlotAddr(l, j + 1) by {
        assert s % U32 == s;
      }
      SlotAddrInPool(l, j + 1);
      DivUnique(j + 1, n, 0, j + 1);
    } else {
      assert s == l.logEnd;
      assert NextSlotAddr(l, a) == SlotAddr(l, 0) by {
        assert s % U32 == s;
      }
      SlotAddrInPool(l, 0);
      DivUnique(j + 1, n, 1, 0);
    }
  }

  lemma MulLess(x: nat, y: nat, c: nat)
    requires x < y && c > 0
    ensures c * x < c * y
  {
  }

  /** The slot `load_config(delta)` reads: `delta` slots on from the one
      `cfg_addr` designates, modulo N (`logEnd` designates slot 0, the
      virgin slot the record was read from). `load_config(int)` and
      `get_num_log_sectors()` are called in src/configlog.cpp but defined
      nowhere in src/; this reading is the one their call sites and
      tests/configlog_unit.cpp rely on. */
  function RelativeSlot(l: Layout, addr: int, delta: int): (j: nat)
    requires l.NumLogSectors() > 0
    ensures j < l.NumLogSectors()
  {
    (SlotIndex(l, addr) + delta) % l.NumLogSectors()
  }

  /** `load_config(1)` reads exactly the slot the next
      `write_config_sector` will erase and overwrite, so the event log
      copies its history forward from the oldest record before it is
      lost; `load_config(0)` reads the current slot back. */
  lemma RelativeSlotNext(l: Layout, addr: u32)
    requires PoolShape(l) && InPool(l, addr)
    ensures RelativeSlot(l, addr, 1) == SlotIndex(l, NextSlotAddr(l, addr))
    ensures RelativeSlot(l, addr, 0) == SlotIndex(l, addr)
  {
    NextSlotRoundRobin(l, addr);
    PoolAddrSlot(l, addr);
    DivUnique(SlotIndex(l, addr), l.NumLogSectors(), 0, SlotIndex(l, addr));
  }

  // ---------------------------------------------------------------------
  // The pool as seen in the flash words.

  /** The record image held in slot `j`. */
  function SlotOf(l: Layout, mem: seq<u32>, j: nat): (img: seq<u32>)
    requires SlotWord(l, j) + WordsPerSector <= |mem|
    ensures IsImage(img)
  {
    mem[SlotWord(l, j) .. SlotWord(l, j) + WordsPerSector]
  }

  /** The ids of slots 0..N-1. */
  function PoolIdsOf(l: Layout, mem: seq<u32>): (ids: seq<u32>)
    requires Fits(l, |mem|)
    ensures |ids| == l.NumLogSectors()
    ensures forall j :: 0 <= j < |ids| ==> SlotWord(l, j) + WordsPerSector <= |mem| && ids[j] == SlotOf(l, mem, j)[1]
  {
    var n := l.NumLogSectors();
    forall j | 0 <= j < n ensures SlotWord(l, j) + WordsPerSector <= |mem| {
      SlotInPool(l, |mem|, j);
    }
    seq(n, j requires 0 <= j < n => mem[SlotWord(l, j) + 1])
  }

  /** Writing a record into slot j replaces that slot's image and its id
      and no other slot's. */
  lemma OverwriteSlot(l: Layout, mem: seq<u32>, j: nat, img: seq<u32>)
    requires Fits(l, |mem|) && j < l.NumLogSectors() && IsImage(img)
    ensures SlotWord(l, j) + |img| <= |mem|
    ensures var m := Overwrite(mem, SlotWord(l, j), img);
      && Fits(l, |m|)
      && SlotOf(l, m, j) == img
      && (forall k :: 0 <= k < l.NumLogSectors() && k != j ==> SlotOf(l, m, k) == SlotOf(l, mem, k))
      && PoolIdsOf(l, m) == PoolIdsOf(l, mem)[j := img[1]]
  {
    SlotInPool(l, |mem|, j);
    var m := Overwrite(mem, SlotWord(l, j), img);
    forall k | 0 <= k < l.NumLogSectors() && k != j ensures SlotOf(l, m, k) == SlotOf(l, mem, k) {
      SlotInPool(l, |mem|, k);
    }
  }

  /** The probe address of the locator, `((low + high) / 8192) * 4096` in
      32-bit arithmetic. */
  function MidAddr(lowAddr: u32, highAddr: u32): u32
  {
    (((lowAddr + highAddr) % U32) / (2 * SectorBytes)) * SectorBytes
  }

  /** The probe falls on the slot halfway between the two ends, whatever
      the parity of the pool's first sector, and never wraps. */
  lemma MidSlot(l: Layout, lo: nat, hi: nat)
    requires PoolShape(l) && lo < hi < l.NumLogSectors()
    ensures SlotAddr(l, lo) < U32 && SlotAddr(l, hi) < U32
    ensures MidAddr(SlotAddr(l, lo), SlotAddr(l, hi)) == SlotAddr(l, (lo + hi) / 2)
  {
    var b := l.LogBegin() / SectorBytes;
    var sum := SlotAddr(l, lo) + SlotAddr(l, hi);
    assert sum < U32;
    assert sum == 2 * SectorBytes * (b + (lo + hi) / 2) + SectorBytes * ((lo + hi) % 2);
    DivUnique(sum, 2 * SectorBytes, b + (lo + hi) / 2, SectorBytes * ((lo + hi) % 2));
  }

  /** What the store's globals and the flash say together: either nothing
      has been written (`cfg_addr == log_end`, every slot virgin), or
      `cfg_addr` is the newest slot of a rotated pool and `cfg_last` carries
      its id. */
  ghost predicate PoolCoherent(l: Layout, mem: seq<u32>, addr: int, last: Header)
  {
    && Fits(l, |mem|)
    && (addr == l.logEnd ==> forall j :: 0 <= j < l.NumLogSectors() ==> PoolIdsOf(l, mem)[j] == Ones)
    && (addr != l.logEnd ==>
          && InPool(l, addr)
          && RotatedAt(PoolIdsOf(l, mem), SlotIndex(l, addr))
          && last.id == PoolIdsOf(l, mem)[SlotIndex(l, addr)])
  }

  /** Where `write_config_sector` writes: a whole sector of the pool. */
  lemma NextSlotSector(l: Layout, words: nat, addr: u32)
    requires Fits(l, words) && (addr == l.logEnd || InPool(l, addr))
    ensures var w := NextSlotAddr(l, addr);
      && InPool(l, w) && w % SectorBytes == 0
      && w / 4 + WordsPerSector <= words && (w / SectorBytes) * WordsPerSector == w / 4
  {
    NextSlotRoundRobin(l, addr);
    var w := NextSlotAddr(l, addr);
    PoolAddrSlot(l, w);
    SlotInPool(l, words, SlotIndex(l, w));
  }

  /** A record whose id is one more than `cfg_last`'s (32-bit), written
      into the slot `write_config_sector` picks, keeps the store coherent,
      as long as the id is not the virgin value 0xFFFFFFFF. */
  lemma WriteKeepsCoherent(l: Layout, mem: seq<u32>, addr: u32, last: Header, config: seq<u32>)
    requires PoolCoherent(l, mem, addr, last) && IsImage(config)
    requires config[1] == (last.id + 1) % U32 && config[1] != Ones
    ensures var w := NextSlotAddr(l, addr);
      && InPool(l, w) && w / 4 + WordsPerSector <= |mem|
      && PoolCoherent(l, Overwrite(mem, w / 4, config), w, HeaderOf(config))
  {
    var n := l.NumLogSectors();
    var ids := PoolIdsOf(l, mem);
    var w := NextSlotAddr(l, addr);
    NextSlotRoundRobin(l, addr);
    PoolAddrSlot(l, w);
    var u := SlotIndex(l, w);
    SlotInPool(l, |mem|, u);
    OverwriteSlot(l, mem, u, config);
    if addr == l.logEnd {
      RotatedFirst(ids, config[1]);
    } else {
      var t := SlotIndex(l, addr);
      RotatedMax(ids, t);
      RotatedStep(ids, t, config[1]);
    }
  }

  /** The first save after a load that found an empty pool (`cfg_last`
      still `InitialLast`) stamps id 0 with the clock as first timestamp,
      so the rate limiter never holds it back. */
  lemma FirstSaveNotDeferred(img: seq<u32>, now: u32)
    requires IsImage(img)
    ensures var rec := Stamp(img, InitialLast, now);
      rec[1] == 0 && rec[3] == now && !WritingTooFast(now, rec[3], rec[1])
  {
  }

  /** A later save whose clock is not past the first timestamp (the clock
      went back, or two saves within the first second) is always held
      back. */
  lemma EarlyClockDeferred(img: seq<u32>, last: Header, now: u32)
    requires IsImage(img) && last.firstTimestamp != 0 && last.id != Ones
    requires now <= last.firstTimestamp
    ensures var rec := Stamp(img, last, now);
      rec[3] == last.firstTimestamp && rec[1] == last.id + 1 && WritingTooFast(now, rec[3], rec[1])
  {
  }

  // ---------------------------------------------------------------------
  // The store: the module globals of src/filesystem.cpp over one flash.

  class Store {
    const layout: Layout
    const flash: Flash
    /** `cfg`: the cached current record, once loaded. */
    var cfg: Option<seq<u32>>
    /** `cfg_addr`: address of the slot `cfg` was read from or written to. */
    var cfgAddr: u32
    /** `cfg_last`: header of the last record read or written. */
    var cfgLast: Header
    /** `cfg_write_delayed`: 0, or the clock at which the pending deferred
        write may fire; the 60-second timer is armed exactly while it is
        not 0. */
    var writeDelayed: u32

    ghost predicate Valid()
      reads this, flash
    {
      && flash.Valid()
      && (cfg.Some? ==>
            && IsImage(cfg.value)
            && Fits(layout, |flash.mem|)
            && (cfgAddr == layout.logEnd || InPool(layout, cfgAddr)))
    }

    /** Boot state: nothing loaded, `cfg_addr == ~0u`, `cfg_last` as
        `InitialLast`, no deferred write. */
    constructor (l: Layout, f: Flash)
      requires f.Valid()
      ensures Valid() && layout == l && flash == f
      ensures cfg == None && cfgAddr == Ones && cfgLast == InitialLast && writeDelayed == 0
    {
      layout := l;
      flash := f;
      cfg := None;
      cfgAddr := Ones;
      cfgLast := InitialLast;
      writeDelayed := 0;
    }

    /** `PoolCoherent` of the store as it is now. */
    ghost predicate Coherent()
      reads this`cfgAddr, this`cfgLast, flash
    {
      flash.Valid() && PoolCoherent(layout, flash.mem, cfgAddr, cfgLast)
    }

    /** The ids of the pool's slots in the flash as it is now. */
    ghost function PoolIds(): (ids: seq<u32>)
      reads flash
      requires Fits(layout, |flash.mem|)
      ensures |ids| == layout.NumLogSectors()
    {
      PoolIdsOf(layout, flash.mem)
    }

    ghost function Slot(j: nat): (img: seq<u32>)
      reads flash
      requires Fits(layout, |flash.mem|) && j < layout.NumLogSectors()
      ensures IsImage(img)
    {
      SlotInPool(layout, |flash.mem|, j);
      SlotOf(layout, flash.mem, j)
    }

    /** `read_config(addr)`: read a sector and validate it. A virgin sector
        is returned without its checksum being looked at. */
    method ReadConfig(addr: u32) returns (r: Option<seq<u32>>)
      requires flash.Valid() && addr % SectorBytes == 0
      ensures r.Some? ==>
                && addr / 4 + WordsPerSector <= |flash.mem|
                && r.value == flash.mem[addr / 4 .. addr / 4 + WordsPerSector]
                && Accepted(r.value)
      ensures (addr / 4 + WordsPerSector <= |flash.mem| &&
               !Accepted(flash.mem[addr / 4 .. addr / 4 + WordsPerSector])) ==> r.None?
    {
      var ok, data := flash.Read(addr, WordsPerSector);
      if !ok {
        return None;
      }
      if data[1] == Ones && data[0] == Ones {
        return Some(data);
      }
      var checksum := CalcChecksum(data[1..]);
      if checksum != data[0] {
        return None;
      }
      return Some(data);
    }
  
    /** One probe of the search in `load_config`: read the slot halfway
        between `low` and `high` and keep the half that holds the newest
        slot. `ok` is false when the read fails or is rejected. */
    method Probe(lowAddr: u32, highAddr: u32, lowImg: seq<u32>, highImg: seq<u32>,
                 ghost lo: nat, ghost hi: nat, ghost newest: Option<nat>)
      returns (ok: bool, lowAddr': u32, highAddr': u32, lowImg': seq<u32>, highImg': seq<u32>,
               ghost lo': nat, ghost hi': nat)
      requires Fits(layout, |flash.mem|) && flash.Valid()
      requires lo + 1 < hi < layout.NumLogSectors()
      requires lowAddr == SlotAddr(layout, lo) && highAddr == SlotAddr(layout, hi)
      requires lowImg == Slot(lo) && highImg == Slot(hi) && Accepted(lowImg) && Accepted(highImg)
      requires newest.Some? ==> RotatedAt(PoolIds(), newest.value) && lo <= newest.value < hi
      ensures ok ==> lo <= lo' < hi' <= hi && hi' - lo' < hi - lo
      ensures ok ==> lowAddr' == SlotAddr(layout, lo') && highAddr' == SlotAddr(layout, hi')
      ensures ok ==> lowImg' == Slot(lo') && highImg' == Slot(hi') && Accepted(lowImg') && Accepted(highImg')
      ensures ok && newest.Some? ==> lo' <= newest.value < hi'
    {
      MidSlot(layout, lo, hi);
      var midAddr := MidAddr(lowAddr, highAddr);
      ghost var m := (lo + hi) / 2;
      SlotInPool(layout, |flash.mem|, m);
      var mid := ReadConfig(midAddr);
      if mid.None? {
        return false, lowAddr, highAddr, lowImg, highImg, lo, hi;
      }
      var midImg := mid.value;
      assert midImg == Slot(m) && midImg[1] == PoolIds()[m] && lowImg[1] == PoolIds()[lo];
      if newest.Some? {
        ProbePastNewest(PoolIds(), newest.value, lo, m);
      }
      if midImg[1] == Ones || midImg[1] < lowImg[1] {
        return true, lowAddr, midAddr, lowImg, midImg, lo, m;
      } else {
        return true, midAddr, highAddr, midImg, highImg, m, hi;
      }
    }

    /** The search of `load_config` once slot 0 holds a written record
        `lowImg`: reads the last slot, then narrows [low, high] until the
        newest slot is found. `None` when a read fails or is rejected. */
    method Search(lowImg0: seq<u32>) returns (r: Option<(u32, seq<u32>)>, ghost j: nat)
      requires Valid() && Fits(layout, |flash.mem|)
      requires lowImg0 == Slot(0) && Accepted(lowImg0)
      ensures r.Some? ==> j < layout.NumLogSectors() && r.value.0 == SlotAddr(layout, j)
      ensures r.Some? ==> r.value.1 == Slot(j) && Accepted(r.value.1)
      ensures r.Some? ==> forall t: nat :: RotatedAt(PoolIds(), t) ==> j == t
    {
      ghost var ids := PoolIds();
      ghost var n := layout.NumLogSectors();
      // The newest slot, when the pool has the rotated shape.
      ghost var newest: Option<nat> := None;
      if exists t: nat :: RotatedAt(ids, t) {
        ghost var t: nat :| RotatedAt(ids, t);
        newest := Some(t);
      }
      SlotInPool(layout, |flash.mem|, 0);
      SlotInPool(layout, |flash.mem|, n - 1);
      var highAddr: u32 := layout.logEnd - SectorBytes;
      var high := ReadConfig(highAddr);
      if high.None? {
        return None, 0;
      }
      var ok, lowAddr, lowImg, lo := Narrow(layout.LogBegin(), highAddr, lowImg0, high.value, 0, n - 1, newest);
      if !ok {
        return None, 0;
      }
      forall t: nat | RotatedAt(ids, t) ensures lo == t {
        RotatedUnique(ids, t, newest.value);
      }
      return Some((lowAddr, lowImg)), lo;
    }

    /** The loop of the search: narrow `[low, high]`, read at both ends,
        down to the newest slot. `ok` is false when a read fails or is
        rejected. */
    method Narrow(lowAddr0: u32, highAddr0: u32, lowImg0: seq<u32>, highImg0: seq<u32>,
                  ghost lo0: nat, ghost hi0: nat, ghost newest: Option<nat>)
      returns (ok: bool, lowAddr: u32, lowImg: seq<u32>, ghost lo: nat)
      requires Fits(layout, |flash.mem|) && flash.Valid()
      requires lo0 <= hi0 < layout.NumLogSectors()
      requires lowAddr0 == SlotAddr(layout, lo0) && highAddr0 == SlotAddr(layout, hi0)
      requires lowImg0 == Slot(lo0) && highImg0 == Slot(hi0) && Accepted(lowImg0) && Accepted(highImg0)
      requires newest.Some? ==> RotatedAt(PoolIds(), newest.value)
      requires newest.Some? ==> lo0 <= newest.value <= hi0 && (newest.value == hi0 ==> lo0 == 0)
      ensures ok ==> lo < layout.NumLogSectors() && lowAddr == SlotAddr(layout, lo)
      ensures ok ==> lowImg == Slot(lo) && Accepted(lowImg)
      ensures ok && newest.Some? ==> lo == newest.value
    {
      ghost var ids := PoolIds();
      ghost var hi: nat := hi0;
      lo := lo0;
      lowAddr, lowImg := lowAddr0, lowImg0;
      var highAddr, highImg := highAddr0, highImg0;
      while lowAddr < highAddr
        invariant lo <= hi < layout.NumLogSectors()
        invariant lowAddr == SlotAddr(layout, lo) && highAddr == SlotAddr(layout, hi)
        invariant lowImg == Slot(lo) && highImg == Slot(hi) && Accepted(lowImg) && Accepted(highImg)
        invariant newest.Some? ==> RotatedAt(ids, newest.value)
        invariant newest.Some? ==> lo <= newest.value <= hi && (newest.value == hi ==> lo == 0)
        decreases hi - lo
      {
        assert highImg[1] == ids[hi] && lowImg[1] == ids[lo];
        if highImg[1] != Ones && highImg[1] > lowImg[1] {
          if newest.Some? {
            HighIsNewest(ids, newest.value, lo, hi);
          }
          return true, highAddr, highImg, hi;
        }
        if newest.Some? {
          HighIsNewest(ids, newest.value, lo, hi);
        }
        if lowAddr + SectorBytes == highAddr {
          return true, lowAddr, lowImg, lo;
        }
        ok, lowAddr, highAddr, lowImg, highImg, lo, hi :=
          Probe(lowAddr, highAddr, lowImg, highImg, lo, hi, newest);
        if !ok {
          return false, lowAddr, lowImg, lo;
        }
      }
      ok := true;
    }

    /** `load_config()`. On first use it locates the newest record: a virgin
        slot 0 means nothing was ever written, and `cfg_addr` becomes
        `log_end` so that the first write lands in slot 0; otherwise a
        binary search over the rotated pool finds the slot with the largest
        id. Any failed or rejected read makes it fail with nothing changed;
        once loaded, the cached record is returned. */
    method LoadConfig() returns (r: Option<seq<u32>>)
      requires Valid()
      modifies this
      ensures Valid() && writeDelayed == old(writeDelayed)
      ensures layout.LogBegin() >= layout.logEnd ==> r.None?
      ensures old(cfg).Some? && layout.LogBegin() < layout.logEnd ==> r == old(cfg)
      ensures r.None? || old(cfg).Some? ==>
                cfg == old(cfg) && cfgAddr == old(cfgAddr) && cfgLast == old(cfgLast)
      ensures r.Some? ==> cfg == r && Fits(layout, |flash.mem|)
      ensures old(cfg).None? && r.Some? ==>
                && Accepted(r.value)
                && (PoolIds()[0] == Ones ==>
                      r.value == Slot(0) && cfgAddr == layout.logEnd && cfgLast == old(cfgLast))
                && (forall t: nat :: RotatedAt(PoolIds(), t) ==>
                      r.value == Slot(t) && cfgAddr == SlotAddr(layout, t) && cfgLast == HeaderOf(Slot(t)))
      ensures old(cfg).None? && r.Some? && r.value[1] != Ones ==> cfgLast == HeaderOf(r.value)
      ensures old(cfg).None? && r.Some? &&
              ((forall j :: 0 <= j < |PoolIds()| ==> PoolIds()[j] == Ones) || exists t: nat :: RotatedAt(PoolIds(), t))
              ==> Coherent()
    {
      if layout.LogBegin() >= layout.logEnd {
        return None;
      }
      if cfg.Some? {
        return cfg;
      }
      if !PoolShape(layout) || layout.logEnd / 4 > |flash.mem| {
        // Only for a layout no flash map produces.
        return None;
      }
      SlotInPool(layout, |flash.mem|, 0);
      var lowAddr: u32 := layout.LogBegin();
      var low := ReadConfig(lowAddr);
      if low.None? {
        return None;
      }
      var lowImg := low.value;
      assert lowImg == Slot(0) && PoolIds()[0] == lowImg[1];
      if lowImg[1] == Ones {
        lowAddr := layout.logEnd;
      } else {
        var found, j := Search(lowImg);
        if found.None? {
          return None;
        }
        lowAddr, lowImg := found.value.0, found.value.1;
        cfgLast := HeaderOf(lowImg);
        SlotAddrInPool(layout, j);
        assert lowImg[1] == PoolIds()[j];
      }
      cfg := Some(lowImg);
      cfgAddr := lowAddr;
      r := cfg;
    }
  
    /** The outcome of `write_config_sector(config)` returning `rc`: the
        slot after `cfg_addr` (as the pre-state has it) is a sector of the
        pool; on success that sector holds `config`, `cfg_addr` is that
        slot and `cfg_last` is `config`'s header; on failure `cfg_addr` and
        `cfg_last` are as they were and the flash is either as it was or
        has that one sector erased. */
    twostate predicate WroteNext(config: seq<u32>, rc: int)
      reads this, flash
    {
      var next := NextSlotAddr(layout, old(cfgAddr));
      && IsImage(config) && InPool(layout, next)
      && next / 4 + WordsPerSector <= |old(flash.mem)|
      && (rc == 0 || rc == 1)
      && (rc == 0 ==>
            && cfgAddr == next && cfgLast == HeaderOf(config)
            && flash.mem == Overwrite(old(flash.mem), next / 4, config))
      && (rc != 0 ==>
            && cfgAddr == old(cfgAddr) && cfgLast == old(cfgLast)
            && (flash.mem == old(flash.mem) ||
                flash.mem == Overwrite(old(flash.mem), next / 4, Blank(WordsPerSector))))
    }

    /** `write_config_sector(config)`: erase the slot after `cfg_addr`
        (wrapping to `log_begin`), write the record there, and only when
        both succeed advance `cfg_addr` and set `cfg_last`. */
    method WriteConfigSector(config: seq<u32>) returns (rc: int)
      requires Valid() && cfg.Some? && IsImage(config)
      modifies this, flash
      ensures Valid() && cfg == old(cfg) && writeDelayed == old(writeDelayed)
      ensures WroteNext(config, rc)
    {
      NextSlotSector(layout, |flash.mem|, cfgAddr);
      var writeAddr := (cfgAddr + SectorBytes) % U32;
      if writeAddr >= layout.logEnd {
        writeAddr := layout.LogBegin();
      }
      assert writeAddr == NextSlotAddr(layout, cfgAddr);
      assert CoveredWords(|config|) == WordsPerSector;
      if writeAddr % SectorBytes != 0 {
        return 1;
      }
      var sector := writeAddr / SectorBytes;
      var ok := flash.EraseSector(sector);
      if !ok {
        return 1;
      }
      ok := flash.Write(writeAddr, config);
      if !ok {
        return 1;
      }
      cfgAddr := writeAddr;
      cfgLast := HeaderOf(config);
      rc := 0;
    }

    /** A successful `write_config_sector` of a record whose id follows
        `cfg_last`'s keeps the store coherent. */
    twostate lemma CoherentAfterWrite(config: seq<u32>)
      requires old(Coherent()) && flash.Valid() && WroteNext(config, 0)
      requires config[1] == (old(cfgLast).id + 1) % U32 && config[1] != Ones
      ensures Coherent()
    {
      WriteKeepsCoherent(layout, old(flash.mem), old(cfgAddr), old(cfgLast), config);
    }

    /** A `save_config` that reports success keeps the store coherent,
        from the two outcomes its contract allows: deferred (the pool and
        the globals untouched) or written to the next slot. The id must not
        reach the virgin value, which it cannot in the life of the flash. */
    twostate lemma CoherentAfterSave(now: u32)
      requires old(Valid()) && old(Coherent()) && flash.Valid() && old(cfg).Some? && old(cfgLast).id != Ones - 1
      requires var rec := Stamp(old(cfg).value, old(cfgLast), now);
        || (cfgAddr == old(cfgAddr) && cfgLast == old(cfgLast) && flash.mem == old(flash.mem))
        || WroteNext(rec, 0)
      ensures Coherent()
    {
      var rec := Stamp(old(cfg).value, old(cfgLast), now);
      if !(cfgAddr == old(cfgAddr) && cfgLast == old(cfgLast) && flash.mem == old(flash.mem)) {
        CoherentAfterWrite(rec);
      }
    }

    /** `save_config(cfg)` at SNTP clock `now` (0 while the time is not
        known). It refuses before anything was loaded, and when neither the
        clock nor the last record has a time. Otherwise it stamps `cfg` in
        place; when the clock is known and the rate limit fires, it arms the
        deferred write for the next midnight (unless one is already pending)
        and reports success without touching the flash; else it writes. */
    method SaveConfig(now: u32) returns (rc: int)
      requires Valid()
      modifies this, flash
      ensures Valid()
      ensures old(cfg).None? || (now == 0 && old(cfgLast).timestamp == 0) ==>
                rc == 1 && unchanged(this) && flash.mem == old(flash.mem)
      ensures old(cfg).Some? && (now != 0 || old(cfgLast).timestamp != 0) ==>
                var rec := Stamp(old(cfg).value, old(cfgLast), now);
                var limited := now != 0 && WritingTooFast(now, rec[3], rec[1]);
                && cfg == Some(rec)
                && (limited ==>
                      && rc == 0 && flash.mem == old(flash.mem)
                      && cfgAddr == old(cfgAddr) && cfgLast == old(cfgLast)
                      && writeDelayed == (if old(writeDelayed) == 0 then NextMidnight(now) else old(writeDelayed)))
                && (!limited ==> writeDelayed == old(writeDelayed) && WroteNext(rec, rc))
    {
      if cfg.None? {
        return 1;
      }
      if now == 0 && cfgLast.timestamp == 0 {
        return 1;
      }
      var rec := Stamp(cfg.value, cfgLast, now);
      cfg := Some(rec);
      if now != 0 && WritingTooFast(now, rec[3], rec[1]) {
        if writeDelayed == 0 {
          writeDelayed := NextMidnight(now);
        }
        return 0;
      }
      rc := WriteConfigSector(rec);
    }

    /** One run of the deferred-write timer (every 60 s while armed) at
        SNTP clock `now`. The timer is armed exactly while `writeDelayed`
        is not 0. Once the clock is known and has reached the due time, it
        disarms, and if a record is loaded, refreshes it (the first
        timestamp copied from `cfg_last` as it is) and writes it without
        the rate check, ignoring the result. */
    method Tick(now: u32)
      requires Valid()
      modifies this, flash
      ensures Valid()
      ensures old(writeDelayed) == 0 || now == 0 || now < old(writeDelayed) ==>
                unchanged(this) && flash.mem == old(flash.mem)
      ensures old(writeDelayed) != 0 && now != 0 && now >= old(writeDelayed) ==>
                && writeDelayed == 0
                && (old(cfg).None? ==>
                      cfg == old(cfg) && cfgAddr == old(cfgAddr) && cfgLast == old(cfgLast)
                      && flash.mem == old(flash.mem))
                && (old(cfg).Some? ==>
                      var rec := Refresh(old(cfg).value, old(cfgLast), now);
                      cfg == Some(rec) && (WroteNext(rec, 0) || WroteNext(rec, 1)))
    {
      if writeDelayed == 0 || now == 0 || now < writeDelayed {
        return;
      }
      writeDelayed := 0;
      if cfg.None? {
        return;
      }
      var rec := Refresh(cfg.value, cfgLast, now);
      cfg := Some(rec);
      var _ := WriteConfigSector(rec);
    }

    /** `load_config(delta)`: after the ordinary `load_config()`, read and
        validate the record `delta` slots on from the current one (modulo
        N), leaving `cfg` as it is. */
    method LoadRelative(delta: int) returns (r: Option<seq<u32>>)
      requires Valid()
      modifies this
      ensures Valid() && writeDelayed == old(writeDelayed)
      ensures old(cfg).Some? ==> cfg == old(cfg) && cfgAddr == old(cfgAddr) && cfgLast == old(cfgLast)
      ensures r.Some? ==>
                && cfg.Some? && Fits(layout, |flash.mem|)
                && r.value == Slot(RelativeSlot(layout, cfgAddr, delta)) && Accepted(r.value)
      ensures cfg.Some? && !Accepted(Slot(RelativeSlot(layout, cfgAddr, delta))) ==> r.None?
    {
      var cur := LoadConfig();
      if cur.None? {
        return None;
      }
      var j := RelativeSlot(layout, cfgAddr, delta);
      SlotInPool(layout, |flash.mem|, j);
      r := ReadConfig(SlotAddr(layout, j));
    }
  }
}
