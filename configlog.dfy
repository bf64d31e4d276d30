/** The operations of src/configlog.cpp on the record store: `get_config`
    (the defaults of a virgin record), `log_event` (copy the ring of the
    slot about to be overwritten, append, save) and `get_event_history`
    (read entries back, newest first). */
module ConfigLog {
  import opened Words
  import opened Wrappers
  import opened Records
  import opened ConfigLayout
  import opened EventLog
  import opened FlashLayout
  import opened SectorStore
  import opened RecordStore
  import opened RateLimit

  /** The zone `get_config` writes as zone `i` of a virgin record. */
  function DefaultZone(i: nat): Zone
  {
    Zone(i + 1, 0, 0, false, Zeros(NameBytes))
  }

  /** Words 4..39, the six zones. */
  predicate InZones(w: int)
  {
    ZoneWord(0) <= w < ZoneWord(NumZones)
  }

  /** `r` is the virgin record `img` with the defaults of `get_config`:
      `last_log_idx` 0xFFFF, zone i with order i + 1 and everything else
      cleared; the padding bits and every other word are kept. */
  predicate WithDefaults(r: seq<u32>, img: seq<u32>)
    requires IsImage(r) && IsImage(img)
  {
    && LastLogIdx(r) == 0xFFFF
    && r[LastLogIdxWord] / U16 == img[LastLogIdxWord] / U16
    && (forall i :: 0 <= i < NumZones ==> ZoneAt(r, i) == DefaultZone(i))
    && (forall i :: 0 <= i < NumZones ==> ZonePadding(r[ZoneWord(i)]) == ZonePadding(img[ZoneWord(i)]))
    && (forall w :: 0 <= w < RecordWords && !InZones(w) && w != LastLogIdxWord ==> r[w] == img[w])
  }

  /** The loop of `get_config` after the first `i` zones. */
  predicate DefaultsUpTo(r: seq<u32>, img: seq<u32>, i: nat)
    requires IsImage(r) && IsImage(img) && i <= NumZones
  {
    && LastLogIdx(r) == 0xFFFF
    && r[LastLogIdxWord] / U16 == img[LastLogIdxWord] / U16
    && (forall k :: 0 <= k < i ==> ZoneAt(r, k) == DefaultZone(k))
    && (forall k :: 0 <= k < i ==> ZonePadding(r[ZoneWord(k)]) == ZonePadding(img[ZoneWord(k)]))
    && (forall w :: 0 <= w < RecordWords && w != LastLogIdxWord && !(ZoneWord(0) <= w < ZoneWord(i)) ==> r[w] == img[w])
  }

  lemma DefaultsStep(r: seq<u32>, img: seq<u32>, i: nat)
    requires IsImage(r) && IsImage(img) && i < NumZones && DefaultsUpTo(r, img, i)
    ensures DefaultsUpTo(SetDefaultZone(r, i), img, i + 1)
  {
    var r' := SetDefaultZone(r, i);
    assert ZonePadding(r[ZoneWord(i)]) == ZonePadding(img[ZoneWord(i)]);
    DefaultKeepsZones(r, r', img, i);
    DefaultKeepsRest(r, r', img, i);
  }

  /** Setting zone `i` after the zones before it gives the defaults up to
      zone `i + 1`, with the padding bits kept. */
  lemma DefaultKeepsZones(r: seq<u32>, r': seq<u32>, img: seq<u32>, i: nat)
    requires IsImage(r) && IsImage(img) && i < NumZones && r' == SetDefaultZone(r, i)
    requires forall k :: 0 <= k < i ==> ZoneAt(r, k) == DefaultZone(k)
    requires forall k :: 0 <= k < i ==> ZonePadding(r[ZoneWord(k)]) == ZonePadding(img[ZoneWord(k)])
    requires ZonePadding(r[ZoneWord(i)]) == ZonePadding(img[ZoneWord(i)])
    ensures r'[LastLogIdxWord] == r[LastLogIdxWord]
    ensures forall k :: 0 <= k < i + 1 ==> ZoneAt(r', k) == DefaultZone(k)
    ensures forall k :: 0 <= k < i + 1 ==> ZonePadding(r'[ZoneWord(k)]) == ZonePadding(img[ZoneWord(k)])
  {
    var z := ZoneWord(i);
    assert z + 6 <= LastLogIdxWord;
    forall k | 0 <= k < i + 1
      ensures ZoneAt(r', k) == DefaultZone(k) && ZonePadding(r'[ZoneWord(k)]) == ZonePadding(img[ZoneWord(k)])
    {
      if k < i {
        assert ZoneWord(k) + 6 <= z;
        ZoneFrame(r', r, k);
      }
    }
  }

  /** Setting zone `i` keeps every word outside the zones up to `i`. */
  lemma DefaultKeepsRest(r: seq<u32>, r': seq<u32>, img: seq<u32>, i: nat)
    requires IsImage(r) && IsImage(img) && i < NumZones && r' == SetDefaultZone(r, i)
    requires forall w :: 0 <= w < RecordWords && w != LastLogIdxWord && !(ZoneWord(0) <= w < ZoneWord(i)) ==> r[w] == img[w]
    ensures forall w :: 0 <= w < RecordWords && w != LastLogIdxWord && !(ZoneWord(0) <= w < ZoneWord(i + 1)) ==> r'[w] == img[w]
  {
    var z := ZoneWord(i);
    assert ZoneWord(i + 1) == z + 6;
    forall w | 0 <= w < RecordWords && w != LastLogIdxWord && !(ZoneWord(0) <= w < ZoneWord(i + 1))
      ensures r'[w] == img[w]
    {
      assert !(z <= w < z + 6);
    }
  }

  /** The defaults keep the header and the ring, and reset the ring's
      index to the virgin 0xFFFF. */
  lemma DefaultsLog(r: seq<u32>, img: seq<u32>)
    requires IsImage(r) && IsImage(img) && WithDefaults(r, img)
    ensures DecodeLog(r) == SlotLog(0xFFFF, LogOf(img)) && HeaderOf(r) == HeaderOf(img)
  {
    assert forall k :: 0 <= k < LogCapacity ==> EntryAt(r, k) == EntryAt(img, k);
  }

  /** `get_config()`: `load_config()`, and when the record is virgin (id
      `~0u`) the defaults are written into the cached record in place. A
      record that was written before is returned untouched. */
  method GetConfig(s: Store) returns (r: Option<seq<u32>>, ghost loaded: seq<u32>)
    requires s.Valid()
    modifies s
    ensures s.Valid() && s.writeDelayed == old(s.writeDelayed)
    ensures s.layout.LogBegin() >= s.layout.logEnd ==> r.None?
    ensures r.None? ==> s.cfg == old(s.cfg) && s.cfgAddr == old(s.cfgAddr) && s.cfgLast == old(s.cfgLast)
    ensures r.Some? ==> s.cfg == r && IsImage(loaded) && Fits(s.layout, |s.flash.mem|)
    ensures r.Some? && old(s.cfg).Some? ==> loaded == old(s.cfg).value && s.cfgAddr == old(s.cfgAddr) && s.cfgLast == old(s.cfgLast)
    ensures r.Some? && old(s.cfg).None? ==> Accepted(loaded)
    ensures r.Some? && old(s.cfg).None? && loaded[1] != Ones ==> s.cfgLast == HeaderOf(loaded)
    ensures r.Some? && loaded[1] != Ones ==> r.value == loaded
    ensures r.Some? && loaded[1] == Ones ==> WithDefaults(r.value, loaded)
  {
    var c := s.LoadConfig();
    if c.None? {
      return None, [];
    }
    var rec := c.value;
    loaded := rec;
    if rec[1] != Ones {
      return c, loaded;
    }
    var img := SetLastLogIdx(rec, 0xFFFF);
    for i := 0 to NumZones
      modifies {}
      invariant IsImage(img) && DefaultsUpTo(img, rec, i)
    {
      DefaultsStep(img, rec, i);
      img := SetDefaultZone(img, i);
    }
    s.cfg := Some(img);
    r := s.cfg;
  }

  // ---------------------------------------------------------------------
  // log_event.

  /** The entry `log_event(event, data)` writes at clock `now`: `data` is
      truncated to the 28 bits of its field. */
  function NewEntry(event: nat, data: u32, now: u32): (e: LogEntry)
    requires ValidCode(event)
    ensures e.Fields() && e.event == event && e.data == data % DataLimit
    ensures now != Ones ==> Loggable(e)
  {
    LogEntry(now, event, data % DataLimit)
  }

  /** Records that agree past the header carry the same log. */
  lemma SameLog(a: seq<u32>, b: seq<u32>)
    requires IsImage(a) && IsImage(b) && a[4..] == b[4..]
    ensures DecodeLog(a) == DecodeLog(b)
  {
    forall k | 0 <= k < LogCapacity ensures EntryAt(a, k) == EntryAt(b, k) {
      assert a[EntryWord(k)] == a[4..][EntryWord(k) - 4];
      assert a[EntryWord(k) + 1] == a[4..][EntryWord(k) - 3];
    }
    assert a[LastLogIdxWord] == a[4..][LastLogIdxWord - 4];
  }

  /** Advancing `last_log_idx` and writing `log[idx]` in a record image is
      the ring append of its log. */
  lemma AppendInPlace(img: seq<u32>, e: LogEntry)
    requires IsImage(img) && e.Fields()
    ensures var idx := NextLogIdx(LastLogIdx(img));
      DecodeLog(SetEntry(SetLastLogIdx(img, idx), idx, e)) == Append(DecodeLog(img), e)
  {
    var idx := NextLogIdx(LastLogIdx(img));
    var a := SetLastLogIdx(img, idx);
    var b := SetEntry(a, idx, e);
    assert LastLogIdx(b) == idx;
    forall k | 0 <= k < LogCapacity && k != idx ensures EntryAt(b, k) == EntryAt(img, k) {
      assert b[EntryWord(k)] == a[EntryWord(k)];
    }
  }

  /** The ring `log_event` appends to: the defaults for a virgin record
      `cur`, and otherwise the ring of the slot after `a` in flash `mem`. */
  ghost function CopiedBase(l: Layout, mem: seq<u32>, cur: seq<u32>, a: u32): SlotLog
    requires IsImage(cur) && Fits(l, |mem|) && l.NumLogSectors() > 0
  {
    if cur[1] == Ones then SlotLog(0xFFFF, LogOf(cur))
    else DecodeLog(SlotOf(l, mem, RelativeSlot(l, a, 1)))
  }

  /** `log_event` up to the save: refuse a bad event code, get the record,
      refuse an unknown clock, copy the ring of the slot after `cfg_addr`
      into a record written before, and append the entry to the cached
      record. Flash is only read. The ghost results are the record
      `get_config` returned and `cfg_addr` at the time of the copy. */
  method AppendEvent(s: Store, event: int, data: u32, now: u32)
    returns (ready: bool, ghost cur: seq<u32>, ghost a: u32)
    requires s.Valid()
    modifies s
    ensures s.Valid() && s.writeDelayed == old(s.writeDelayed)
    ensures !ValidCode(event) ==> !ready && unchanged(s)
    ensures now == 0 || s.layout.LogBegin() >= s.layout.logEnd ==> !ready
    ensures ready ==>
      && ValidCode(event) && now != 0 && s.cfg.Some? && IsImage(cur)
      && Fits(s.layout, |s.flash.mem|) && s.layout.NumLogSectors() > 0 && s.cfgAddr == a
      && DecodeLog(s.cfg.value) == Append(CopiedBase(s.layout, s.flash.mem, cur, a), NewEntry(event, data, now))
    ensures ready && old(s.cfg).Some? ==> cur == old(s.cfg).value && a == old(s.cfgAddr)
  {
    cur, a := [], s.cfgAddr;
    if !ValidCode(event) {
      return false, cur, a;
    }
    var c;
    c, cur := GetConfig(s);
    if c.None? || now == 0 {
      return false, cur, a;
    }
    var img := c.value;
    a := s.cfgAddr;
    ghost var base := DecodeLog(img);
    if img[1] != Ones {
      var next := s.LoadRelative(1);
      if next.None? {
        return false, cur, a;
      }
      img := CopyLog(img, next.value);
      base := DecodeLog(next.value);
    } else {
      DefaultsLog(img, cur);
    }
    assert DecodeLog(img) == base;
    var e := NewEntry(event, data, now);
    AppendInPlace(img, e);
    var idx := NextLogIdx(LastLogIdx(img));
    img := SetLastLogIdx(img, idx);
    img := SetEntry(img, idx, e);
    s.cfg := Some(img);
    ready := true;
  }

  /** `log_event(event, data)` at SNTP clock `now`: the entry is appended
      to the cached record as `AppendEvent` says, and the record is saved.
      `reached` says whether the save was reached. From there on the
      cached record carries the new entry, whether the save writes it into
      the next slot, defers it to the next midnight (flash left as it was)
      or fails. */
  method LogEvent(s: Store, event: int, data: u32, now: u32)
    returns (ok: bool, ghost reached: bool, ghost cur: seq<u32>, ghost a: u32)
    requires s.Valid()
    modifies s, s.flash
    ensures s.Valid()
    ensures !ValidCode(event) ==> !ok && unchanged(s) && s.flash.mem == old(s.flash.mem)
    ensures now == 0 || s.layout.LogBegin() >= s.layout.logEnd ==> !ok && s.flash.mem == old(s.flash.mem)
    ensures !reached ==> !ok && s.flash.mem == old(s.flash.mem)
    ensures reached ==>
      && ValidCode(event) && now != 0 && s.cfg.Some? && IsImage(cur)
      && Fits(s.layout, |old(s.flash.mem)|) && s.layout.NumLogSectors() > 0
      && DecodeLog(s.cfg.value) == Append(CopiedBase(s.layout, old(s.flash.mem), cur, a), NewEntry(event, data, now))
    ensures reached && old(s.cfg).Some? ==> cur == old(s.cfg).value && a == old(s.cfgAddr)
    ensures reached ==>
      var rec := s.cfg.value;
      if WritingTooFast(now, rec[3], rec[1]) then
        && ok && s.flash.mem == old(s.flash.mem) && s.cfgAddr == a
        && s.writeDelayed == (if old(s.writeDelayed) == 0 then NextMidnight(now) else old(s.writeDelayed))
      else
        && s.writeDelayed == old(s.writeDelayed)
        && (ok ==> s.cfgAddr == NextSlotAddr(s.layout, a) && s.cfgAddr / 4 + RecordWords <= |old(s.flash.mem)|
                   && s.flash.mem == Overwrite(old(s.flash.mem), s.cfgAddr / 4, rec))
        && (!ok ==> s.cfgAddr == a)
  {
    var ready;
    ready, cur, a := AppendEvent(s, event, data, now);
    reached := ready;
    if !ready {
      return false, reached, cur, a;
    }
    ghost var img := s.cfg.value;
    var rc := s.SaveConfig(now);
    SameLog(s.cfg.value, img);
    ok := rc == 0;
  }

  /** Two events logged in a row while the first one's save is deferred by
      the rate limit, from a store with a record loaded. The second
      `log_event` copies the ring of the slot after `cfg_addr` from flash
      again, and the deferred save left flash and `cfg_addr` as they were:
      the record it leaves carries the ring the flash held plus the second
      entry, exactly as if the first event had never been logged. `deferred`
      says the first save was reached and rate-limited, and its record does
      not look virgin (its id is not `~0u`). */
  method LogTwiceDeferred(s: Store, ev1: int, d1: u32, now1: u32, ev2: int, d2: u32, now2: u32)
    returns (ok1: bool, ok2: bool, ghost deferred: bool)
    requires s.Valid() && s.cfg.Some?
    modifies s, s.flash
    ensures s.Valid()
    ensures deferred ==> ok1 && ValidCode(ev1)
    ensures deferred && ok2 ==>
      && ValidCode(ev1) && ValidCode(ev2) && s.cfg.Some?
      && Fits(s.layout, |old(s.flash.mem)|) && s.layout.NumLogSectors() > 0
      && var ring := DecodeLog(SlotOf(s.layout, old(s.flash.mem), RelativeSlot(s.layout, old(s.cfgAddr), 1)));
         && DecodeLog(s.cfg.value) == Append(ring, NewEntry(ev2, d2, now2))
         && ((NewEntry(ev1, d1, now1) != NewEntry(ev2, d2, now2) && NewEntry(ev1, d1, now1) in DecodeLog(s.cfg.value).log)
               ==> NewEntry(ev1, d1, now1) in ring.log)
  {
    ghost var r1, cur1, a1, r2, cur2, a2;
    ok1, r1, cur1, a1 := LogEvent(s, ev1, d1, now1);
    ghost var first := if s.cfg.Some? then s.cfg.value else [];
    deferred := r1 && WritingTooFast(now1, first[3], first[1]) && first[1] != Ones;
    ok2, r2, cur2, a2 := LogEvent(s, ev2, d2, now2);
    if deferred && ok2 {
      var ring := DecodeLog(SlotOf(s.layout, old(s.flash.mem), RelativeSlot(s.layout, old(s.cfgAddr), 1)));
      EntryLost(ring, NewEntry(ev1, d1, now1), NewEntry(ev2, d2, now2));
    }
  }

  /** An entry the ring does not hold is not in it after appending another
      one. */
  lemma EntryLost(ring: SlotLog, e1: LogEntry, e2: LogEntry)
    requires Sized(ring)
    ensures e1 != e2 && e1 in Append(ring, e2).log ==> e1 in ring.log
  {
    if e1 != e2 && e1 in Append(ring, e2).log {
      var k :| 0 <= k < LogCapacity && Append(ring, e2).log[k] == e1;
      assert ring.log[k] == e1;
    }
  }

  /** The ring the corrected `log_event` appends to: the defaults for a
      virgin record, the record's own ring while its write is pending
      (its id is not `cfg_last`'s), and otherwise the ring of the slot
      after `a`. */
  ghost function PendingBase(l: Layout, mem: seq<u32>, cur: seq<u32>, last: Header, a: u32): SlotLog
    requires IsImage(cur) && Fits(l, |mem|) && l.NumLogSectors() > 0
  {
    if cur[1] != Ones && cur[1] != last.id then DecodeLog(cur)
    else CopiedBase(l, mem, cur, a)
  }

  /** The corrected `log_event` up to the save: the ring is copied only
      when the cached record is the one last written (its id is
      `cfg_last`'s); while a deferred write is pending the record already
      carries the copied ring and its entries, and the new entry is
      appended to them. The ghost results are the record `get_config`
      returned, `cfg_addr` and `cfg_last` at the time of the copy. */
  method AppendKeepingPending(s: Store, event: int, data: u32, now: u32)
    returns (ready: bool, ghost cur: seq<u32>, ghost a: u32, ghost last: Header)
    requires s.Valid()
    modifies s
    ensures s.Valid() && s.writeDelayed == old(s.writeDelayed)
    ensures !ValidCode(event) ==> !ready && unchanged(s)
    ensures now == 0 || s.layout.LogBegin() >= s.layout.logEnd ==> !ready
    ensures ready ==>
      && ValidCode(event) && now != 0 && s.cfg.Some? && IsImage(cur)
      && Fits(s.layout, |s.flash.mem|) && s.layout.NumLogSectors() > 0
      && s.cfgAddr == a && s.cfgLast == last
      && DecodeLog(s.cfg.value) == Append(PendingBase(s.layout, s.flash.mem, cur, last, a), NewEntry(event, data, now))
    ensures ready && old(s.cfg).Some? ==> cur == old(s.cfg).value && a == old(s.cfgAddr) && last == old(s.cfgLast)
    ensures ready && old(s.cfg).None? && IsImage(cur) && cur[1] != Ones ==> last.id == cur[1]
  {
    cur, a, last := [], s.cfgAddr, s.cfgLast;
    if !ValidCode(event) {
      return false, cur, a, last;
    }
    var c;
    c, cur := GetConfig(s);
    if c.None? || now == 0 {
      return false, cur, a, last;
    }
    var img := c.value;
    a, last := s.cfgAddr, s.cfgLast;
    ghost var base := DecodeLog(img);
    if img[1] != Ones && img[1] == s.cfgLast.id {
      var next := s.LoadRelative(1);
      if next.None? {
        return false, cur, a, last;
      }
      img := CopyLog(img, next.value);
      base := DecodeLog(next.value);
    } else if img[1] == Ones {
      DefaultsLog(img, cur);
    }
    assert DecodeLog(img) == base == PendingBase(s.layout, s.flash.mem, cur, last, a);
    var e := NewEntry(event, data, now);
    AppendInPlace(img, e);
    var idx := NextLogIdx(LastLogIdx(img));
    img := SetLastLogIdx(img, idx);
    img := SetEntry(img, idx, e);
    s.cfg := Some(img);
    ready := true;
  }

  /** The corrected `log_event`: `AppendKeepingPending`, then the save, with
      the same outcomes as `LogEvent`. A deferred save also leaves
      `cfg_last` as it was, so the next call sees the write pending. */
  method LogEventKeepingPending(s: Store, event: int, data: u32, now: u32)
    returns (ok: bool, ghost reached: bool, ghost cur: seq<u32>, ghost a: u32, ghost last: Header)
    requires s.Valid()
    modifies s, s.flash
    ensures s.Valid()
    ensures !ValidCode(event) ==> !ok && unchanged(s) && s.flash.mem == old(s.flash.mem)
    ensures now == 0 || s.layout.LogBegin() >= s.layout.logEnd ==> !ok && s.flash.mem == old(s.flash.mem)
    ensures !reached ==> !ok && s.flash.mem == old(s.flash.mem)
    ensures reached && old(s.cfg).Some? ==> cur == old(s.cfg).value && a == old(s.cfgAddr) && last == old(s.cfgLast)
    ensures reached && old(s.cfg).None? && IsImage(cur) && cur[1] != Ones ==> last.id == cur[1]
    ensures reached ==>
      && ValidCode(event) && now != 0 && s.cfg.Some? && IsImage(cur)
      && Fits(s.layout, |old(s.flash.mem)|) && s.layout.NumLogSectors() > 0
      && DecodeLog(s.cfg.value) ==
           Append(PendingBase(s.layout, old(s.flash.mem), cur, last, a), NewEntry(event, data, now))
      && s.cfg.value[1] == (last.id + 1) % U32
    ensures reached ==>
      var rec := s.cfg.value;
      if WritingTooFast(now, rec[3], rec[1]) then
        && ok && s.flash.mem == old(s.flash.mem) && s.cfgAddr == a && s.cfgLast == last
        && s.writeDelayed == (if old(s.writeDelayed) == 0 then NextMidnight(now) else old(s.writeDelayed))
      else
        && s.writeDelayed == old(s.writeDelayed)
        && (ok ==> s.cfgAddr == NextSlotAddr(s.layout, a) && s.cfgAddr / 4 + RecordWords <= |old(s.flash.mem)|
                   && s.flash.mem == Overwrite(old(s.flash.mem), s.cfgAddr / 4, rec))
        && (!ok ==> s.cfgAddr == a)
  {
    var ready;
    ready, cur, a, last := AppendKeepingPending(s, event, data, now);
    reached := ready;
    if !ready {
      return false, reached, cur, a, last;
    }
    ghost var img := s.cfg.value;
    var rc := s.SaveConfig(now);
    SameLog(s.cfg.value, img);
    ok := rc == 0;
  }

  /** The corrected `log_event` called twice while the first save is
      deferred, from a store with a record loaded: the second entry is
      appended after the first, to the ring the first call built. With
      `PendingEntriesKept`, both entries are in the record the deferred
      write will store. */
  method LogTwiceKeepingPending(s: Store, ev1: int, d1: u32, now1: u32, ev2: int, d2: u32, now2: u32)
    returns (ok1: bool, ok2: bool, ghost deferred: bool)
    requires s.Valid() && s.cfg.Some?
    modifies s, s.flash
    ensures s.Valid()
    ensures deferred ==> ok1 && ValidCode(ev1)
    ensures deferred && ok2 ==>
      && ValidCode(ev1) && ValidCode(ev2) && s.cfg.Some? && IsImage(old(s.cfg).value) && Fits(s.layout, |old(s.flash.mem)|) && s.layout.NumLogSectors() > 0
      && DecodeLog(s.cfg.value) ==
           Append(Append(PendingBase(s.layout, old(s.flash.mem), old(s.cfg).value, old(s.cfgLast), old(s.cfgAddr)),
                         NewEntry(ev1, d1, now1)),
                  NewEntry(ev2, d2, now2))
  {
    ghost var r1, cur1, a1, last1, r2, cur2, a2, last2;
    ok1, r1, cur1, a1, last1 := LogEventKeepingPending(s, ev1, d1, now1);
    ghost var first := if s.cfg.Some? then s.cfg.value else [];
    deferred := r1 && WritingTooFast(now1, first[3], first[1]) && first[1] != Ones;
    ghost var mem1 := s.flash.mem;
    ok2, r2, cur2, a2, last2 := LogEventKeepingPending(s, ev2, d2, now2);
    if deferred && ok2 {
      assert last1 == old(s.cfgLast) && cur1 == old(s.cfg).value && a1 == old(s.cfgAddr);
      assert mem1 == old(s.flash.mem);
      assert cur2 == first && last2 == last1;
      assert first[1] == (last1.id + 1) % U32;
      assert DecodeLog(first) ==
        Append(PendingBase(s.layout, old(s.flash.mem), cur1, last1, a1), NewEntry(ev1, d1, now1));
      assert PendingBase(s.layout, mem1, cur2, last2, a2) == DecodeLog(first);
    }
  }

  /** With the pending entries kept, two events logged in a row both
      stay in the ring, the second right after the first. */
  lemma PendingEntriesKept(base: SlotLog, e1: LogEntry, e2: LogEntry)
    requires Sized(base) && (base.lastIdx < LogCapacity || base.lastIdx == 0xFFFF)
    ensures var r := Append(Append(base, e1), e2);
      var i := NextLogIdx(base.lastIdx);
      && r.lastIdx == (i + 1) % LogCapacity && r.log[i] == e1 && r.log[r.lastIdx] == e2
  {
    var i := NextLogIdx(base.lastIdx);
    NextLogIdxRing(i);
    assert i != (i + 1) % LogCapacity by {
      if i + 1 < LogCapacity {
        DivUnique(i + 1, LogCapacity, 0, i + 1);
      } else {
        DivUnique(i + 1, LogCapacity, 1, 0);
      }
    }
  }

  // ---------------------------------------------------------------------
  // get_event_history.

  /** The logs of the pool's slots in the flash words `mem`. */
  function PoolLogs(l: Layout, mem: seq<u32>): (p: seq<SlotLog>)
    requires Fits(l, |mem|)
    ensures |p| == l.NumLogSectors() && AllSized(p)
  {
    SlotLogs(l, mem, l.NumLogSectors())
  }

  /** The logs of slots 0..j-1. */
  function SlotLogs(l: Layout, mem: seq<u32>, j: nat): (p: seq<SlotLog>)
    requires Fits(l, |mem|) && j <= l.NumLogSectors()
    ensures |p| == j && AllSized(p)
  {
    if j == 0 then []
    else
      SlotInPool(l, |mem|, j - 1);
      SlotLogs(l, mem, j - 1) + [DecodeLog(SlotOf(l, mem, j - 1))]
  }

  lemma {:induction false} SlotLogsAt(l: Layout, mem: seq<u32>, j: nat, k: nat)
    requires Fits(l, |mem|) && j <= l.NumLogSectors() && k < j
    ensures SlotWord(l, k) + WordsPerSector <= |mem| && SlotLogs(l, mem, j)[k] == DecodeLog(SlotOf(l, mem, k))
  {
    SlotInPool(l, |mem|, k);
    if k < j - 1 {
      SlotLogsAt(l, mem, j - 1, k);
    }
  }

  lemma PoolLogsAt(l: Layout, mem: seq<u32>, j: nat)
    requires Fits(l, |mem|) && j < l.NumLogSectors()
    ensures SlotWord(l, j) + WordsPerSector <= |mem| && PoolLogs(l, mem)[j] == DecodeLog(SlotOf(l, mem, j))
  {
    SlotLogsAt(l, mem, l.NumLogSectors(), j);
  }

  /** Writing a record into slot `u` replaces that slot's log and no
      other. */
  lemma OverwriteSlotLog(l: Layout, mem: seq<u32>, u: nat, img: seq<u32>)
    requires Fits(l, |mem|) && u < l.NumLogSectors() && IsImage(img)
    ensures SlotWord(l, u) + |img| <= |mem|
    ensures PoolLogs(l, Overwrite(mem, SlotWord(l, u), img)) == PoolLogs(l, mem)[u := DecodeLog(img)]
  {
    OverwriteSlot(l, mem, u, img);
    var m := Overwrite(mem, SlotWord(l, u), img);
    forall k | 0 <= k < l.NumLogSectors()
      ensures PoolLogs(l, m)[k] == PoolLogs(l, mem)[u := DecodeLog(img)][k]
    {
      PoolLogsAt(l, m, k);
      PoolLogsAt(l, mem, k);
    }
  }

  /** One successful `log_event` in terms of the whole pool: when the
      pool's logs are those of the events `es` logged from a blank pool
      and `cfg_addr` designates the slot of the newest of them, the record
      `log_event` builds (the ring of the slot about to be overwritten,
      read with `load_config(1)`, with `e` appended), written into that
      slot, leaves the pool holding the logs of `es + [e]`. With
      `HistoryOfPool` this makes `get_event_history` return the events
      newest first. */
  lemma LoggedStep(l: Layout, mem: seq<u32>, es: seq<LogEntry>, a: u32, img: seq<u32>, e: LogEntry)
    requires Fits(l, |mem|) && PoolLogs(l, mem) == Pool(es, l.NumLogSectors())
    requires es != [] && InPool(l, a) && SlotIndex(l, a) == (|es| - 1) % l.NumLogSectors()
    requires IsImage(img) && DecodeLog(img) == Append(DecodeLog(SlotOf(l, mem, RelativeSlot(l, a, 1))), e)
    ensures var w := NextSlotAddr(l, a);
      && InPool(l, w) && w / 4 + RecordWords <= |mem|
      && PoolLogs(l, Overwrite(mem, w / 4, img)) == Pool(es + [e], l.NumLogSectors())
  {
    var n := l.NumLogSectors();
    var w := NextSlotAddr(l, a);
    NextSlotRoundRobin(l, a);
    PoolAddrSlot(l, w);
    var u := SlotIndex(l, w);
    SlotInPool(l, |mem|, u);
    assert w / 4 == SlotWord(l, u);
    RelativeSlotNext(l, a);
    NextAfterNewest(l, a, |es|);
    PoolLogsAt(l, mem, u);
    var prev := Pool(es, n);
    assert DecodeLog(img) == Append(prev[u], e);
    assert Pool(es + [e], n) == prev[u := Append(prev[u], e)] by {
      assert (es + [e])[..|es|] == es;
    }
    OverwriteSlotLog(l, mem, u, img);
  }

  /** After the slot of event m - 1 comes the slot of event m. */
  lemma NextAfterNewest(l: Layout, a: u32, m: nat)
    requires PoolShape(l) && InPool(l, a) && m > 0 && SlotIndex(l, a) == (m - 1) % l.NumLogSectors()
    ensures SlotIndex(l, NextSlotAddr(l, a)) == m % l.NumLogSectors()
  {
    NextSlotRoundRobin(l, a);
    ModSucc(m - 1, l.NumLogSectors());
  }

  /** The first event logged into an empty pool (`cfg_addr` at `logEnd`)
      goes into slot 0 with the blank ring, leaving the pool holding the
      logs of `[e]`. */
  lemma LoggedFirst(l: Layout, mem: seq<u32>, img: seq<u32>, e: LogEntry)
    requires Fits(l, |mem|) && PoolLogs(l, mem) == Pool([], l.NumLogSectors())
    requires IsImage(img) && DecodeLog(img) == Append(VirginLog(), e)
    ensures var w := NextSlotAddr(l, l.logEnd);
      && InPool(l, w) && w / 4 + RecordWords <= |mem|
      && PoolLogs(l, Overwrite(mem, w / 4, img)) == Pool([e], l.NumLogSectors())
  {
    var n := l.NumLogSectors();
    var w := NextSlotAddr(l, l.logEnd);
    NextSlotRoundRobin(l, l.logEnd);
    PoolAddrSlot(l, w);
    SlotInPool(l, |mem|, 0);
    assert w / 4 == SlotWord(l, 0);
    var prev := Pool([], n);
    assert prev[0] == VirginLog();
    assert Pool([e], n) == prev[0 := Append(prev[0], e)] by {
      assert [e][..0] == [];
    }
    OverwriteSlotLog(l, mem, 0, img);
  }

  /** With no record written yet (`cfg_addr == log_end`, as after a first
      save that failed), `load_config(1)` reads slot `1 mod N` while the
      next write goes to slot 0. In a blank pool both slots hold the blank
      ring, so the ring `log_event` copies is still that of the slot it
      overwrites. */
  lemma BlankRelativeRing(l: Layout, mem: seq<u32>)
    requires Fits(l, |mem|) && PoolLogs(l, mem) == Pool([], l.NumLogSectors())
    ensures var n := l.NumLogSectors();
      var j := RelativeSlot(l, l.logEnd, 1);
      var w := SlotIndex(l, NextSlotAddr(l, l.logEnd));
      && j == 1 % n && w == 0
      && SlotWord(l, j) + WordsPerSector <= |mem| && SlotWord(l, w) + WordsPerSector <= |mem|
      && DecodeLog(SlotOf(l, mem, j)) == DecodeLog(SlotOf(l, mem, w)) == VirginLog()
  {
    var n := l.NumLogSectors();
    DivUnique(l.logEnd - l.LogBegin(), SectorBytes, n, 0);
    assert SlotIndex(l, l.logEnd) == n;
    if n == 1 {
      DivUnique(n + 1, n, 2, 0);
    } else {
      DivUnique(n + 1, n, 1, 1);
      DivUnique(1, n, 0, 1);
    }
    NextSlotRoundRobin(l, l.logEnd);
    PoolLogsAt(l, mem, 1 % n);
    PoolLogsAt(l, mem, 0);
  }

  /** One `log_event` whose save wrote its record: from flash `mem` with
      `cfg_addr == a`, the record `img` carries the ring the event was
      appended to (the blank ring for the first event of a blank pool, the
      ring of the slot after `a` otherwise), and it is written into the
      next slot, which becomes `cfg_addr`. */
  ghost predicate LoggedWrite(l: Layout, mem: seq<u32>, a: u32, img: seq<u32>, e: LogEntry,
                              mem': seq<u32>, a': u32, first: bool)
    requires Fits(l, |mem|) && l.NumLogSectors() > 0
  {
    && IsImage(img) && (first || InPool(l, a))
    && a' == NextSlotAddr(l, a) && a' / 4 + RecordWords <= |mem|
    && mem' == Overwrite(mem, a' / 4, img)
    && DecodeLog(img) == Append(if first then VirginLog() else DecodeLog(SlotOf(l, mem, RelativeSlot(l, a, 1))), e)
  }

  /** A run of events `es` logged from a blank pool, every one of whose
      saves wrote its record: `mems[m]` and `addrs[m]` are the flash and
      `cfg_addr` before event m, starting from the virgin `cfg_addr ==
      log_end`. */
  ghost predicate WrittenRun(l: Layout, mems: seq<seq<u32>>, addrs: seq<u32>, imgs: seq<seq<u32>>, es: seq<LogEntry>)
  {
    && |mems| == |es| + 1 && |addrs| == |es| + 1 && |imgs| == |es|
    && Fits(l, |mems[0]|) && l.NumLogSectors() > 0
    && PoolLogs(l, mems[0]) == Pool([], l.NumLogSectors()) && addrs[0] == l.logEnd
    && forall m :: 0 <= m < |es| ==>
         && |mems[m]| == |mems[0]|
         && LoggedWrite(l, mems[m], addrs[m], imgs[m], es[m], mems[m + 1], addrs[m + 1], m == 0)
  }

  /** Along a written run, the pool before event m holds the logs of the
      first m events, and `cfg_addr` designates the slot of the newest. */
  lemma {:induction false} RunPool(l: Layout, mems: seq<seq<u32>>, addrs: seq<u32>, imgs: seq<seq<u32>>, es: seq<LogEntry>, m: nat)
    requires WrittenRun(l, mems, addrs, imgs, es) && m <= |es|
    ensures |mems[m]| == |mems[0]|
    ensures PoolLogs(l, mems[m]) == Pool(es[..m], l.NumLogSectors())
    ensures m > 0 ==> InPool(l, addrs[m]) && SlotIndex(l, addrs[m]) == (m - 1) % l.NumLogSectors()
  {
    if m > 0 {
      var k := m - 1;
      RunPool(l, mems, addrs, imgs, es, k);
      var pre := es[..k];
      assert |pre| == k && (pre == [] <==> k == 0);
      assert LoggedWrite(l, mems[k], addrs[k], imgs[k], es[k], mems[m], addrs[m], pre == []);
      assert es[..m] == pre + [es[k]];
      RunStep(l, mems[k], addrs[k], imgs[k], es[k], mems[m], addrs[m], pre);
    }
  }

  /** One step of a written run: the event `e` written after the events
      `pre` leaves the pool of `pre + [e]`, with `cfg_addr` at its slot. */
  lemma {:induction false} RunStep(l: Layout, mem: seq<u32>, a: u32, img: seq<u32>, e: LogEntry, mem': seq<u32>, a': u32, pre: seq<LogEntry>)
    requires Fits(l, |mem|) && l.NumLogSectors() > 0 && PoolLogs(l, mem) == Pool(pre, l.NumLogSectors())
    requires pre == [] ==> a == l.logEnd
    requires pre != [] ==> InPool(l, a) && SlotIndex(l, a) == (|pre| - 1) % l.NumLogSectors()
    requires LoggedWrite(l, mem, a, img, e, mem', a', pre == [])
    ensures |mem'| == |mem| && PoolLogs(l, mem') == Pool(pre + [e], l.NumLogSectors())
    ensures InPool(l, a') && SlotIndex(l, a') == |pre| % l.NumLogSectors()
  {
    if pre == [] {
      NextSlotRoundRobin(l, l.logEnd);
      LoggedFirst(l, mem, img, e);
      assert pre + [e] == [e];
    } else {
      NextSlotRoundRobin(l, a);
      NextAfterNewest(l, a, |pre|);
      LoggedStep(l, mem, pre, a, img, e);
    }
  }

  /** After a written run of events, the history read from the slot
      `cfg_addr` designates is the events, newest first: entry idx is
      event `|es| - 1 - idx` while there is one, and absent beyond, up to
      N times the capacity. With `N * LogCapacity + 4` events the four
      oldest are out of reach. */
  lemma {:induction false} RunHistory(l: Layout, mems: seq<seq<u32>>, addrs: seq<u32>, imgs: seq<seq<u32>>, es: seq<LogEntry>, idx: nat)
    requires WrittenRun(l, mems, addrs, imgs, es) && |es| > 0
    requires forall m :: 0 <= m < |es| ==> Loggable(es[m])
    requires idx < l.NumLogSectors() * LogCapacity
    ensures Fits(l, |mems[|es|]|)
    ensures History(PoolLogs(l, mems[|es|]), SlotIndex(l, addrs[|es|]), idx) ==
              if idx < |es| then Some(es[|es| - 1 - idx]) else None
  {
    RunPool(l, mems, addrs, imgs, es, |es|);
    assert es[..|es|] == es;
    HistoryOfPool(es, l.NumLogSectors(), idx);
  }

  /** Entries read back as a history prefix from the pool of the events
      `es` are those events, newest first, from `offset` on; the depth
      check keeps every entry found below N times the capacity. */
  lemma {:induction false} PrefixOfEvents(es: seq<LogEntry>, n: nat, offset: nat, found: seq<LogEntry>, k: nat)
    requires n > 0 && |es| > 0 && (forall m :: 0 <= m < |es| ==> Loggable(es[m]))
    requires offset < n * LogCapacity && HistoryPrefix(Pool(es, n), (|es| - 1) % n, offset, found) && k < |found|
    ensures offset + k < n * LogCapacity && offset + k < |es| && found[k] == es[|es| - 1 - offset - k]
  {
    if k > 0 {
      PrefixOfEvents(es, n, offset, found, k - 1);
    }
    var idx := offset + k;
    HistoryPrefixAt(Pool(es, n), (|es| - 1) % n, offset, found, k);
    DepthFits(n, idx);
    HistoryOfPool(es, n, idx);
  }

  /** Every entry read back as a history prefix from the pool of the
      events `es` is one of them, newest first from `offset` on. */
  lemma {:induction false} PoolReadBack(es: seq<LogEntry>, n: nat, offset: nat, found: seq<LogEntry>)
    requires n > 0 && |es| > 0 && (forall m :: 0 <= m < |es| ==> Loggable(es[m]))
    requires offset < n * LogCapacity && HistoryPrefix(Pool(es, n), (|es| - 1) % n, offset, found)
    ensures found != [] ==> offset + |found| <= |es|
    ensures forall k :: 0 <= k < |found| ==> found[k] == es[|es| - 1 - offset - k]
  {
    forall k | 0 <= k < |found| ensures offset + k < |es| && found[k] == es[|es| - 1 - offset - k] {
      PrefixOfEvents(es, n, offset, found, k);
    }
    if |found| > 0 {
      PrefixOfEvents(es, n, offset, found, |found| - 1);
    }
  }

  /** What `get_event_history` returns after a written run of events:
      the `num` entries it reports are events `|es| - 1 - offset`,
      `|es| - 2 - offset`, ..., newest first. */
  lemma {:induction false} RunReadBack(l: Layout, mems: seq<seq<u32>>, addrs: seq<u32>, imgs: seq<seq<u32>>, es: seq<LogEntry>,
                    offset: nat, found: seq<LogEntry>)
    requires WrittenRun(l, mems, addrs, imgs, es) && |es| > 0
    requires forall m :: 0 <= m < |es| ==> Loggable(es[m])
    requires offset < l.NumLogSectors() * LogCapacity
    requires Fits(l, |mems[|es|]|) && HistoryPrefix(PoolLogs(l, mems[|es|]), SlotIndex(l, addrs[|es|]), offset, found)
    ensures found != [] ==> offset + |found| <= |es|
    ensures forall k :: 0 <= k < |found| ==> found[k] == es[|es| - 1 - offset - k]
  {
    RunPool(l, mems, addrs, imgs, es, |es|);
    assert es[..|es|] == es;
    PoolReadBack(es, l.NumLogSectors(), offset, found);
  }

  /** A written run whose records carry the ids `save_config` stamps from
      a blank pool: `cfg_last.id` starts at ~0u and each write that
      succeeds advances it, so the m-th record carries id m; the blank
      pool holds no id. */
  ghost predicate NumberedRun(l: Layout, mems: seq<seq<u32>>, addrs: seq<u32>, imgs: seq<seq<u32>>, es: seq<LogEntry>)
  {
    && WrittenRun(l, mems, addrs, imgs, es) && |es| <= Ones
    && PoolIdsOf(l, mems[0]) == WrittenIds(l.NumLogSectors(), 0)
    && forall m :: 0 <= m < |es| ==> |imgs[m]| > 1 && imgs[m][1] == m
  }

  /** Along a numbered run the pool's ids are those of m round-robin
      writes, the shape the locator of `load_config` relies on. */
  lemma {:induction false} RunIds(l: Layout, mems: seq<seq<u32>>, addrs: seq<u32>, imgs: seq<seq<u32>>, es: seq<LogEntry>, m: nat)
    requires NumberedRun(l, mems, addrs, imgs, es) && m <= |es|
    ensures Fits(l, |mems[m]|) && PoolIdsOf(l, mems[m]) == WrittenIds(l.NumLogSectors(), m)
  {
    if m > 0 {
      var k := m - 1;
      RunIds(l, mems, addrs, imgs, es, k);
      RunIdsStep(l, mems, addrs, imgs, es, k);
    }
  }

  /** Event k of a numbered run writes id k into slot `k mod N`, taking
      the ids of k round-robin writes to those of k + 1. */
  lemma RunIdsStep(l: Layout, mems: seq<seq<u32>>, addrs: seq<u32>, imgs: seq<seq<u32>>, es: seq<LogEntry>, k: nat)
    requires NumberedRun(l, mems, addrs, imgs, es) && k < |es|
    requires Fits(l, |mems[k]|) && PoolIdsOf(l, mems[k]) == WrittenIds(l.NumLogSectors(), k)
    ensures Fits(l, |mems[k + 1]|) && PoolIdsOf(l, mems[k + 1]) == WrittenIds(l.NumLogSectors(), k + 1)
  {
    RunAddrs(l, mems, addrs, imgs, es, k + 1);
    RunWrite(l, mems, addrs, imgs, es, k);
    IdsStep(l, mems[k], addrs[k + 1], imgs[k], mems[k + 1], k);
  }

  /** Along a written run, `cfg_addr` after event m - 1 designates slot
      `(m - 1) mod N`. */
  lemma {:induction false} RunAddrs(l: Layout, mems: seq<seq<u32>>, addrs: seq<u32>, imgs: seq<seq<u32>>, es: seq<LogEntry>, m: nat)
    requires WrittenRun(l, mems, addrs, imgs, es) && 0 < m <= |es|
    ensures InPool(l, addrs[m]) && SlotIndex(l, addrs[m]) == (m - 1) % l.NumLogSectors()
  {
    var k := m - 1;
    assert addrs[m] == NextSlotAddr(l, addrs[k]) && (k == 0 || InPool(l, addrs[k])) by {
      assert LoggedWrite(l, mems[k], addrs[k], imgs[k], es[k], mems[m], addrs[m], k == 0);
    }
    if k == 0 {
      NextSlotRoundRobin(l, l.logEnd);
    } else {
      RunAddrs(l, mems, addrs, imgs, es, k);
      NextSlotRoundRobin(l, addrs[k]);
      NextAfterNewest(l, addrs[k], k);
    }
  }

  /** Event k of a written run overwrites the record at the new
      `cfg_addr` with its image and nothing else. */
  lemma RunWrite(l: Layout, mems: seq<seq<u32>>, addrs: seq<u32>, imgs: seq<seq<u32>>, es: seq<LogEntry>, k: nat)
    requires WrittenRun(l, mems, addrs, imgs, es) && k < |es|
    ensures IsImage(imgs[k]) && addrs[k + 1] / 4 + RecordWords <= |mems[k]|
    ensures mems[k + 1] == Overwrite(mems[k], addrs[k + 1] / 4, imgs[k])
  {
    assert LoggedWrite(l, mems[k], addrs[k], imgs[k], es[k], mems[k + 1], addrs[k + 1], k == 0);
  }

  /** Writing the record with id k into slot k mod N takes the ids of k
      round-robin writes to those of k + 1. */
  lemma IdsStep(l: Layout, mem: seq<u32>, a: u32, img: seq<u32>, mem': seq<u32>, k: nat)
    requires Fits(l, |mem|) && l.NumLogSectors() > 0 && k < Ones
    requires PoolIdsOf(l, mem) == WrittenIds(l.NumLogSectors(), k)
    requires InPool(l, a) && SlotIndex(l, a) == k % l.NumLogSectors()
    requires IsImage(img) && img[1] == k && a / 4 + RecordWords <= |mem| && mem' == Overwrite(mem, a / 4, img)
    ensures Fits(l, |mem'|) && PoolIdsOf(l, mem') == WrittenIds(l.NumLogSectors(), k + 1)
  {
    var n := l.NumLogSectors();
    var j := k % n;
    PoolAddrSlot(l, a);
    SlotInPool(l, |mem|, j);
    OverwriteSlot(l, mem, j, img);
    WrittenIdsStep(n, k);
  }

  /** What a numbered run leaves for the reader after a reboot: ids
      rotated with the newest in slot `(|es| - 1) mod N`, which that
      slot's address designates, and the logs of the events. */
  lemma RunLeaves(l: Layout, mems: seq<seq<u32>>, addrs: seq<u32>, imgs: seq<seq<u32>>, es: seq<LogEntry>)
    requires NumberedRun(l, mems, addrs, imgs, es) && |es| > 0
    ensures Fits(l, |mems[|es|]|)
    ensures var t := (|es| - 1) % l.NumLogSectors();
      && RotatedAt(PoolIdsOf(l, mems[|es|]), t) && SlotIndex(l, SlotAddr(l, t)) == t
      && PoolLogs(l, mems[|es|]) == Pool(es, l.NumLogSectors())
  {
    var n := l.NumLogSectors();
    RunIds(l, mems, addrs, imgs, es, |es|);
    WrittenPoolRotated(n, |es|);
    SlotAddrInPool(l, (|es| - 1) % n);
    RunPool(l, mems, addrs, imgs, es, |es|);
    assert es[..|es|] == es;
  }

  /** `load_config()` right after a reboot that follows a numbered run:
      the locator finds the newest record, so `cfg_addr` designates slot
      `(|es| - 1) mod N` of a pool holding the logs of the events. */
  method LoadAfterReboot(s: Store, ghost mems: seq<seq<u32>>, ghost addrs: seq<u32>, ghost imgs: seq<seq<u32>>,
                         ghost es: seq<LogEntry>)
    returns (loaded: bool)
    requires s.Valid() && s.cfg.None?
    requires NumberedRun(s.layout, mems, addrs, imgs, es) && |es| > 0 && s.flash.mem == mems[|es|]
    modifies s
    ensures s.Valid() && loaded == s.cfg.Some?
    ensures loaded ==>
      && Fits(s.layout, |s.flash.mem|) && s.layout.NumLogSectors() > 0
      && PoolLogs(s.layout, s.flash.mem) == Pool(es, s.layout.NumLogSectors())
      && SlotIndex(s.layout, s.cfgAddr) == (|es| - 1) % s.layout.NumLogSectors()
  {
    RunLeaves(s.layout, mems, addrs, imgs, es);
    var r := s.LoadConfig();
    loaded := r.Some?;
  }

  /** A run of logged events, a reboot, `load_config()` and
      `get_event_history(offset, buffer, size)`: the entries returned are
      the events newest first from `offset` on; unless a read failed,
      fewer than `size` come back only where the events, or the N times
      capacity the pool can reach, run out. */
  method HistoryAfterReboot(s: Store, ghost mems: seq<seq<u32>>, ghost addrs: seq<u32>, ghost imgs: seq<seq<u32>>,
                            ghost es: seq<LogEntry>, offset: u32, buffer: array<LogEntry>, size: u32)
    returns (loaded: bool, num: u32, ghost failed: bool)
    requires s.Valid() && s.cfg.None? && size <= buffer.Length
    requires NumberedRun(s.layout, mems, addrs, imgs, es) && |es| > 0 && s.flash.mem == mems[|es|]
    requires forall m :: 0 <= m < |es| ==> Loggable(es[m])
    modifies s, buffer
    ensures num <= size && (!loaded ==> num == 0)
    ensures num > 0 ==> offset + num <= |es| && forall k :: 0 <= k < num ==> buffer[k] == es[|es| - 1 - offset - k]
    ensures loaded && !failed && num < size && offset < s.layout.NumLogSectors() * LogCapacity ==>
              offset + num >= |es| || offset + num >= s.layout.NumLogSectors() * LogCapacity
  {
    loaded := LoadAfterReboot(s, mems, addrs, imgs, es);
    if !loaded {
      return false, 0, true;
    }
    ghost var n := s.layout.NumLogSectors();
    num, failed := GetEventHistory(s, offset, buffer, size);
    if num > 0 {
      ghost var found := buffer[..num];
      PoolReadBack(es, n, offset, found);
      forall k | 0 <= k < num ensures buffer[k] == es[|es| - 1 - offset - k] {
        assert buffer[k] == found[k];
      }
    }
    if !failed && num < size && offset + num < n * LogCapacity {
      HistoryOfPool(es, n, offset + num);
    }
  }

  /** `get_event_history(offset, buffer, size)`: fills `buffer` with the
      entries `offset`, `offset + 1`, ... of the history, 0 being the
      newest, and returns how many it wrote. Entry idx is read from the
      record `idx mod N` slots back, at depth `idx / N` of its ring. It
      stops at a record whose `last_log_idx` is out of range, a depth at
      or past capacity, or an erased or invalid entry. At a slot that
      cannot be read or validated the source reads through the null
      record `load_config` returns (`ReadBackAsWritten`); this is the
      corrected loop, which stops there as it does at a missing entry. A null buffer, an empty one and an offset
      past N times the capacity give 0. The ghost `failed` marks a flash
      read that failed; a flash read may fail at any call, so the contract
      does not pin it down, and a call that reports `failed` may have
      stopped anywhere, with only the entries it returned stated. */
  method GetEventHistory(s: Store, offset: u32, buffer: array?<LogEntry>, size: u32) returns (num: u32, ghost failed: bool)
    requires s.Valid()
    requires buffer != null ==> size <= buffer.Length
    modifies s, buffer
    ensures s.Valid() && s.writeDelayed == old(s.writeDelayed)
    ensures old(s.cfg).Some? ==> s.cfg == old(s.cfg) && s.cfgAddr == old(s.cfgAddr)
    ensures num <= size
    ensures buffer == null || size == 0 || offset >= s.layout.NumLogSectors() * LogCapacity ==> num == 0 && !failed
    ensures num > 0 ==>
      && buffer != null && s.cfg.Some? && Fits(s.layout, |s.flash.mem|)
      && HistoryPrefix(PoolLogs(s.layout, s.flash.mem), SlotIndex(s.layout, s.cfgAddr), offset, buffer[..num])
    ensures buffer != null && offset < s.layout.NumLogSectors() * LogCapacity && num < size && !failed ==>
      && s.cfg.Some? && Fits(s.layout, |s.flash.mem|)
      && History(PoolLogs(s.layout, s.flash.mem), SlotIndex(s.layout, s.cfgAddr), offset + num).None?
    ensures buffer != null ==> buffer[num..] == old(buffer[num..])
  {
    failed := false;
    if buffer == null || size == 0 {
      return 0, false;
    }
    var n := s.layout.NumLogSectors();
    if offset >= n * LogCapacity {
      return 0, false;
    }
    num, failed := FillHistory(s, offset, buffer, size);
  }

  /** The loop of `get_event_history`, once the arguments were checked. It
      ends with `size` entries, or at the first entry the history does not
      have, or (`failed`) where a record could not be read back, where
      the source would read through a null record; a flash read may fail
      at any call, so `failed` is not pinned down. */
  method FillHistory(s: Store, offset: u32, buffer: array<LogEntry>, size: u32) returns (num: u32, ghost failed: bool)
    requires s.Valid() && size <= buffer.Length && offset < s.layout.NumLogSectors() * LogCapacity
    modifies s, buffer
    ensures s.Valid() && s.writeDelayed == old(s.writeDelayed)
    ensures old(s.cfg).Some? ==> s.cfg == old(s.cfg) && s.cfgAddr == old(s.cfgAddr)
    ensures num <= size
    ensures num > 0 ==>
      && s.cfg.Some? && Fits(s.layout, |s.flash.mem|)
      && HistoryPrefix(PoolLogs(s.layout, s.flash.mem), SlotIndex(s.layout, s.cfgAddr), offset, buffer[..num])
    ensures num < size && !failed ==>
      && s.cfg.Some? && Fits(s.layout, |s.flash.mem|)
      && History(PoolLogs(s.layout, s.flash.mem), SlotIndex(s.layout, s.cfgAddr), offset + num).None?
    ensures buffer[num..] == old(buffer[num..])
  {
    num, failed := 0, false;
    while num < size
      invariant s.Valid() && s.writeDelayed == old(s.writeDelayed) && s.layout.NumLogSectors() > 0
      invariant old(s.cfg).Some? ==> s.cfg == old(s.cfg) && s.cfgAddr == old(s.cfgAddr)
      invariant num <= size && offset + num <= s.layout.NumLogSectors() * LogCapacity
      invariant buffer[num..] == old(buffer[num..])
      invariant num > 0 ==>
                  && s.cfg.Some? && Fits(s.layout, |s.flash.mem|)
                  && HistoryPrefix(PoolLogs(s.layout, s.flash.mem), SlotIndex(s.layout, s.cfgAddr), offset, buffer[..num])
    {
      var more, next, stop := HistoryRound(s, offset, buffer, size, num);
      if !more {
        failed := stop;
        return;
      }
      num := next;
    }
  }

  /** One round of the loop: history entry `offset + num` into
      `buffer[num]`, or `false` where the loop stops (the store and the
      entries found so far as they were): at an entry the history does
      not have, or (`failed`) at a record that could not be read back. */
  method HistoryRound(s: Store, offset: u32, buffer: array<LogEntry>, size: u32, num: u32)
    returns (more: bool, next: u32, ghost failed: bool)
    requires s.Valid() && s.layout.NumLogSectors() > 0
    requires num < size <= buffer.Length && offset + num <= s.layout.NumLogSectors() * LogCapacity
    requires num > 0 ==>
      && s.cfg.Some? && Fits(s.layout, |s.flash.mem|)
      && HistoryPrefix(PoolLogs(s.layout, s.flash.mem), SlotIndex(s.layout, s.cfgAddr), offset, buffer[..num])
    modifies s, buffer
    ensures s.Valid() && s.writeDelayed == old(s.writeDelayed)
    ensures old(s.cfg).Some? ==> s.cfg == old(s.cfg) && s.cfgAddr == old(s.cfgAddr)
    ensures !more ==> buffer[..] == old(buffer[..]) && next == num
    ensures !more && !failed ==>
      && s.cfg.Some? && Fits(s.layout, |s.flash.mem|)
      && History(PoolLogs(s.layout, s.flash.mem), SlotIndex(s.layout, s.cfgAddr), offset + num).None?
    ensures more ==> next == num + 1 && offset + next <= s.layout.NumLogSectors() * LogCapacity
    ensures buffer[next..] == old(buffer[next..])
    ensures next > 0 ==>
      && s.cfg.Some? && Fits(s.layout, |s.flash.mem|)
      && HistoryPrefix(PoolLogs(s.layout, s.flash.mem), SlotIndex(s.layout, s.cfgAddr), offset, buffer[..next])
  {
    var n := s.layout.NumLogSectors();
    ghost var found := buffer[..num];
    var idx := offset + num;
    var e;
    e, failed := ReadBack(s, idx);
    next := num;
    if e.None? {
      return false, num, failed;
    }
    ghost var pool, cur := PoolLogs(s.layout, s.flash.mem), SlotIndex(s.layout, s.cfgAddr);
    DepthFits(n, idx);
    HistoryPrefixExtend(pool, cur, offset, found, e.value, idx);
    next := PutEntry(buffer, size, num, e.value, found);
    more := true;
  }

  /** `buffer[num] = entry`, after the `num` entries found so far. */
  method PutEntry(buffer: array<LogEntry>, size: u32, num: u32, e: LogEntry, ghost found: seq<LogEntry>) returns (next: u32)
    requires num < size <= buffer.Length && buffer[..num] == found
    modifies buffer
    ensures next == num + 1 && buffer[..next] == found + [e] && buffer[next..] == old(buffer[next..])
  {
    buffer[num] := e;
    next := num + 1;
    assert buffer[..next] == found + [e];
  }

  /** One round of the loop of `get_event_history`: entry `idx` read
      from the record `idx mod N` slots back (`load_config(-sec_idx)`), or
      `None` where the loop stops: `failed` when that record could not be
      read or validated, and otherwise because the history has no entry
      `idx`. The corrected round: where the source dereferences the null
      record (`ReadBackAsWritten`), it stops. */
  method ReadBack(s: Store, idx: nat) returns (e: Option<LogEntry>, ghost failed: bool)
    requires s.Valid() && s.layout.NumLogSectors() > 0
    modifies s
    ensures s.Valid() && s.writeDelayed == old(s.writeDelayed)
    ensures old(s.cfg).Some? ==> s.cfg == old(s.cfg) && s.cfgAddr == old(s.cfgAddr) && s.cfgLast == old(s.cfgLast)
    ensures !failed ==>
      && s.cfg.Some? && Fits(s.layout, |s.flash.mem|)
      && e == History(PoolLogs(s.layout, s.flash.mem), SlotIndex(s.layout, s.cfgAddr), idx)
    ensures e.Some? ==> !failed && (idx / s.layout.NumLogSectors()) % U16 < LogCapacity
  {
    var n := s.layout.NumLogSectors();
    var sec := idx % n;
    var r := s.LoadRelative(-sec);
    if r.None? {
      return None, true;
    }
    failed := false;
    ghost var pool, cur := PoolLogs(s.layout, s.flash.mem), SlotIndex(s.layout, s.cfgAddr);
    PoolLogsAt(s.layout, s.flash.mem, RelativeSlot(s.layout, s.cfgAddr, -sec));
    DivNonNegative(idx, n);
    HistoryFromSlot(pool, cur, idx, DecodeLog(r.value));
    e := EntryBack(DecodeLog(r.value), idx / n);
  }

  /** The outcome of one round of the loop of `get_event_history` as
      written: the entry found, a stop (`break`), or a read of
      `last_log_idx` through the null record `load_config(-sec_idx)` gives
      for a slot it cannot read or validate. */
  datatype Round = Found(e: LogEntry) | Stop | NullRecord

  /** One round as written, on the slot image `img` that
      `load_config(-sec_idx)` reads at depth `depth`: a slot that is not
      accepted yields no record, and the round dereferences it. */
  function RoundOf(img: seq<u32>, depth: nat): (r: Round)
    requires IsImage(img)
    ensures r.NullRecord? <==> !Accepted(img)
    ensures !r.NullRecord? ==> EntryBack(DecodeLog(img), depth) == if r.Found? then Some(r.e) else None
  {
    if !Accepted(img) then NullRecord
    else
      match EntryBack(DecodeLog(img), depth)
      case None => Stop
      case Some(e) => Found(e)
  }

  /** One word corrupted in an accepted record (past its checksum and id,
      so that the slot does not turn virgin) makes the round as written
      read through the null record, whatever the depth. */
  lemma CorruptSlotNullRecord(img: seq<u32>, k: nat, v: u32, depth: nat)
    requires IsImage(img) && Accepted(img) && !IsVirgin(img)
    requires 2 <= k < RecordWords && v != img[k]
    ensures IsImage(img[k := v]) && RoundOf(img[k := v], depth).NullRecord?
  {
    CorruptedWordRejected(img, k, v);
  }

  /** One round of the loop of `get_event_history` as written: where
      `load_config(-sec_idx)` gives no record, `cfg->last_log_idx` is read
      through a null pointer (`NullRecord`). A slot that is not accepted
      always leads there; otherwise the round finds history entry `idx` or
      stops where the history has none. */
  method ReadBackAsWritten(s: Store, idx: nat) returns (r: Round)
    requires s.Valid() && s.layout.NumLogSectors() > 0
    modifies s
    ensures s.Valid() && s.writeDelayed == old(s.writeDelayed)
    ensures old(s.cfg).Some? ==> s.cfg == old(s.cfg) && s.cfgAddr == old(s.cfgAddr) && s.cfgLast == old(s.cfgLast)
    ensures (s.cfg.Some? && Fits(s.layout, |s.flash.mem|) &&
             !Accepted(s.Slot(RelativeSlot(s.layout, s.cfgAddr, -(idx % s.layout.NumLogSectors()))))) ==> r.NullRecord?
    ensures !r.NullRecord? ==>
      && s.cfg.Some? && Fits(s.layout, |s.flash.mem|)
      && (if r.Found? then Some(r.e) else None) == History(PoolLogs(s.layout, s.flash.mem), SlotIndex(s.layout, s.cfgAddr), idx)
  {
    var n := s.layout.NumLogSectors();
    var sec := idx % n;
    var rec := s.LoadRelative(-sec);
    if rec.None? {
      return NullRecord;
    }
    r := RoundOf(rec.value, idx / n);
    RoundOfHistory(s.layout, s.flash.mem, s.cfgAddr, idx, rec.value);
  }

  /** On an accepted slot the round as written finds exactly the history
      entry `idx`, or stops where the history has none. */
  lemma RoundOfHistory(l: Layout, mem: seq<u32>, a: int, idx: nat, img: seq<u32>)
    requires Fits(l, |mem|) && l.NumLogSectors() > 0
    requires var j := RelativeSlot(l, a, -(idx % l.NumLogSectors()));
      SlotWord(l, j) + WordsPerSector <= |mem| && img == SlotOf(l, mem, j) && Accepted(img)
    ensures var r := RoundOf(img, idx / l.NumLogSectors());
      !r.NullRecord? && (if r.Found? then Some(r.e) else None) == History(PoolLogs(l, mem), SlotIndex(l, a), idx)
  {
    var n := l.NumLogSectors();
    PoolLogsAt(l, mem, RelativeSlot(l, a, -(idx % n)));
    DivNonNegative(idx, n);
    HistoryFromSlot(PoolLogs(l, mem), SlotIndex(l, a), idx, DecodeLog(img));
  }

  /** History entry `idx` is read from the record `idx mod N` slots back. */
  lemma HistoryFromSlot(pool: seq<SlotLog>, cur: int, idx: nat, log: SlotLog)
    requires |pool| > 0 && AllSized(pool) && pool[(cur - idx % |pool|) % |pool|] == log
    ensures History(pool, cur, idx) == EntryBack(log, idx / |pool|)
    ensures History(pool, cur, idx).Some? ==> (idx / |pool|) % U16 < LogCapacity
  {
  }

  /** `found` are the history entries `offset`, `offset + 1`, ... in
      that order. */
  predicate HistoryPrefix(pool: seq<SlotLog>, cur: int, offset: nat, found: seq<LogEntry>)
    requires |pool| > 0 && AllSized(pool)
    decreases |found|
  {
    found == [] ||
      (HistoryPrefix(pool, cur, offset, found[..|found| - 1]) &&
       History(pool, cur, offset + |found| - 1) == Some(found[|found| - 1]))
  }

  lemma HistoryPrefixExtend(pool: seq<SlotLog>, cur: int, offset: nat, found: seq<LogEntry>, e: LogEntry, idx: nat)
    requires |pool| > 0 && AllSized(pool) && (found == [] || HistoryPrefix(pool, cur, offset, found))
    requires idx == offset + |found| && History(pool, cur, idx) == Some(e)
    ensures HistoryPrefix(pool, cur, offset, found + [e])
  {
    assert (found + [e])[..|found|] == found;
  }

  /** Element k of a history prefix is history entry `offset + k`. */
  lemma {:induction false} HistoryPrefixAt(pool: seq<SlotLog>, cur: int, offset: nat, found: seq<LogEntry>, k: nat)
    requires |pool| > 0 && AllSized(pool) && HistoryPrefix(pool, cur, offset, found) && k < |found|
    ensures History(pool, cur, offset + k) == Some(found[k])
  {
    if k < |found| - 1 {
      HistoryPrefixAt(pool, cur, offset, found[..|found| - 1], k);
    }
  }

  lemma DivNonNegative(x: nat, n: nat)
    requires n > 0
    ensures x / n >= 0
  {
  }

  /** An entry found at depth `idx / N`, with `idx` at most N times the
      capacity, lies below N times the capacity. */
  lemma DepthFits(n: nat, idx: nat)
    requires n > 0 && idx <= n * LogCapacity && (idx / n) % U16 < LogCapacity
    ensures idx + 1 <= n * LogCapacity
  {
    var d := idx / n;
    DivUnique(idx, n, d, idx % n);
    if d > LogCapacity {
      MulBelow(LogCapacity + 1, d, n);
    } else if d < LogCapacity {
      MulBelow(d, LogCapacity - 1, n);
    }
  }
}
