/** One version of the configuration record, as the 1024 words of the flash
    sector that holds it (src/filesystem.cpp treats it as a `config_base`
    header followed by an opaque payload): word 0 `checksum`, word 1 `id`,
    word 2 `timestamp`, word 3 `first_timestamp`. The checksum covers words
    1..1023. */
module Records {
  import opened Words
  import opened Checksums

  const RecordWords: nat := 1024

  /** `config_base`. */
  datatype Header = Header(checksum: u32, id: u32, timestamp: u32, firstTimestamp: u32)

  /** `cfg_last` before any record has been read: `{ ~0u, ~0u, 0u, 0u }`, so
      that the first id assigned is `~0u + 1 == 0`. */
  const InitialLast: Header := Header(Ones, Ones, 0, 0)

  predicate IsImage(img: seq<u32>)
  {
    |img| == RecordWords
  }

  function HeaderOf(img: seq<u32>): Header
    requires IsImage(img)
  {
    Header(img[0], img[1], img[2], img[3])
  }

  /** `calc_config_checksum`: the checksum of words 1..1023. */
  function ConfigChecksum(img: seq<u32>): u32
    requires IsImage(img)
  {
    Checksum(img[1..])
  }

  /** A never-written (erased) sector: id and checksum both `~0u`. */
  predicate IsVirgin(img: seq<u32>)
    requires IsImage(img)
  {
    img[1] == Ones && img[0] == Ones
  }

  /** What `read_config` accepts once the read succeeded. */
  predicate Accepted(img: seq<u32>)
    requires IsImage(img)
  {
    IsVirgin(img) || ConfigChecksum(img) == img[0]
  }

  /** An erased sector is accepted without its checksum being looked at. */
  lemma ErasedSectorAccepted(img: seq<u32>)
    requires IsImage(img) && forall j :: 0 <= j < |img| ==> img[j] == Ones
    ensures Accepted(img) && IsVirgin(img)
  {
  }

  /** Corruption isolation: changing any one word of an accepted, written
      record yields a record that `read_config` rejects, unless the change
      happens to turn it into the virgin pattern. */
  lemma CorruptedWordRejected(img: seq<u32>, k: nat, v: u32)
    requires IsImage(img) && Accepted(img) && !IsVirgin(img)
    requires k < RecordWords && v != img[k]
    ensures var bad := img[k := v]; IsImage(bad) && (Accepted(bad) ==> IsVirgin(bad))
  {
    var bad := img[k := v];
    if k == 0 {
      assert bad[1..] == img[1..];
    } else {
      assert bad[1..] == img[1..][k - 1 := v];
      ChangedWordDetected(img[1..], k - 1, v);
    }
  }

  /** The record with the given header fields and its checksum computed last,
      as `save_config` and the deferred write do. */
  function Seal(img: seq<u32>, id: u32, timestamp: u32, firstTimestamp: u32): (r: seq<u32>)
    requires IsImage(img)
    ensures IsImage(r) && r[1..4] == [id, timestamp, firstTimestamp] && r[4..] == img[4..]
    ensures r[0] == ConfigChecksum(r)
  {
    var b := img[1 := id][2 := timestamp][3 := firstTimestamp];
    assert b[1..] == b[..][1..];
    var r := b[0 := ConfigChecksum(b)];
    assert r[1..] == b[1..];
    r
  }

  /** A sealed record is always accepted when read back. */
  lemma SealedAccepted(img: seq<u32>, id: u32, timestamp: u32, firstTimestamp: u32)
    requires IsImage(img)
    ensures var r := Seal(img, id, timestamp, firstTimestamp);
      Accepted(r) && HeaderOf(r) == Header(r[0], id, timestamp, firstTimestamp)
  {
  }

  /** The record `save_config` builds from `cfg` and `cfg_last` at clock
      `now`: id one past the last one written (wrapping), first timestamp
      carried forward once set, else the clock. */
  function Stamp(img: seq<u32>, last: Header, now: u32): (r: seq<u32>)
    requires IsImage(img)
    ensures IsImage(r) && Accepted(r) && r[4..] == img[4..]
    ensures r[1] == (last.id + 1) % U32 && r[2] == now
    ensures r[3] == if last.firstTimestamp != 0 then last.firstTimestamp else now
  {
    Seal(img, (last.id + 1) % U32, now, if last.firstTimestamp != 0 then last.firstTimestamp else now)
  }

  /** The record the deferred write builds when it fires at `now`: the first
      timestamp is copied from `cfg_last` as it is, even when it is 0. */
  function Refresh(img: seq<u32>, last: Header, now: u32): (r: seq<u32>)
    requires IsImage(img)
    ensures IsImage(r) && Accepted(r) && r[4..] == img[4..]
    ensures r[1] == (last.id + 1) % U32 && r[2] == now && r[3] == last.firstTimestamp
  {
    Seal(img, (last.id + 1) % U32, now, last.firstTimestamp)
  }

  /** Saves at clocks `times`, none deferred and none failing, starting from
      `cfg_last == last`: the header `cfg_last` holds afterwards. */
  function SaveAll(img: seq<u32>, last: Header, times: seq<u32>): Header
    requires IsImage(img)
    decreases |times|
  {
    if times == [] then last
    else
      var r := Stamp(img, last, times[0]);
      SaveAll(r, HeaderOf(r), times[1..])
  }

  /** From the boot value of `cfg_last`, after n saves at non-zero clocks
      the id is n - 1 and the first timestamp is the clock of the first
      save. */
  lemma {:induction false} SaveSequence(img: seq<u32>, times: seq<u32>)
    requires IsImage(img) && |times| < Ones
    requires forall j :: 0 <= j < |times| ==> times[j] != 0
    ensures |times| > 0 ==> SaveAll(img, InitialLast, times).id == |times| - 1
    ensures |times| > 0 ==> SaveAll(img, InitialLast, times).firstTimestamp == times[0]
  {
    if |times| > 0 {
      var r := Stamp(img, InitialLast, times[0]);
      SaveFrom(r, HeaderOf(r), times[1..], times[0]);
    }
  }

  lemma {:induction false} SaveFrom(img: seq<u32>, last: Header, times: seq<u32>, first: u32)
    requires IsImage(img) && last.firstTimestamp == first && first != 0
    requires last.id + |times| < Ones
    ensures SaveAll(img, last, times).id == last.id + |times|
    ensures SaveAll(img, last, times).firstTimestamp == first
    decreases |times|
  {
    if times != [] {
      var r := Stamp(img, last, times[0]);
      SaveFrom(r, HeaderOf(r), times[1..], first);
    }
  }

  // ---------------------------------------------------------------------
  // The rotation pool as the locator sees it: the ids of slots 0..N-1.

  /** The pool is a run of strictly increasing written ids in slots 0..t,
      followed by slots that are virgin or hold ids older than slot 0's. */
  ghost predicate RotatedAt(ids: seq<u32>, t: nat)
  {
    && t < |ids|
    && (forall j :: 0 <= j <= t ==> ids[j] != Ones)
    && (forall i, j :: 0 <= i < j <= t ==> ids[i] < ids[j])
    && (forall j :: t < j < |ids| ==> ids[j] == Ones || ids[j] < ids[0])
  }

  /** In such a pool slot t holds the largest id written. */
  lemma RotatedMax(ids: seq<u32>, t: nat)
    requires RotatedAt(ids, t)
    ensures forall j :: 0 <= j < |ids| && ids[j] != Ones ==> ids[j] <= ids[t]
  {
    forall j | 0 <= j < |ids| && ids[j] != Ones ensures ids[j] <= ids[t] {
      if j > t && 0 < t {
        assert ids[0] < ids[t];
      }
    }
  }

  /** Past the newest slot every slot is virgin or older than slot 0. */
  lemma PastNewest(ids: seq<u32>, t: nat, u: nat)
    requires RotatedAt(ids, t) && t < u < |ids|
    ensures ids[u] == Ones || ids[u] < ids[0]
  {
  }

  /** The newest slot, unless it is slot 0, is newer than slot 0. */
  lemma NewestAfterFirst(ids: seq<u32>, t: nat)
    requires RotatedAt(ids, t) && 0 < t
    ensures ids[t] != Ones && ids[0] < ids[t]
  {
  }

  /** The newest slot of a rotated pool is unique. */
  lemma RotatedUnique(ids: seq<u32>, t: nat, u: nat)
    requires RotatedAt(ids, t) && RotatedAt(ids, u)
    ensures t == u
  {
    if t < u {
      PastNewest(ids, t, u);
      NewestAfterFirst(ids, u);
      assert false;
    } else if u < t {
      PastNewest(ids, u, t);
      NewestAfterFirst(ids, t);
      assert false;
    }
  }

  /** The locator's first test: with the newest slot t bracketed by
      [lo, hi] (and t == hi only before the first probe, when lo == 0), the
      slot `hi` holds a written id newer than slot `lo`'s exactly when it is
      the newest slot. */
  lemma HighIsNewest(ids: seq<u32>, t: nat, lo: nat, hi: nat)
    requires RotatedAt(ids, t) && lo <= t <= hi < |ids| && lo < hi
    requires t == hi ==> lo == 0
    ensures (ids[hi] != Ones && ids[hi] > ids[lo]) <==> t == hi
  {
    if 0 < lo {
      assert ids[0] < ids[lo];
    }
  }

  /** The locator's probe: a slot m past `lo` is virgin or older than slot
      `lo` exactly when it lies past the newest slot. */
  lemma ProbePastNewest(ids: seq<u32>, t: nat, lo: nat, m: nat)
    requires RotatedAt(ids, t) && lo <= t && lo < m < |ids|
    ensures (ids[m] == Ones || ids[m] < ids[lo]) <==> t < m
  {
    if 0 < lo {
      assert ids[0] < ids[lo];
    }
  }

  /** Writing an id newer than every id in the pool into the slot after
      the newest keeps the rotated shape, with the new slot newest; past
      the last slot the write wraps to slot 0. */
  lemma RotatedStep(ids: seq<u32>, t: nat, v: u32)
    requires RotatedAt(ids, t) && v != Ones
    requires forall j :: 0 <= j < |ids| && ids[j] != Ones ==> ids[j] < v
    ensures RotatedAt(ids[(t + 1) % |ids| := v], (t + 1) % |ids|)
  {
    var n := |ids|;
    if t + 1 < n {
      assert (t + 1) % n == t + 1;
    } else {
      assert (t + 1) % n == 0;
    }
    RotatedStepAt(ids, t, (t + 1) % n, v);
  }

  /** The same with the next slot `u` named. */
  lemma RotatedStepAt(ids: seq<u32>, t: nat, u: nat, v: u32)
    requires RotatedAt(ids, t) && v != Ones && u == if t + 1 < |ids| then t + 1 else 0
    requires forall j :: 0 <= j < |ids| && ids[j] != Ones ==> ids[j] < v
    ensures RotatedAt(ids[u := v], u)
  {
    var ids' := ids[u := v];
    if u != 0 {
      forall j | u < j < |ids| ensures ids'[j] == Ones || ids'[j] < ids'[0] {
        if ids[j] != Ones {
          assert ids[j] < ids[0];
        }
      }
    }
  }

  /** The first write into a pool of virgin slots goes to slot 0 and makes
      it the newest. */
  lemma RotatedFirst(ids: seq<u32>, v: u32)
    requires |ids| > 0 && v != Ones
    requires forall j :: 0 <= j < |ids| ==> ids[j] == Ones
    ensures RotatedAt(ids[0 := v], 0)
  {
  }

  /** The ids in the pool after `w` round-robin writes with ids 0..w-1,
      the first into slot 0: slot j holds the last id congruent to j. */
  function WrittenIds(n: nat, w: nat): (ids: seq<u32>)
    requires 0 < n && w <= Ones
    ensures |ids| == n
  {
    seq(n, j requires 0 <= j < n => if j < w then j + ((w - 1 - j) / n) * n else Ones)
  }

  /** Slot j of the written pool, in terms of the quotient and remainder of
      the last id written, w - 1 == q * n + t. */
  lemma WrittenSlot(n: nat, w: nat, j: nat, q: nat, t: nat)
    requires 0 < n && 0 < w <= Ones && j < n
    requires t < n && w - 1 == q * n + t
    ensures j <= t ==> WrittenIds(n, w)[j] == j + q * n
    ensures t < j && j < w ==> WrittenIds(n, w)[j] == j + q * n - n
    ensures w <= j ==> WrittenIds(n, w)[j] == Ones
  {
    if j <= t {
      DivUnique(w - 1 - j, n, q, t - j);
    } else if j < w {
      assert q >= 1;
      Distrib(q, 1, n);
      DivUnique(w - 1 - j, n, q - 1, t - j + n);
    }
  }

  /** Writing id w into slot w mod n takes the pool from w writes to
      w + 1 and changes no other slot. */
  lemma WrittenIdsStep(n: nat, w: nat)
    requires 0 < n && w < Ones
    ensures WrittenIds(n, w + 1) == WrittenIds(n, w)[w % n := w]
  {
    var after, before := WrittenIds(n, w + 1), WrittenIds(n, w)[w % n := w];
    forall j | 0 <= j < n ensures after[j] == before[j] {
      WrittenIdAt(n, w, j, w / n, w % n);
    }
  }

  /** Slot j before and after the write of id w, with w == q * n + r. */
  lemma WrittenIdAt(n: nat, w: nat, j: nat, q: nat, r: nat)
    requires 0 < n && w < Ones && j < n && r < n && w == q * n + r
    ensures WrittenIds(n, w + 1)[j] == if j == r then w else WrittenIds(n, w)[j]
  {
    if j == r {
      DivUnique(w - j, n, q, 0);
    } else if j < r {
      DivUnique(w - j, n, q, r - j);
      DivUnique(w - 1 - j, n, q, r - j - 1);
    } else if j < w {
      assert q >= 1;
      Distrib(q, 1, n);
      DivUnique(w - j, n, q - 1, n + r - j);
      DivUnique(w - 1 - j, n, q - 1, n + r - j - 1);
    } else {
      assert q == 0 || q * n >= n by {
        if q >= 1 {
          MulAtLeast(q, n);
        }
      }
    }
  }

  /** Round-robin writing always leaves the pool in the shape the locator
      relies on, with the newest record in slot (w - 1) mod n, including
      after the pool has wrapped any number of times. */
  lemma WrittenPoolRotated(n: nat, w: nat)
    requires 0 < n && 0 < w <= Ones
    ensures RotatedAt(WrittenIds(n, w), (w - 1) % n)
  {
    WrittenRotatedAt(n, w, (w - 1) / n, (w - 1) % n);
  }

  /** The same with the quotient and remainder of the last id named. */
  lemma WrittenRotatedAt(n: nat, w: nat, q: nat, t: nat)
    requires 0 < n && 0 < w <= Ones && t < n && w - 1 == q * n + t
    ensures RotatedAt(WrittenIds(n, w), t)
  {
    var ids := WrittenIds(n, w);
    var base := q * n;
    forall j | 0 <= j < n
      ensures j <= t ==> ids[j] == j + base
      ensures t < j && j < w ==> ids[j] == j + base - n
      ensures w <= j ==> ids[j] == Ones
    {
      WrittenSlot(n, w, j, q, t);
    }
    assert ids[0] == base;
  }
}
