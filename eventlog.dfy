/** The event log of src/configlog.cpp as a property of the record pool.
    Every record carries a ring of `LogCapacity` entries and the index of
    its newest one. `log_event` copies the ring of the slot it is about to
    overwrite, appends one entry and writes the result into that slot, so
    slot s holds the s-th, (s+N)-th, (s+2N)-th ... events in its ring, and
    `get_event_history` finds event `idx` back in slot `idx mod N` at depth
    `idx / N`. */
module EventLog {
  import opened Words
  import opened Wrappers
  import opened Records
  import opened ConfigLayout

  /** The log part of one record: `last_log_idx` and the ring. */
  datatype SlotLog = SlotLog(lastIdx: u16, log: seq<LogEntry>)

  predicate Sized(s: SlotLog)
  {
    |s.log| == LogCapacity
  }

  /** The log of an erased sector, and of the defaults `get_config`
      writes into a virgin record. */
  function VirginLog(): SlotLog
  {
    SlotLog(0xFFFF, seq(LogCapacity, _ => ErasedEntry))
  }

  /** The log part of a record image. */
  function DecodeLog(img: seq<u32>): (s: SlotLog)
    requires IsImage(img)
    ensures Sized(s)
  {
    SlotLog(LastLogIdx(img), LogOf(img))
  }

  /** An erased sector holds the virgin log. */
  lemma ErasedLog(img: seq<u32>)
    requires IsImage(img) && forall w :: 0 <= w < |img| ==> img[w] == Ones
    ensures DecodeLog(img) == VirginLog()
  {
    assert LogOf(img) == seq(LogCapacity, _ => ErasedEntry);
  }

  /** An entry `log_event` may write. */
  predicate Loggable(e: LogEntry)
  {
    e.Fields() && ValidCode(e.event) && e.timestamp != Ones
  }

  /** `idx = last_log_idx + 1` as a `uint16_t`, reset to 0 at capacity. */
  function NextLogIdx(last: u16): (idx: nat)
    ensures idx < LogCapacity
  {
    var i := (last + 1) % U16;
    if i >= LogCapacity then 0 else i
  }

  /** The index advances round the ring, and the virgin 0xFFFF wraps to
      slot 0 of the ring. */
  lemma NextLogIdxRing(last: u16)
    ensures last < LogCapacity ==> NextLogIdx(last) == (last + 1) % LogCapacity
    ensures last == 0xFFFF ==> NextLogIdx(last) == 0
  {
    if last < LogCapacity {
      DivUnique(last + 1, U16, 0, last + 1);
      if last + 1 < LogCapacity {
        DivUnique(last + 1, LogCapacity, 0, last + 1);
      } else {
        DivUnique(last + 1, LogCapacity, 1, 0);
      }
    }
  }

  /** The ring after one append: only the new newest entry changes. */
  function Append(s: SlotLog, e: LogEntry): (r: SlotLog)
    requires Sized(s)
    ensures Sized(r) && r.lastIdx == NextLogIdx(s.lastIdx) && r.log[r.lastIdx] == e
    ensures forall k :: 0 <= k < LogCapacity && k != r.lastIdx ==> r.log[k] == s.log[k]
  {
    var idx := NextLogIdx(s.lastIdx);
    SlotLog(idx, s.log[idx := e])
  }

  /** One step of `get_event_history`'s lookup in a record: the entry
      `offs` places behind the newest (`offs` is truncated to `uint16_t`),
      or `None` where the loop stops: a record whose `last_log_idx` is out
      of range, a depth at or past capacity, an erased entry or a code
      outside the valid range. */
  function EntryBack(s: SlotLog, offs: nat): (r: Option<LogEntry>)
    requires Sized(s)
    ensures r.Some? ==> ValidCode(r.value.event) && r.value.timestamp != Ones
  {
    if s.lastIdx >= LogCapacity then None
    else
      var d := offs % U16;
      if d >= LogCapacity then None
      else
        var li := if s.lastIdx >= d then s.lastIdx - d else LogCapacity + s.lastIdx - d;
        var e := s.log[li];
        if e.timestamp == Ones || e.event <= LogZero || e.event >= LogInvalid then None else Some(e)
  }

  /** Entry `idx` of the history as `get_event_history` reads it from the
      pool, with the newest record in slot `cur`: the record `idx mod N`
      slots back, at depth `idx / N`. */
  function History(pool: seq<SlotLog>, cur: int, idx: nat): Option<LogEntry>
    requires |pool| > 0 && forall s :: 0 <= s < |pool| ==> Sized(pool[s])
  {
    var n := |pool|;
    EntryBack(pool[(cur - idx % n) % n], idx / n)
  }

  // ---------------------------------------------------------------------
  // The pool after a run of events.

  predicate AllSized(pool: seq<SlotLog>)
  {
    forall s :: 0 <= s < |pool| ==> Sized(pool[s])
  }

  /** The logs of the N slots after the events `es` were logged from a
      blank pool, each written successfully: event m is written into slot
      m mod N, with the ring that slot held appended. */
  function Pool(es: seq<LogEntry>, n: nat): (p: seq<SlotLog>)
    requires n > 0
    ensures |p| == n && AllSized(p)
    decreases |es|
  {
    if es == [] then seq(n, _ => VirginLog())
    else
      var prev := Pool(es[..|es| - 1], n);
      var s := (|es| - 1) % n;
      prev[s := Append(prev[s], es[|es| - 1])]
  }

  /** How many of the first `m` events went to slot `s`. */
  function Writes(m: nat, n: nat, s: nat): nat
    requires n > 0
  {
    if s < m then (m - 1 - s) / n + 1 else 0
  }

  /** The events written to slot `s`, oldest first. */
  function Chain(es: seq<LogEntry>, n: nat, s: nat): (c: seq<LogEntry>)
    requires n > 0 && s < n
    ensures |c| == Writes(|es|, n, s)
  {
    seq(Writes(|es|, n, s), j requires 0 <= j < Writes(|es|, n, s) =>
      ChainMember(|es|, n, s, j); es[s + n * j])
  }

  /** The j-th write to slot s is one of the first m events. */
  lemma ChainMember(m: nat, n: nat, s: nat, j: nat)
    requires n > 0 && j < Writes(m, n, s)
    ensures s + n * j < m
  {
    MulBelow(j, Writes(m, n, s) - 1, n);
    DivBelow(m - 1 - s, n);
  }

  lemma MulBelow(a: nat, b: nat, n: nat)
    requires a <= b
    ensures n * a <= n * b
  {
  }

  lemma DivBelow(x: nat, n: nat)
    requires n > 0
    ensures n * (x / n) <= x
  {
  }

  /** The ring a slot holds after the events of its chain were appended. */
  function ChainLog(chain: seq<LogEntry>): (s: SlotLog)
    ensures Sized(s)
    decreases |chain|
  {
    if chain == [] then VirginLog() else Append(ChainLog(chain[..|chain| - 1]), chain[|chain| - 1])
  }

  /** Logging event m touches slot m mod N only, and extends its chain. */
  lemma WritesStep(m: nat, n: nat, s: nat)
    requires n > 0 && s < n
    ensures s == m % n ==> Writes(m + 1, n, s) == Writes(m, n, s) + 1 && s + n * Writes(m, n, s) == m
    ensures s != m % n ==> Writes(m + 1, n, s) == Writes(m, n, s)
  {
    var q, r := m / n, m % n;
    assert m == q * n + r;
    Distrib(q, 1, n);
    assert (q - 1) * n == q * n - n;
    if s == r {
      DivUnique(m - s, n, q, 0);
      if s < m {
        assert q * n > 0;
        DivUnique(m - 1 - s, n, q - 1, n - 1);
      } else {
        assert q * n == 0;
        if q != 0 {
          MulAtLeast(q, n);
        }
      }
    } else if s < m {
      if s < r {
        DivUnique(m - 1 - s, n, q, r - 1 - s);
        DivUnique(m - s, n, q, r - s);
      } else {
        DivUnique(m - 1 - s, n, q - 1, n + r - 1 - s);
        DivUnique(m - s, n, q - 1, n + r - s);
      }
    } else if s == m {
      DivUnique(m, n, 0, m);
    }
  }

  /** Logging one more event extends the chain of its slot by that event
      and leaves the other chains as they were. */
  lemma ChainStep(es: seq<LogEntry>, n: nat, s: nat)
    requires n > 0 && s < n && es != []
    ensures var m := |es| - 1;
      Chain(es, n, s) == if s == m % n then Chain(es[..m], n, s) + [es[m]] else Chain(es[..m], n, s)
  {
    var m := |es| - 1;
    WritesStep(m, n, s);
    var c, c' := Chain(es[..m], n, s), Chain(es, n, s);
    forall j | 0 <= j < |c| ensures c'[j] == c[j] {
      ChainMember(m, n, s, j);
    }
  }

  /** Slot by slot, the pool is the chains' rings. */
  lemma {:induction false} PoolIsChains(es: seq<LogEntry>, n: nat, s: nat)
    requires n > 0 && s < n
    ensures Pool(es, n)[s] == ChainLog(Chain(es, n, s))
    decreases |es|
  {
    if es != [] {
      var m := |es| - 1;
      PoolIsChains(es[..m], n, s);
      ChainStep(es, n, s);
      if s == m % n {
        var c' := Chain(es, n, s);
        assert c'[..|c'| - 1] == Chain(es[..m], n, s);
      }
    }
  }

  /** How far behind the newest entry of a k-long chain the ring position
      `p` is. */
  function Depth(k: nat, p: nat): nat
  {
    (k - 1 - p) % LogCapacity
  }

  lemma DepthStep(k: nat, p: nat)
    requires p < LogCapacity
    ensures p == k % LogCapacity ==> Depth(k + 1, p) == 0
    ensures p != k % LogCapacity ==> Depth(k + 1, p) == Depth(k, p) + 1
  {
    var q, r := (k - 1 - p) / LogCapacity, Depth(k, p);
    DivUnique(k, LogCapacity, k / LogCapacity, k % LogCapacity);
    if p == k % LogCapacity {
      DivUnique(k - p, LogCapacity, k / LogCapacity, 0);
    } else {
      if r == LogCapacity - 1 {
        DivUnique(k, LogCapacity, q + 1, p);
        assert false;
      }
      DivUnique(k - p, LogCapacity, q, r + 1);
    }
  }

  lemma ModSucc(x: nat, c: nat)
    requires c > 0
    ensures (x % c + 1) % c == (x + 1) % c
  {
    DivUnique(x, c, x / c, x % c);
    if x % c + 1 < c {
      DivUnique(x % c + 1, c, 0, x % c + 1);
      DivUnique(x + 1, c, x / c, x % c + 1);
    } else {
      DivUnique(x % c + 1, c, 1, 0);
      DivUnique(x + 1, c, x / c + 1, 0);
    }
  }

  /** After k >= 1 appends from the virgin ring, the newest entry is at
      position (k - 1) mod capacity. */
  lemma {:induction false} ChainLastIdx(chain: seq<LogEntry>)
    ensures |chain| == 0 ==> ChainLog(chain) == VirginLog()
    ensures |chain| > 0 ==> ChainLog(chain).lastIdx == (|chain| - 1) % LogCapacity
    decreases |chain|
  {
    var k := |chain|;
    if k == 1 {
      NextLogIdxRing(0xFFFF);
    } else if k > 1 {
      var init := chain[..k - 1];
      ChainLastIdx(init);
      NextLogIdxRing(ChainLog(init).lastIdx);
      ModSucc(k - 2, LogCapacity);
    }
  }

  /** After k appends from the virgin ring, the entry d places behind the
      newest is the chain's (k - 1 - d)-th event, or erased if the chain
      is shorter than that. */
  lemma {:induction false} ChainLogAt(chain: seq<LogEntry>, p: nat)
    requires p < LogCapacity
    ensures var k := |chain|;
      ChainLog(chain).log[p] == if Depth(k, p) < k then chain[k - 1 - Depth(k, p)] else ErasedEntry
    decreases |chain|
  {
    var k := |chain|;
    if k > 0 {
      var init := chain[..k - 1];
      ChainLastIdx(chain);
      ChainLogAt(init, p);
      DepthStep(k - 1, p);
      if p != (k - 1) % LogCapacity {
        assert ChainLog(chain).log[p] == ChainLog(init).log[p];
      }
    }
  }

  // ---------------------------------------------------------------------
  // The history theorem.

  /** The record `idx mod N` slots behind the newest, after m events. */
  lemma SlotBackHit(m: nat, n: nat, idx: nat)
    requires n > 0 && idx % n < m
    ensures var q := ((m - 1) % n - idx % n) % n;
      Writes(m, n, q) == (m - 1 - idx % n) / n + 1 && q + n * (Writes(m, n, q) - 1) == m - 1 - idx % n
  {
    var c, sec := (m - 1) % n, idx % n;
    var q := (c - sec) % n;
    var mm := m - 1 - sec;
    var t := (m - 1) / n;
    DivUnique(m - 1, n, t, c);
    ModShift(mm, n, t);
    assert c - sec == mm - n * t;
    assert q == mm % n;
    var w := mm / n;
    DivUnique(mm, n, w, q);
    DivUnique(m - 1 - q, n, w, sec);
    assert Writes(m, n, q) - 1 == w;
  }

  /** Taking away a multiple of N does not change the remainder by N. */
  lemma ModShift(x: int, n: int, t: int)
    requires n > 0
    ensures (x - n * t) % n == x % n
  {
    DivUnique(x - n * t, n, x / n - t, x % n);
  }

  /** When `idx mod N` is at least the number of events, the slot that
      many places behind the newest was never written. */
  lemma SlotBackMiss(m: nat, n: nat, idx: nat)
    requires n > 0 && m > 0 && idx % n >= m
    ensures Writes(m, n, ((m - 1) % n - idx % n) % n) == 0
  {
    var c, sec := (m - 1) % n, idx % n;
    DivUnique(m - 1, n, 0, m - 1);
    DivUnique(c - sec, n, -1, n + m - 1 - sec);
  }

  /** The ring position `get_event_history` reads, for a record whose
      newest entry is at `last` and depth `d`, is the one d places
      behind the newest. */
  lemma BackPosition(k: nat, d: nat)
    requires k > 0 && d < LogCapacity
    ensures var last := (k - 1) % LogCapacity;
      var li := if last >= d then last - d else LogCapacity + last - d;
      li < LogCapacity && Depth(k, li) == d
  {
    var last := (k - 1) % LogCapacity;
    var li := if last >= d then last - d else LogCapacity + last - d;
    DivUnique(k - 1, LogCapacity, (k - 1) / LogCapacity, last);
    if last >= d {
      DivUnique(k - 1 - li, LogCapacity, (k - 1) / LogCapacity, d);
    } else {
      DivUnique(k - 1 - li, LogCapacity, (k - 1) / LogCapacity - 1, d);
    }
  }

  /** `get_event_history`'s lookup at depth `d` in a record whose
      `last_log_idx` is in range reads ring position `li`. */
  lemma EntryBackAt(s: SlotLog, d: nat, li: nat)
    requires Sized(s) && s.lastIdx < LogCapacity && d < LogCapacity
    requires li == if s.lastIdx >= d then s.lastIdx - d else LogCapacity + s.lastIdx - d
    ensures li < LogCapacity
    ensures var e := s.log[li];
      EntryBack(s, d) == if e.timestamp == Ones || e.event <= LogZero || e.event >= LogInvalid then None else Some(e)
  {
    DivUnique(d, U16, 0, d);
  }

  /** Ring position `li`, d places behind the newest of a k-long chain,
      holds the chain's event d places from its end, or is erased. */
  lemma RingBack(chain: seq<LogEntry>, d: nat, li: nat)
    requires |chain| > 0 && d < LogCapacity
    requires var last := (|chain| - 1) % LogCapacity;
      li == if last >= d then last - d else LogCapacity + last - d
    ensures li < LogCapacity
    ensures ChainLog(chain).log[li] == if d < |chain| then chain[|chain| - 1 - d] else ErasedEntry
  {
    var k := |chain|;
    assert li < LogCapacity && Depth(k, li) == d by {
      BackPosition(k, d);
    }
    ChainLogDepth(chain, li, d);
  }

  lemma ChainLogDepth(chain: seq<LogEntry>, p: nat, d: nat)
    requires p < LogCapacity && Depth(|chain|, p) == d
    ensures ChainLog(chain).log[p] == if d < |chain| then chain[|chain| - 1 - d] else ErasedEntry
  {
    ChainLogAt(chain, p);
  }

  /** Looked up `d` places behind the newest, a chain's ring gives the
      chain's event that many places from its end, and stops where the
      chain is shorter. */
  lemma EntryBackChain(chain: seq<LogEntry>, d: nat)
    requires d < LogCapacity
    requires d < |chain| ==> Loggable(chain[|chain| - 1 - d])
    ensures EntryBack(ChainLog(chain), d) == if d < |chain| then Some(chain[|chain| - 1 - d]) else None
  {
    ChainLastIdx(chain);
    if |chain| > 0 {
      var s := ChainLog(chain);
      var li := if s.lastIdx >= d then s.lastIdx - d else LogCapacity + s.lastIdx - d;
      EntryBackAt(s, d, li);
      RingBack(chain, d, li);
    }
  }

  /** Where entry `idx` lies in the chain of the slot `idx mod N` back,
      a chain of k events whose newest is event `m - 1 - idx mod N`. */
  lemma DepthInChain(m: nat, n: nat, idx: nat, q: nat, k: nat)
    requires n > 0 && idx % n < m
    requires k == (m - 1 - idx % n) / n + 1
    requires q + n * (k - 1) == m - 1 - idx % n
    ensures idx < m <==> idx / n < k
    ensures idx < m ==> q + n * (k - 1 - idx / n) == m - 1 - idx
  {
    var sec, d := idx % n, idx / n;
    var mm := m - 1 - sec;
    DivUnique(idx, n, d, sec);
    DivUnique(mm, n, k - 1, mm % n);
    if d > k - 1 {
      MulBelow(k, d, n);
    } else {
      MulBelow(d, k - 1, n);
      Distrib(k - 1, d, n);
    }
  }

  /** Below N times the capacity, the depth `idx / N` is within the
      ring. */
  lemma DepthBelowCapacity(n: nat, idx: nat)
    requires n > 0 && idx < n * LogCapacity
    ensures idx / n < LogCapacity
  {
    DivUnique(idx, n, idx / n, idx % n);
    if idx / n >= LogCapacity {
      MulBelow(LogCapacity, idx / n, n);
    }
  }

  /** The remainder of `idx` by N is at most `idx`. */
  lemma RemBelow(n: nat, idx: nat)
    requires n > 0
    ensures idx % n <= idx
  {
    DivUnique(idx, n, idx / n, idx % n);
    MulBelow(0, idx / n, n);
  }

  /** Where history entry `idx < m` is looked up after m events: in slot
      q, `idx mod N` slots behind the newest, whose chain of k events
      holds the event `m - 1 - idx` at depth `idx / N`. */
  lemma LocateHit(m: nat, n: nat, idx: nat)
    requires n > 0 && idx < m
    ensures var q := ((m - 1) % n - idx % n) % n; var k := Writes(m, n, q);
      idx / n < k && q + n * (k - 1 - idx / n) == m - 1 - idx
  {
    RemBelow(n, idx);
    SlotBackHit(m, n, idx);
    var q := ((m - 1) % n - idx % n) % n;
    DepthInChain(m, n, idx, q, Writes(m, n, q));
  }

  /** Entry `idx >= m` lies beyond the chain of the slot looked up. */
  lemma LocateMiss(m: nat, n: nat, idx: nat, q: nat)
    requires n > 0 && m > 0 && idx >= m && q == ((m - 1) % n - idx % n) % n
    ensures idx / n >= Writes(m, n, q)
  {
    if idx % n < m {
      MissInChain(m, n, idx, q, Writes(m, n, q));
    } else {
      SlotBackMiss(m, n, idx);
    }
  }

  /** Entry `idx >= m` in a slot that was written lies below its chain. */
  lemma MissInChain(m: nat, n: nat, idx: nat, q: nat, k: nat)
    requires n > 0 && idx >= m && idx % n < m
    requires q == ((m - 1) % n - idx % n) % n && k == Writes(m, n, q)
    ensures idx / n >= k
  {
    assert k == (m - 1 - idx % n) / n + 1 && q + n * (k - 1) == m - 1 - idx % n by {
      SlotBackHit(m, n, idx);
    }
    assert idx < m <==> idx / n < k by {
      DepthInChain(m, n, idx, q, k);
    }
  }

  /** The history read from any pool whose slots hold the chains' rings
      of the events `es`. */
  lemma HistoryOfChains(pool: seq<SlotLog>, es: seq<LogEntry>, n: nat, idx: nat)
    requires n > 0 && |pool| == n && AllSized(pool)
    requires forall s :: 0 <= s < n ==> pool[s] == ChainLog(Chain(es, n, s))
    requires |es| > 0 && forall m :: 0 <= m < |es| ==> Loggable(es[m])
    requires idx < n * LogCapacity
    ensures History(pool, (|es| - 1) % n, idx) == if idx < |es| then Some(es[|es| - 1 - idx]) else None
  {
    var m := |es|;
    var q := ((m - 1) % n - idx % n) % n;
    ChainBack(es, n, idx, q, idx / n);
  }

  /** Entry `idx` is looked up in the chain of slot q, at depth d. */
  lemma ChainBack(es: seq<LogEntry>, n: nat, idx: nat, q: nat, d: nat)
    requires n > 0 && |es| > 0 && forall m :: 0 <= m < |es| ==> Loggable(es[m])
    requires idx < n * LogCapacity && q == ((|es| - 1) % n - idx % n) % n && d == idx / n
    ensures q < n
    ensures EntryBack(ChainLog(Chain(es, n, q)), d) == if idx < |es| then Some(es[|es| - 1 - idx]) else None
  {
    var m := |es|;
    assert d < LogCapacity by {
      DepthBelowCapacity(n, idx);
    }
    var chain := Chain(es, n, q);
    if idx < m {
      var j := |chain| - 1 - d;
      assert d < |chain| && q + n * j == m - 1 - idx by {
        LocateHit(m, n, idx);
      }
      assert chain[j] == es[m - 1 - idx] by {
        ChainMember(m, n, q, j);
      }
    } else {
      assert d >= |chain| by {
        LocateMiss(m, n, idx, q);
      }
    }
    EntryBackChain(chain, d);
  }

  /** The end-to-end property of the event log: after m >= 1 events were
      logged and written, entry `idx` of the history, for every `idx`
      below N times the capacity, is the event logged `idx` events before
      the newest, and there is none beyond the oldest one. */
  lemma HistoryOfPool(es: seq<LogEntry>, n: nat, idx: nat)
    requires n > 0 && |es| > 0 && forall m :: 0 <= m < |es| ==> Loggable(es[m])
    requires idx < n * LogCapacity
    ensures History(Pool(es, n), (|es| - 1) % n, idx) == if idx < |es| then Some(es[|es| - 1 - idx]) else None
  {
    forall s | 0 <= s < n ensures Pool(es, n)[s] == ChainLog(Chain(es, n, s)) {
      PoolIsChains(es, n, s);
    }
    HistoryOfChains(Pool(es, n), es, n, idx);
  }

  /** Before anything was logged the history is empty. */
  lemma HistoryOfBlankPool(n: nat, cur: int, idx: nat)
    requires n > 0
    ensures History(Pool([], n), cur, idx).None?
  {
  }

  /** Only the newest slot's position modulo N matters. */
  lemma HistoryCurrentMod(pool: seq<SlotLog>, cur: int, idx: nat)
    requires |pool| > 0 && AllSized(pool)
    ensures History(pool, cur, idx) == History(pool, cur % |pool|, idx)
  {
    var n, sec := |pool|, idx % |pool|;
    DivUnique(cur, n, cur / n, cur % n);
    ModShift(cur - sec, n, cur / n);
    assert cur - sec - n * (cur / n) == cur % n - sec;
  }
}
