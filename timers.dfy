/** The host-side mock's software timers: every armed `os_timer_t` is
    linked into the global list `timers`, and `run_timers` fires each one
    in list order, unlinking the ones that do not repeat. The callback
    and its argument are not modelled; a fired timer is recorded in the
    order it fires instead.

    `WrittenTimers` is the list as the mock links it: `os_timer_arm` never
    sets the old head's `prev`, so `os_timer_disarm` cannot tell the last
    timer of the list from an unarmed one and unlinks a later timer by
    making it the head. `TimerList` is the doubly-linked list those two
    functions evidently intend, proved against the sequence of armed
    timers it keeps. */
module Timers {
  import opened Words

  /** `os_timer_t`: the two links, the period and whether it repeats. */
  class Timer {
    var prev: Timer?
    var next: Timer?
    var time: u32
    var repeat: bool

    /** A zero-initialised `static os_timer_t`. */
    constructor()
      ensures prev == null && next == null && time == 0 && !repeat
    {
      prev := null;
      next := null;
      time := 0;
      repeat := false;
    }
  }

  // ---------------------------------------------------------------------
  // The list as written.

  /** The global `timers` of the mock, linked as the mock links it. */
  class WrittenTimers {
    var timers: Timer?

    constructor()
      ensures timers == null
    {
      timers := null;
    }

    /** `os_timer_arm` as written: the timer must be unlinked (both links
        null); it goes to the head, and the old head's `prev` is left
        alone. */
    method Arm(t: Timer, time: u32, repeat: bool)
      requires t.next == null && t.prev == null
      modifies this, t
      ensures timers == t && t.next == old(timers) && t.prev == null
      ensures t.time == time && t.repeat == repeat
    {
      t.time := time;
      t.repeat := repeat;
      t.next := timers;
      timers := t;
    }

    /** `os_timer_disarm` as written: a timer with both links null is
        taken to be unarmed and left alone; otherwise its neighbours are
        linked to each other, a timer without `prev` is taken to be the
        head, and both its links are cleared. */
    method Disarm(t: Timer)
      modifies this, t, t.next, t.prev
      ensures t.next == null && t.prev == null
      ensures timers == if old(t.prev) == null && old(t.next) != null then old(t.next) else old(timers)
      ensures forall u: Timer :: old(allocated(u)) && u != t ==> u.next == if u == old(t.prev) then old(t.next) else old(u.next)
      ensures forall u: Timer :: old(allocated(u)) && u != t ==> u.prev == if u == old(t.next) then old(t.prev) else old(u.prev)
      ensures forall u: Timer :: old(allocated(u)) ==> u.time == old(u.time) && u.repeat == old(u.repeat)
    {
      if t.next == null && t.prev == null {
        return;
      }
      var n, p := t.next, t.prev;
      if n != null {
        n.prev := p;
      }
      if p != null {
        p.next := n;
      } else {
        timers := n;
      }
      t.next := null;
      t.prev := null;
    }
  }

  /** Arming a timer on an empty list, disarming it and arming it again
      links it to itself: the disarm sees both links null and does
      nothing, and the second arm's asserts pass. `run_timers` would then
      fire it forever. */
  method RearmLinksToItself() returns (w: WrittenTimers, t: Timer)
    ensures w.timers == t && t.next == t
  {
    w := new WrittenTimers();
    t := new Timer();
    w.Arm(t, 5000, true);
    w.Disarm(t);
    w.Arm(t, 5000, true);
  }

  /** With three timers armed (`c`, then `b`, then `a` at the head),
      disarming the middle one makes the last one the head: `a` is no
      longer reachable from `timers` although it was never disarmed. */
  method DisarmDropsEarlierTimers() returns (w: WrittenTimers, a: Timer, b: Timer, c: Timer)
    ensures w.timers == c && c.next == null && a.next == b
  {
    w := new WrittenTimers();
    a := new Timer();
    b := new Timer();
    c := new Timer();
    w.Arm(c, 1000, false);
    w.Arm(b, 1000, false);
    w.Arm(a, 1000, false);
    w.Disarm(b);
  }

  /** With two timers armed, disarming the one armed first does nothing:
      it is still linked after the head and fires again at the next
      `run_timers`. */
  method DisarmKeepsLastTimer() returns (w: WrittenTimers, a: Timer, b: Timer)
    ensures w.timers == b && b.next == a
  {
    w := new WrittenTimers();
    a := new Timer();
    b := new Timer();
    w.Arm(a, 1000, false);
    w.Arm(b, 1000, false);
    w.Disarm(a);
  }

  // ---------------------------------------------------------------------
  // ---------------------------------------------------------------------
  // The list as intended.

  /** `s` without `t`. */
  function Without(s: seq<Timer>, t: Timer): (r: seq<Timer>)
    ensures |r| <= |s| && t !in r
  {
    if s == [] then []
    else (if s[0] == t then [] else [s[0]]) + Without(s[1..], t)
  }

  /** Timers that appear once each. */
  predicate Distinct(s: seq<Timer>)
  {
    forall i, j :: 0 <= i < j < |s| ==> s[i] != s[j]
  }

  lemma DistinctAt(s: seq<Timer>, a: nat, b: nat)
    requires Distinct(s) && a < |s| && b < |s| && a != b
    ensures s[a] != s[b]
  {
    if a > b {
      DistinctAt(s, b, a);
    }
  }

  /** The first timer of a distinct list is not in the rest, which is
      distinct too. */
  lemma DistinctTail(s: seq<Timer>)
    requires Distinct(s) && s != []
    ensures s[0] !in s[1..] && Distinct(s[1..])
  {
    forall j | 0 <= j < |s| - 1
      ensures s[1..][j] != s[0]
    {
      DistinctAt(s, 0, j + 1);
    }
  }

  /** Taking a timer out of a list in which it appears once leaves the
      timers before it and the timers after it, in order. */
  lemma {:induction false} WithoutAt(s: seq<Timer>, k: nat)
    requires Distinct(s) && k < |s|
    ensures Without(s, s[k]) == s[..k] + s[k + 1..]
  {
    DistinctTail(s);
    if k == 0 {
      WithoutAbsent(s[1..], s[0]);
    } else {
      DistinctAt(s, 0, k);
      assert s[1..][k - 1] == s[k];
      WithoutAt(s[1..], k - 1);
      assert s[1..][..k - 1] == s[1..k];
      assert s[1..][k..] == s[k + 1..];
      assert s[..k] == [s[0]] + s[1..k];
    }
  }

  /** Taking out a timer that is not there changes nothing. */
  lemma {:induction false} WithoutAbsent(s: seq<Timer>, t: Timer)
    requires t !in s
    ensures Without(s, t) == s
  {
    if s != [] {
      WithoutAbsent(s[1..], t);
      assert s == [s[0]] + s[1..];
    }
  }

  lemma Snoc<T>(s: seq<T>, i: nat)
    requires i < |s|
    ensures s[..i + 1] == s[..i] + [s[i]]
  {
  }

  /** The list `r` followed by `s[i..]`, around its element `s[i]`. */
  lemma Split<T>(r: seq<T>, s: seq<T>, i: nat)
    requires i < |s|
    ensures (r + s[i..])[|r|] == s[i]
    ensures (r + s[i..])[..|r|] == r && (r + s[i..])[|r| + 1..] == s[i + 1..]
    ensures r + s[i..] == (r + [s[i]]) + s[i + 1..]
  {
  }

  /** The `repeat` flags of the timers of `s`, as they are now. */
  function Flags(s: seq<Timer>): (r: seq<bool>)
    reads s
    ensures |r| == |s| && forall j :: 0 <= j < |s| ==> r[j] == s[j].repeat
  {
    if s == [] then [] else [s[0].repeat] + Flags(s[1..])
  }

  /** The timers of `s` whose flag in `flags` is set, in order. */
  function Kept(s: seq<Timer>, flags: seq<bool>): (r: seq<Timer>)
    requires |flags| == |s|
    ensures |r| <= |s|
  {
    if s == [] then []
    else Kept(s[..|s| - 1], flags[..|s| - 1]) + (if flags[|s| - 1] then [s[|s| - 1]] else [])
  }

  /** `Kept` one timer further on. */
  lemma KeptSnoc(s: seq<Timer>, flags: seq<bool>, i: nat)
    requires |flags| == |s| && i < |s|
    ensures Kept(s[..i + 1], flags[..i + 1]) == Kept(s[..i], flags[..i]) + (if flags[i] then [s[i]] else [])
  {
    assert s[..i + 1][..i] == s[..i] && flags[..i + 1][..i] == flags[..i];
  }

  /** The timers kept are drawn from `s`, every timer of `s` whose flag
      is set is kept, and, when the timers are distinct, only those. */
  lemma {:induction false} KeptIn(s: seq<Timer>, flags: seq<bool>)
    requires |flags| == |s|
    ensures forall i :: 0 <= i < |Kept(s, flags)| ==> Kept(s, flags)[i] in s
    ensures forall j :: 0 <= j < |s| && flags[j] ==> s[j] in Kept(s, flags)
    ensures Distinct(s) ==> forall j :: 0 <= j < |s| && s[j] in Kept(s, flags) ==> flags[j]
  {
    if s != [] {
      var f, g := s[..|s| - 1], flags[..|s| - 1];
      KeptIn(f, g);
      var kf := Kept(f, g);
      var r := Kept(s, flags);
      assert r == kf + (if flags[|s| - 1] then [s[|s| - 1]] else []);
      forall i | 0 <= i < |r|
        ensures r[i] in s
      {
        if i < |kf| {
          assert r[i] == kf[i];
          var j :| 0 <= j < |f| && f[j] == r[i];
          assert s[j] == f[j];
        }
      }
      forall j | 0 <= j < |s| && flags[j]
        ensures s[j] in r
      {
        if j < |f| {
          assert s[j] == f[j] && g[j];
          var i :| 0 <= i < |kf| && kf[i] == s[j];
          assert r[i] == kf[i];
        } else {
          assert r[|r| - 1] == s[j];
        }
      }
      if Distinct(s) {
        assert Distinct(f) by {
          forall a, b | 0 <= a < b < |f| ensures f[a] != f[b] {
            DistinctAt(s, a, b);
          }
        }
        forall j | 0 <= j < |s| && s[j] in r
          ensures flags[j]
        {
          var i :| 0 <= i < |r| && r[i] == s[j];
          if i < |kf| {
            assert r[i] == kf[i];
            var m :| 0 <= m < |f| && f[m] == kf[i];
            assert s[m] == f[m];
            assert m == j;
          }
        }
      }
    }
  }

  /** What the `next` of the timer at position `j` of a list should be. */
  function NextOf(s: seq<Timer>, j: nat): Timer?
  {
    if j + 1 < |s| then s[j + 1] else null
  }

  /** What the `prev` of the timer at position `j` of a list should be. */
  function PrevOf(s: seq<Timer>, j: nat): Timer?
    requires j < |s|
  {
    if j == 0 then null else s[j - 1]
  }

  /** Dropping the timer `t` at position `k` of a list, every remaining
      timer's `next` is the one now after it, given that the timer before
      `t` points past it and the others kept their links. */
  lemma NextsKept(o: seq<Timer>, k: nat, t: Timer, p: Timer?, m: seq<Timer>)
    requires Distinct(o) && k < |o| && o[k] == t
    requires p == PrevOf(o, k)
    requires p != null ==> p.next == NextOf(o, k)
    requires forall j {:trigger o[j].next} :: 0 <= j < |o| && o[j] != t && o[j] != p ==> o[j].next == NextOf(o, j)
    requires m == o[..k] + o[k + 1..]
    ensures forall i {:trigger m[i].next} :: 0 <= i < |m| ==> m[i].next == NextOf(m, i)
  {
    forall i | 0 <= i < |m|
      ensures m[i].next == NextOf(m, i)
    {
      var j := if i < k then i else i + 1;
      assert m[i] == o[j];
      if i + 1 < |m| {
        assert m[i + 1] == o[if i + 1 < k then i + 1 else i + 2];
      }
      if i + 1 != k {
        DistinctAt(o, j, k);
        if k > 0 {
          DistinctAt(o, j, k - 1);
        }
      }
    }
  }

  /** The same for `prev`, given that the timer after `t` points back past
      it. */
  lemma PrevsKept(o: seq<Timer>, k: nat, t: Timer, n: Timer?, m: seq<Timer>)
    requires Distinct(o) && k < |o| && o[k] == t
    requires n == NextOf(o, k)
    requires n != null ==> n.prev == PrevOf(o, k)
    requires forall j {:trigger o[j].prev} :: 0 <= j < |o| && o[j] != t && o[j] != n ==> o[j].prev == PrevOf(o, j)
    requires m == o[..k] + o[k + 1..]
    ensures forall i {:trigger m[i].prev} :: 0 <= i < |m| ==> m[i].prev == PrevOf(m, i)
  {
    forall i | 0 <= i < |m|
      ensures m[i].prev == PrevOf(m, i)
    {
      var j := if i < k then i else i + 1;
      assert m[i] == o[j];
      if i > 0 {
        assert m[i - 1] == o[if i - 1 < k then i - 1 else i];
      }
      if i != k {
        DistinctAt(o, j, k);
        if k + 1 < |o| {
          DistinctAt(o, j, k + 1);
        }
      }
    }
  }

  /** Dropping one timer keeps the others distinct. */
  lemma DistinctDrop(o: seq<Timer>, k: nat, m: seq<Timer>)
    requires Distinct(o) && k < |o| && m == o[..k] + o[k + 1..]
    ensures Distinct(m)
  {
    forall a, b | 0 <= a < b < |m|
      ensures m[a] != m[b]
    {
      DistinctAt(o, if a < k then a else a + 1, if b < k then b else b + 1);
    }
  }

  /** The timers kept among the first `i` are drawn from `all`. */
  lemma KeptFrom(all: seq<Timer>, flags: seq<bool>, i: nat)
    requires i <= |all| == |flags|
    ensures forall x :: x in Kept(all[..i], flags[..i]) ==> x in all
  {
    KeptIn(all[..i], flags[..i]);
    forall x | x in Kept(all[..i], flags[..i])
      ensures x in all
    {
      assert x in all[..i];
    }
  }

  /** The list `r + all[i..]` around the timer `all[i]` that `run_timers`
      fires next, and the timers kept once it has fired. */
  lemma FiredShape(all: seq<Timer>, flags: seq<bool>, i: nat, r: seq<Timer>, o: seq<Timer>)
    requires i < |all| == |flags| && o == r + all[i..] && r == Kept(all[..i], flags[..i])
    requires forall x :: x in r ==> x in all
    ensures o[|r|] == all[i] && o[..|r|] + o[|r| + 1..] == r + all[i + 1..]
    ensures o == (r + [all[i]]) + all[i + 1..]
    ensures Kept(all[..i + 1], flags[..i + 1]) == if flags[i] then r + [all[i]] else r
    ensures forall x :: x in r + [all[i]] ==> x in all
  {
    Split(r, all, i);
    KeptSnoc(all, flags, i);
  }

  /** The global `timers` kept as a doubly-linked list: `nodes` is the
      armed timers from the head on. */
  class TimerList {
    var timers: Timer?
    ghost var nodes: seq<Timer>

    /** Each armed timer once; `timers` is the first; each timer's `next`
        is the one after it and its `prev` the one before it, null at the
        ends. */
    ghost predicate Valid()
      reads this, nodes
    {
      && Distinct(nodes)
      && timers == (if nodes == [] then null else nodes[0])
      && (forall i {:trigger nodes[i].next} :: 0 <= i < |nodes| ==> nodes[i].next == NextOf(nodes, i))
      && (forall i {:trigger nodes[i].prev} :: 0 <= i < |nodes| ==> nodes[i].prev == PrevOf(nodes, i))
    }

    constructor()
      ensures Valid() && nodes == []
    {
      timers := null;
      nodes := [];
    }

    /** `os_timer_arm`, with the old head's `prev` set: an unarmed timer
        goes to the head of the list. */
    method Arm(t: Timer, time: u32, repeat: bool)
      requires Valid() && t !in nodes && t.next == null && t.prev == null
      modifies this, t, timers
      ensures Valid() && nodes == [t] + old(nodes)
      ensures t.time == time && t.repeat == repeat
      ensures forall u: Timer :: old(allocated(u)) && u != t ==> u.time == old(u.time) && u.repeat == old(u.repeat)
    {
      ghost var o := nodes;
      ghost var h := timers;
      t.time := time;
      t.repeat := repeat;
      t.next := timers;
      if timers != null {
        timers.prev := t;
      }
      timers := t;
      nodes := [t] + o;
      forall j | 0 <= j < |o|
        ensures o[j].next == NextOf(o, j)
        ensures o[j] != h ==> o[j].prev == PrevOf(o, j)
      {
        assert o[j] in o;
      }
      Pushed(o, t, h);
    }

    /** The links after pushing `t` in front of `o`. */
    lemma Pushed(o: seq<Timer>, t: Timer, h: Timer?)
      requires Distinct(o) && t !in o && h == (if o == [] then null else o[0])
      requires forall j {:trigger o[j].next} :: 0 <= j < |o| ==> o[j].next == NextOf(o, j)
      requires forall j {:trigger o[j].prev} :: 0 <= j < |o| && o[j] != h ==> o[j].prev == PrevOf(o, j)
      requires h != null ==> h.prev == t
      requires t.next == h && t.prev == null
      requires nodes == [t] + o && timers == t
      ensures Valid()
    {
      forall i | 0 <= i < |nodes|
        ensures nodes[i].next == NextOf(nodes, i)
        ensures nodes[i].prev == PrevOf(nodes, i)
      {
        if i > 0 {
          assert nodes[i] == o[i - 1];
          if i > 1 {
            DistinctAt(o, i - 1, 0);
          }
        }
      }
      forall a, b | 0 <= a < b < |nodes|
        ensures nodes[a] != nodes[b]
      {
        if a > 0 {
          DistinctAt(o, a - 1, b - 1);
        } else {
          assert nodes[b] == o[b - 1];
        }
      }
    }

    /** An armed timer is the head or has a `prev`. */
    lemma ArmedLinked(t: Timer)
      requires Valid() && t in nodes
      ensures t == timers || t.prev != null
    {
      var k :| 0 <= k < |nodes| && nodes[k] == t;
      if k > 0 {
        assert nodes[k].prev == nodes[k - 1];
      }
    }

    /** `os_timer_disarm`, taking a timer for unarmed only when it is not
        the head either: an armed timer is unlinked and its neighbours
        joined, and an unarmed one is left alone. */
    method Disarm(t: Timer)
      requires Valid() && (t !in nodes ==> t.next == null && t.prev == null)
      modifies this, t, t.next, t.prev
      ensures Valid() && nodes == Without(old(nodes), t)
      ensures t.next == null && t.prev == null
      ensures forall u: Timer :: old(allocated(u)) ==> u.time == old(u.time) && u.repeat == old(u.repeat)
    {
      if t.next == null && t.prev == null && timers != t {
        if t in nodes {
          ArmedLinked(t);
        }
        WithoutAbsent(nodes, t);
        return;
      }
      ghost var k :| 0 <= k < |nodes| && nodes[k] == t;
      WithoutAt(nodes, k);
      Unlink(t, k);
    }

    /** The links of the timer at position `k`. */
    lemma Links(k: nat)
      requires Valid() && k < |nodes|
      ensures nodes[k].next == NextOf(nodes, k)
      ensures nodes[k].prev == PrevOf(nodes, k)
    {
    }

    /** Unlinking the armed timer at position `k`. */
    method Unlink(t: Timer, ghost k: nat)
      requires Valid() && k < |nodes| && nodes[k] == t
      modifies this, t, t.next, t.prev
      ensures Valid() && nodes == old(nodes)[..k] + old(nodes)[k + 1..]
      ensures t.next == null && t.prev == null
      ensures forall u: Timer :: old(allocated(u)) ==> u.time == old(u.time) && u.repeat == old(u.repeat)
    {
      ghost var o := nodes;
      Links(k);
      var n, p := t.next, t.prev;
      if k + 1 < |o| {
        DistinctAt(o, k, k + 1);
      }
      if k > 0 {
        DistinctAt(o, k, k - 1);
      }
      if n != null {
        n.prev := p;
      }
      if p != null {
        p.next := n;
      } else {
        timers := n;
      }
      t.next := null;
      t.prev := null;
      nodes := o[..k] + o[k + 1..];
      forall j | 0 <= j < |o|
        ensures o[j] != t && o[j] != p ==> o[j].next == NextOf(o, j)
        ensures o[j] != t && o[j] != n ==> o[j].prev == PrevOf(o, j)
      {
      }
      Relinked(o, k, t, n, p);
    }

    /** The links after unlinking the timer `t` at position `k` of `o`:
        its neighbours now point at each other and every other timer keeps
        its links. */
    lemma Relinked(o: seq<Timer>, k: nat, t: Timer, n: Timer?, p: Timer?)
      requires Distinct(o) && k < |o| && o[k] == t
      requires n == NextOf(o, k) && p == PrevOf(o, k)
      requires n != null ==> n.prev == p
      requires p != null ==> p.next == n
      requires forall j {:trigger o[j].next} :: 0 <= j < |o| && o[j] != t && o[j] != p ==> o[j].next == NextOf(o, j)
      requires forall j {:trigger o[j].prev} :: 0 <= j < |o| && o[j] != t && o[j] != n ==> o[j].prev == PrevOf(o, j)
      requires nodes == o[..k] + o[k + 1..]
      requires timers == if p == null then n else o[0]
      ensures Valid()
    {
      NextsKept(o, k, t, p, nodes);
      PrevsKept(o, k, t, n, nodes);
      DistinctDrop(o, k, nodes);
      if p == null && n != null {
        assert nodes[0] == n;
      }
    }

    /** The neighbours of the timer at position `i` of `all`, when the
        list is `r` followed by `all[i..]` and `r` is drawn from `all`. */
    lemma Around(timer: Timer, all: seq<Timer>, i: nat, r: seq<Timer>)
      requires Valid() && i < |all| && timer == all[i] && nodes == r + all[i..]
      requires forall x :: x in r ==> x in all
      ensures timer.next == NextOf(all, i)
      ensures timer.prev == null || timer.prev in all
    {
      assert nodes[|r|] == timer;
      Links(|r|);
      if |r| + 1 < |nodes| {
        assert nodes[|r| + 1] == all[i + 1];
      }
      if |r| > 0 {
        assert nodes[|r| - 1] == r[|r| - 1];
      }
    }

    /** One round of `run_timers`' loop on the timer at position `i` of
        the list `all` it started from, the timers before it that are still
        armed being `r`: its successor is read, and it is disarmed unless it
        repeats. */
    method Fire(timer: Timer, ghost all: seq<Timer>, ghost flags: seq<bool>, ghost i: nat) returns (next: Timer?)
      requires Valid() && i < |all| == |flags| && timer == all[i]
      requires nodes == Kept(all[..i], flags[..i]) + all[i..] && Flags(all) == flags
      modifies this, all
      ensures Valid()
      ensures next == if i + 1 < |all| then all[i + 1] else null
      ensures nodes == Kept(all[..i + 1], flags[..i + 1]) + all[i + 1..] && Flags(all) == flags
    {
      ghost var r := Kept(all[..i], flags[..i]);
      KeptFrom(all, flags, i);
      Around(timer, all, i, r);
      ghost var o := nodes;
      FiredShape(all, flags, i, r, o);
      next := timer.next;
      if !timer.repeat {
        DisarmFired(timer, o, |r|, all);
      }
    }

    /** `os_timer_disarm` on the timer at position `k` of the list `o`,
        all of whose timers are in `all`. */
    method DisarmFired(t: Timer, ghost o: seq<Timer>, ghost k: nat, ghost all: seq<Timer>)
      requires Valid() && nodes == o && k < |o| && o[k] == t && t in all
      requires t.next == null || t.next in all
      requires t.prev == null || t.prev in all
      modifies this, all
      ensures Valid() && nodes == o[..k] + o[k + 1..]
      ensures Flags(all) == old(Flags(all))
    {
      WithoutAt(o, k);
      Disarm(t);
      assert Flags(all) == old(Flags(all));
    }

    /** `run_timers`: each armed timer fires once, in list order, and
        afterwards exactly the ones that repeat are still armed, in the same
        order. */
    method RunTimers() returns (fired: seq<Timer>)
      requires Valid()
      modifies this, nodes
      ensures Valid() && fired == old(nodes)
      ensures nodes == Kept(old(nodes), old(Flags(nodes)))
    {
      ghost var all := nodes;
      ghost var flags := Flags(all);
      fired := [];
      var timer := timers;
      ghost var i := 0;
      while timer != null
        invariant Valid() && i <= |all| == |flags|
        invariant fired == all[..i]
        invariant timer == if i < |all| then all[i] else null
        invariant nodes == Kept(all[..i], flags[..i]) + all[i..] && Flags(all) == flags
        decreases |all| - i
      {
        assert fired + [timer] == all[..i + 1] by {
          Snoc(all, i);
        }
        fired := fired + [timer];
        timer := Fire(timer, all, flags, i);
        i := i + 1;
      }
      assert all[..i] == all && flags[..i] == flags;
    }
  }
}
