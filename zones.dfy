/** The sprinkler front end: the bounded string append used to build JSON
    replies, the one-zone-at-a-time valve state machine and the validation
    of a manual on/off request. */
module Zones {
  import opened Wrappers

  // ---------------------------------------------------------------------
  // safe_concat.

  /** The buffer after `safe_concat(buf, buf_size, pos, in)`: the text goes
      at `pos` only when its end stays strictly below `buf_size`. */
  function Concat(b: seq<char>, bufSize: int, pos: nat, input: seq<char>): (r: seq<char>)
    requires bufSize <= |b|
    ensures |r| == |b|
    ensures forall k :: 0 <= k < |b| && (k < pos || bufSize <= k) ==> r[k] == b[k]
    ensures pos + |input| < bufSize ==> r[pos .. pos + |input|] == input
    ensures pos + |input| >= bufSize ==> r == b
  {
    if pos + |input| < bufSize then b[..pos] + input + b[pos + |input|..] else b
  }

  /** `safe_concat`: copies `input` (the characters before its NUL) to
      `buf[pos..]` if the new position is below `bufSize`, and returns the
      new position `pos + |input|` either way. */
  method SafeConcat(buf: array<char>, bufSize: int, pos: nat, input: seq<char>) returns (newPos: nat)
    requires bufSize <= buf.Length
    modifies buf
    ensures newPos == pos + |input|
    ensures buf[..] == Concat(old(buf[..]), bufSize, pos, input)
  {
    newPos := pos + |input|;
    if newPos < bufSize {
      ghost var b0 := buf[..];
      for k := 0 to |input|
        invariant buf[..] == b0[..pos] + input[..k] + b0[pos + k..]
      {
        CopyStep(b0, pos, input, k);
        buf[pos + k] := input[k];
      }
      assert input[..|input|] == input;
    }
  }

  /** Copying one more character of `input` into place. */
  lemma CopyStep(b: seq<char>, pos: nat, input: seq<char>, k: nat)
    requires pos + |input| <= |b| && k < |input|
    ensures (b[..pos] + input[..k] + b[pos + k..])[pos + k := input[k]] == b[..pos] + input[..k + 1] + b[pos + k + 1..]
  {
    var l, r := (b[..pos] + input[..k] + b[pos + k..])[pos + k := input[k]], b[..pos] + input[..k + 1] + b[pos + k + 1..];
    assert |l| == |r|;
    forall j | 0 <= j < |l|
      ensures l[j] == r[j]
    {
      if j < pos {
      } else if j < pos + k {
        assert l[j] == input[..k][j - pos] && r[j] == input[..k + 1][j - pos];
      } else if j > pos + k {
        assert l[j] == b[pos + k..][j - pos - k] && r[j] == b[pos + k + 1..][j - pos - k - 1];
      }
    }
  }

  /** The strings of a sequence of appends, end to end. */
  function Joined(ins: seq<seq<char>>): seq<char>
  {
    if ins == [] then [] else ins[0] + Joined(ins[1..])
  }

  /** The buffer and position after appending each string of `ins` in turn
      with `safe_concat`, as `sysinfo`'s `print_json` does. */
  function Appends(b: seq<char>, bufSize: int, pos: nat, ins: seq<seq<char>>): (r: (seq<char>, nat))
    requires bufSize <= |b|
    ensures |r.0| == |b|
    decreases |ins|
  {
    if ins == [] then (b, pos)
    else Appends(Concat(b, bufSize, pos, ins[0]), bufSize, pos + |ins[0]|, ins[1..])
  }

  /** A run of appends ends at the start position plus the length of all the
      text; nothing outside `[pos, bufSize)` is touched; and when the final
      position is below the buffer size, the whole text is in the buffer. */
  lemma {:induction false} AppendsText(b: seq<char>, bufSize: int, pos: nat, ins: seq<seq<char>>)
    requires bufSize <= |b|
    ensures Appends(b, bufSize, pos, ins).1 == pos + |Joined(ins)|
    ensures forall k :: 0 <= k < |b| && (k < pos || bufSize <= k) ==> Appends(b, bufSize, pos, ins).0[k] == b[k]
    ensures pos + |Joined(ins)| < bufSize ==> Appends(b, bufSize, pos, ins).0[pos .. pos + |Joined(ins)|] == Joined(ins)
    decreases |ins|
  {
    if ins != [] {
      var x, rest := ins[0], ins[1..];
      var b1, p1 := Concat(b, bufSize, pos, x), pos + |x|;
      AppendsText(b1, bufSize, p1, rest);
      var r := Appends(b1, bufSize, p1, rest).0;
      var end := p1 + |Joined(rest)|;
      if end < bufSize {
        assert r[pos .. p1] == x by {
          forall k | pos <= k < p1 ensures r[k] == x[k - pos] {
            assert r[k] == b1[k];
          }
        }
        assert r[pos .. end] == r[pos .. p1] + r[p1 .. end];
      }
    }
  }

  // ---------------------------------------------------------------------
  // Zones.

  const NumZones: nat := 6

  /** `zone_status`. */
  datatype ZoneStatus = Off | Disabled | On

  /** The zones after the first loop of `zone_on_off`: every `On` zone but
      the one being switched on goes `Off`. */
  function Cleared(z: seq<ZoneStatus>, zone: int, on: int): (r: seq<ZoneStatus>)
    ensures |r| == |z|
  {
    seq(|z|, i requires 0 <= i < |z| => if z[i] == On && (i != zone || on == 0) then Off else z[i])
  }

  /** The zones after `zone_on_off(zone, on)`. Disabled zones stay disabled
      and are never switched on; `zone` is on afterwards exactly when `on`
      is set and it is not disabled; every other zone is off. So at most one
      zone is on. */
  function NextZones(z: seq<ZoneStatus>, zone: int, on: int): (r: seq<ZoneStatus>)
    requires on != 0 ==> 0 <= zone < |z|
    ensures |r| == |z|
    ensures forall i :: 0 <= i < |z| ==>
      r[i] == (if z[i] == Disabled then Disabled else if on != 0 && i == zone then On else Off)
    ensures forall i, j :: 0 <= i < |z| && 0 <= j < |z| && r[i] == On && r[j] == On ==> i == j
  {
    var c := Cleared(z, zone, on);
    if on != 0 && c[zone] == Off then c[zone := On] else c
  }

  /** `zone_on_off`, on the global `zones` array. */
  method ZoneOnOff(zones: array<ZoneStatus>, zone: int, on: int)
    requires zones.Length == NumZones
    requires on != 0 ==> 0 <= zone < NumZones
    modifies zones
    ensures zones[..] == NextZones(old(zones[..]), zone, on)
  {
    ghost var z := zones[..];
    for i := 0 to NumZones
      invariant forall k :: 0 <= k < i ==> zones[k] == Cleared(z, zone, on)[k]
      invariant forall k :: i <= k < NumZones ==> zones[k] == z[k]
    {
      if zones[i] == On && (i != zone || on == 0) {
        zones[i] := Off;
      }
    }
    assert zones[..] == Cleared(z, zone, on);
    if on != 0 && zones[zone] == Off {
      zones[zone] := On;
    }
  }

  // ---------------------------------------------------------------------
  // manual.

  /** The HTTP status a request handler returns. */
  datatype HttpStatus = Ok | BadRequest

  /** A validated manual request: a zone index and the wanted state. */
  datatype Command = Command(zone: nat, on: nat)

  const ZoneKey: seq<char> := "{\"zone\":"
  const StateKey: seq<char> := ",\"state\":"

  /** The 20-byte body `{"zone":Z,"state":S}` for zone `zone` (0-based)
      and state `on`; the last byte is free. */
  function Payload(zone: nat, on: nat, last: char): (p: seq<char>)
    requires zone < NumZones && on <= 1
    ensures |p| == 20
  {
    ZoneKey + [('1' as int + zone) as char] + StateKey + [('0' as int + on) as char, last]
  }

  /** The checks of `manual` on the payload, in order: length 20, the
      `{"zone":` and `,"state":` keys, a zone digit `1`..`6` and a state
      digit `0`/`1`. Byte 19 is never looked at. */
  function ParseManual(p: seq<char>): (r: Option<Command>)
    ensures r.Some? ==> r.value.zone < NumZones && r.value.on <= 1 && |p| == 20
    ensures r.Some? ==> p == Payload(r.value.zone, r.value.on, p[19])
  {
    if |p| != 20 then None
    else if p[..8] != ZoneKey then None
    else if p[9..18] != StateKey then None
    else if p[8] < '1' || p[8] > ('0' as int + NumZones) as char then None
    else if p[18] != '0' && p[18] != '1' then None
    else
      var c := Command(p[8] as int - '1' as int, p[18] as int - '0' as int);
      assert p == p[..8] + [p[8]] + p[9..18] + [p[18], p[19]];
      Some(c)
  }

  /** Every well-formed body is accepted, whatever its last byte, and yields
      the zone and state it was built from. */
  lemma ManualRoundTrip(zone: nat, on: nat, last: char)
    requires zone < NumZones && on <= 1
    ensures ParseManual(Payload(zone, on, last)) == Some(Command(zone, on))
  {
    var p := Payload(zone, on, last);
    assert p[..8] == ZoneKey;
    assert p[9..18] == StateKey;
  }

  /** `manual`: a malformed body or a disabled zone gives 400 and leaves the
      zones alone; otherwise the zone is switched with `zone_on_off` and the
      answer is 200. */
  method Manual(zones: array<ZoneStatus>, payload: seq<char>) returns (status: HttpStatus)
    requires zones.Length == NumZones
    modifies zones
    ensures status == Ok <==>
      ParseManual(payload).Some? && old(zones[ParseManual(payload).value.zone]) != Disabled
    ensures status == Ok ==>
      zones[..] == NextZones(old(zones[..]), ParseManual(payload).value.zone, ParseManual(payload).value.on)
    ensures status == BadRequest ==> zones[..] == old(zones[..])
  {
    var c := ParseManual(payload);
    if c.None? {
      return BadRequest;
    }
    if zones[c.value.zone] == Disabled {
      return BadRequest;
    }
    ZoneOnOff(zones, c.value.zone, c.value.on);
    status := Ok;
  }
}
