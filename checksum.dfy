/** The checksum primitive shared by the record store, the static file store,
    the image builder and the test mock: an accumulator that starts at 0 and
    subtracts every 32-bit word of the range, wrapping at 2^32. */
module Checksums {
  import opened Words

  /** The plain sum of the words, as an unbounded integer. */
  function Sum(ws: seq<u32>): int
  {
    if ws == [] then 0 else Sum(ws[..|ws| - 1]) + ws[|ws| - 1]
  }

  /** What `calc_checksum` promises: 0 minus the sum of the words, modulo 2^32. */
  function Checksum(ws: seq<u32>): u32
  {
    (0 - Sum(ws)) % U32
  }

  lemma ModSub(x: int, y: int)
    ensures ((x % U32) - y) % U32 == (x - y) % U32
  {
  }

  lemma ModAdd(x: int, y: int)
    ensures ((x % U32) + (y % U32)) % U32 == (x + y) % U32
  {
  }

  /** One more word subtracted from the accumulator. */
  lemma ChecksumStep(ws: seq<u32>, k: nat)
    requires k < |ws|
    ensures Checksum(ws[..k + 1]) == (Checksum(ws[..k]) - ws[k]) % U32
  {
    assert ws[..k + 1][..k] == ws[..k];
    ModSub(0 - Sum(ws[..k]), ws[k]);
  }

  lemma {:induction false} SumAppend(a: seq<u32>, b: seq<u32>)
    ensures Sum(a + b) == Sum(a) + Sum(b)
  {
    if b == [] {
      assert a + b == a;
    } else {
      var p := b[..|b| - 1];
      assert (a + b)[..|a + b| - 1] == a + p;
      SumAppend(a, p);
    }
  }

  /** The checksum of a concatenation combines the checksums of the parts. */
  lemma ChecksumAppend(a: seq<u32>, b: seq<u32>)
    ensures Checksum(a + b) == (Checksum(a) + Checksum(b)) % U32
  {
    SumAppend(a, b);
  }

  lemma {:induction false} SumUpdate(ws: seq<u32>, k: nat, v: u32)
    requires k < |ws|
    ensures Sum(ws[k := v]) == Sum(ws) - ws[k] + v
  {
    var n := |ws| - 1;
    if k == n {
      assert ws[k := v][..n] == ws[..n];
    } else {
      assert ws[k := v][..n] == ws[..n][k := v];
      SumUpdate(ws[..n], k, v);
    }
  }

  /** Changing any single word changes the checksum, so a flipped bit in a
      checksummed range is always detected. */
  lemma ChangedWordDetected(ws: seq<u32>, k: nat, v: u32)
    requires k < |ws| && v != ws[k]
    ensures Checksum(ws[k := v]) != Checksum(ws)
  {
    SumUpdate(ws, k, v);
  }

  /** The checksum over the little-endian words of a byte string, word by
      word from the front; a trailing partial word is ignored. */
  function ByteChecksum(b: seq<byte>): u32
  {
    if |b| < 4 then 0 else (ByteChecksum(b[4..]) - LeWord(b[0], b[1], b[2], b[3])) % U32
  }

  /** The first word of a byte string and the words after it. */
  lemma WholeWordsFront(b: seq<byte>)
    requires |b| >= 4
    ensures WholeWords(b) == [LeWord(b[0], b[1], b[2], b[3])] + WholeWords(b[4..])
  {
    var l, r := WholeWords(b), [LeWord(b[0], b[1], b[2], b[3])] + WholeWords(b[4..]);
    DivUnique(|b|, 4, 1 + (|b| - 4) / 4, (|b| - 4) % 4);
    assert |l| == |r|;
    forall j | 0 <= j < |l| ensures l[j] == r[j] {
      if j > 0 {
        assert b[4..][4 * (j - 1)] == b[4 * j];
      }
    }
  }

  lemma SumOne(w: u32)
    ensures Sum([w]) == w
  {
    assert [w][..0] == [];
  }

  /** One word in front of a range is one more subtraction. */
  lemma ChecksumCons(w: u32, rest: seq<u32>)
    ensures Checksum([w] + rest) == (Checksum(rest) - w) % U32
  {
    var x := 0 - Sum(rest);
    assert Checksum([w] + rest) == (Checksum([w]) + Checksum(rest)) % U32 by {
      ChecksumAppend([w], rest);
    }
    assert Checksum([w]) == (0 - w) % U32 by {
      SumOne(w);
    }
    assert (x % U32 - w) % U32 == (x - w) % U32 by {
      ModSub(x, w);
    }
    assert ((0 - w) % U32 + x % U32) % U32 == (0 - w + x) % U32 by {
      ModAdd(0 - w, x);
    }
  }

  /** The byte checksum is the firmware's word checksum of the whole words. */
  lemma {:induction false} ByteChecksumWords(b: seq<byte>)
    ensures ByteChecksum(b) == Checksum(WholeWords(b))
  {
    if |b| < 4 {
      assert WholeWords(b) == [];
    } else {
      var w, rest := LeWord(b[0], b[1], b[2], b[3]), WholeWords(b[4..]);
      assert ByteChecksum(b) == (Checksum(rest) - w) % U32 by {
        ByteChecksumWords(b[4..]);
      }
      assert Checksum(WholeWords(b)) == Checksum([w] + rest) by {
        WholeWordsFront(b);
      }
      ChecksumCons(w, rest);
    }
  }

  /** `calc_checksum(begin, end)` over the words of a range. */
  method CalcChecksum(ws: seq<u32>) returns (checksum: u32)
    ensures checksum == (0 - Sum(ws)) % U32
  {
    checksum := 0;
    var i := 0;
    while i < |ws|
      invariant 0 <= i <= |ws|
      invariant checksum == Checksum(ws[..i])
    {
      ChecksumStep(ws, i);
      checksum := (checksum - ws[i]) % U32;
      i := i + 1;
    }
    assert ws[..|ws|] == ws;
  }

  /** `Checksum(data)` of the image builder: the byte length must be a
      multiple of 4, and each little-endian word is subtracted modulo 2^32.
      It agrees with the firmware's word checksum over the same bytes. */
  method ChecksumBytes(data: seq<byte>) returns (checksum: u32)
    requires |data| % 4 == 0
    ensures checksum == Checksum(WholeWords(data)) && checksum == ByteChecksum(data)
  {
    checksum := 0;
    var i := 0;
    while i < |data|
      invariant 0 <= i <= |data| && i % 4 == 0
      invariant checksum == Checksum(WholeWords(data)[..i / 4])
    {
      var w := LeWord(data[i], data[i + 1], data[i + 2], data[i + 3]);
      ChecksumStep(WholeWords(data), i / 4);
      checksum := (checksum - w) % U32;
      i := i + 4;
    }
    assert WholeWords(data)[..|data| / 4] == WholeWords(data);
    ByteChecksumWords(data);
  }

  /** The test mock's `calc_checksum(buf, size)`: whole words only, a
      trailing partial word is ignored. */
  method CalcChecksumMock(buf: seq<byte>, size: nat) returns (checksum: u32)
    requires size <= |buf|
    ensures checksum == Checksum(WholeWords(buf[..size - size % 4]))
  {
    ghost var n, r := size / 4, size % 4;
    ghost var ws := WholeWords(buf[..size - r]);
    assert size == 4 * n + r && |ws| == n by {
      DivUnique(size - r, 4, n, 0);
    }
    checksum := 0;
    var left := size;
    var p := 0;
    ghost var i := 0;
    while left > 3
      invariant p == 4 * i && p + left == size && i <= n
      invariant checksum == Checksum(ws[..i])
    {
      var w := LeWord(buf[p], buf[p + 1], buf[p + 2], buf[p + 3]);
      assert w == ws[i];
      ChecksumStep(ws, i);
      checksum := (checksum - w) % U32;
      p := p + 4;
      left := left - 4;
      i := i + 1;
    }
    assert ws[..i] == ws;
  }
}
