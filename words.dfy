/** Machine integers of the ESP8266 firmware: flash words are little-endian
    32-bit unsigned values, bytes are 8-bit unsigned values. Arithmetic that
    wraps in C (`uint32_t`, `uint16_t`) is written out with `%` at the point
    where the source wraps. */
module Words {

  const U16: int := 0x1_0000
  const U32: int := 0x1_0000_0000

  type byte = x: int | 0 <= x < 256
  type u16 = x: int | 0 <= x < U16
  type u32 = x: int | 0 <= x < U32

  /** `~0u`, the erased-flash pattern and the "never written" sentinel. */
  const Ones: u32 := 0xFFFF_FFFF

  /** The word whose little-endian bytes are b0, b1, b2, b3. */
  function LeWord(b0: byte, b1: byte, b2: byte, b3: byte): u32
  {
    b0 + 0x100 * b1 + 0x1_0000 * b2 + 0x100_0000 * b3
  }

  /** The four little-endian bytes of `w`, as `memcpy` lays a word out. */
  function WordBytes(w: u32): (b: seq<byte>)
    ensures |b| == 4
  {
    [w % 256, (w / 0x100) % 256, (w / 0x1_0000) % 256, w / 0x100_0000]
  }

  /** A word is the little-endian word of its bytes. */
  lemma LeWordOfWordBytes(w: u32)
    ensures var b := WordBytes(w); LeWord(b[0], b[1], b[2], b[3]) == w
  {
    DivUnique(w, 0x100, w / 0x100, w % 256);
    DivUnique(w / 0x100, 0x100, w / 0x1_0000, (w / 0x100) % 256);
    DivUnique(w / 0x1_0000, 0x100, w / 0x100_0000, (w / 0x1_0000) % 256);
  }

  /** The bytes of a little-endian word are the bytes it was formed from. */
  lemma WordBytesOfLeWord(b0: byte, b1: byte, b2: byte, b3: byte)
    ensures WordBytes(LeWord(b0, b1, b2, b3)) == [b0, b1, b2, b3]
  {
    var w := LeWord(b0, b1, b2, b3);
    DivUnique(w, 0x100, b1 + 0x100 * b2 + 0x1_0000 * b3, b0);
    DivUnique(b1 + 0x100 * b2 + 0x1_0000 * b3, 0x100, b2 + 0x100 * b3, b1);
    DivUnique(w, 0x1_0000, b2 + 0x100 * b3, b0 + 0x100 * b1);
    DivUnique(b2 + 0x100 * b3, 0x100, b3, b2);
  }

  /** The bytes of a run of words, in memory order. */
  function Bytes(ws: seq<u32>): (b: seq<byte>)
    ensures |b| == 4 * |ws|
  {
    if ws == [] then [] else Bytes(ws[..|ws| - 1]) + WordBytes(ws[|ws| - 1])
  }

  lemma {:induction false} BytesAt(ws: seq<u32>, j: nat, k: nat)
    requires j < |ws| && k < 4
    ensures Bytes(ws)[4 * j + k] == WordBytes(ws[j])[k]
  {
    if j < |ws| - 1 {
      BytesAt(ws[..|ws| - 1], j, k);
    }
  }

  lemma {:induction false} BytesAppend(a: seq<u32>, b: seq<u32>)
    ensures Bytes(a + b) == Bytes(a) + Bytes(b)
  {
    if b == [] {
      assert a + b == a;
    } else {
      assert (a + b)[..|a + b| - 1] == a + b[..|b| - 1];
      BytesAppend(a, b[..|b| - 1]);
    }
  }

  /** The second part of a concatenation, sliced out again. */
  lemma SliceLast<T>(x: seq<T>, y: seq<T>)
    ensures (x + y)[|x| .. |x| + |y|] == y
  {
  }

  /** A prefix of the first part of a concatenation. */
  lemma PrefixGrow<T>(x: seq<T>, y: seq<T>, n: nat)
    requires n <= |x|
    ensures (x + y)[..n] == x[..n]
  {
  }

  /** A slice inside a known prefix. */
  lemma SliceWithinPrefix<T>(s: seq<T>, p: seq<T>, n: nat, a: nat, b: nat)
    requires n <= |s| && s[..n] == p && a <= b <= n
    ensures s[a..b] == p[a..b]
  {
  }

  /** The same, with the shifted bounds named. */
  lemma SliceShiftAt<T>(x: seq<T>, y: seq<T>, i: nat, j: nat, lo: nat, hi: nat)
    requires i <= j <= |y| && lo == |x| + i && hi == |x| + j
    ensures hi <= |x + y| && (x + y)[lo .. hi] == y[i..j]
  {
  }

  lemma SliceOfFront<T>(x: seq<T>, y: seq<T>, a: nat, b: nat)
    requires a <= b <= |x|
    ensures (x + y)[a..b] == x[a..b]
  {
  }

  /** `s` holding `p` between `lo` and `hi` holds every slice of `p` at
      the shifted bounds. */
  lemma StoredRun(s: seq<u32>, lo: nat, hi: nat, p: seq<u32>, w: nat, e: nat, at: nat, end: nat)
    requires lo <= hi <= |s| && s[lo .. hi] == p
    requires w <= e <= |p| && at == lo + w && end == lo + e
    ensures at <= end <= |s| && s[at .. end] == p[w .. e]
  {
    forall j | 0 <= j < e - w
      ensures s[at .. end][j] == p[w .. e][j]
    {
      assert s[lo .. hi][w + j] == s[at + j];
    }
  }

  /** A slice of the second part of a concatenation. */
  lemma SliceShift<T>(x: seq<T>, y: seq<T>, i: nat, j: nat)
    requires i <= j <= |y|
    ensures (x + y)[|x| + i .. |x| + j] == y[i..j]
  {
  }

  /** Reading words back from their bytes gives the words. */
  lemma WholeWordsOfBytes(ws: seq<u32>)
    ensures WholeWords(Bytes(ws)) == ws
  {
    var b := Bytes(ws);
    forall j | 0 <= j < |ws| ensures WholeWords(b)[j] == ws[j] {
      LeWordOfWordBytes(ws[j]);
      BytesAt(ws, j, 0);
      BytesAt(ws, j, 1);
      BytesAt(ws, j, 2);
      BytesAt(ws, j, 3);
    }
  }

  /** Laying out the words of whole 4-byte groups gives the bytes back. */
  lemma {:induction false} BytesOfWholeWords(b: seq<byte>)
    requires |b| % 4 == 0
    ensures Bytes(WholeWords(b)) == b
  {
    if b != [] {
      var m := |b| / 4 - 1;
      var n := 4 * m;
      assert |b| == n + 4;
      var init := b[..n];
      var last := LeWord(b[n], b[n + 1], b[n + 2], b[n + 3]);
      assert WholeWords(b) == WholeWords(init) + [last] by {
        assert n / 4 == m by {
          DivUnique(n, 4, m, 0);
        }
        WholeWordsPrefix(b, n);
      }
      assert Bytes(WholeWords(init)) == init by {
        DivUnique(n, 4, m, 0);
        BytesOfWholeWords(init);
      }
      assert WordBytes(last) == b[n..] by {
        WordBytesOfLeWord(b[n], b[n + 1], b[n + 2], b[n + 3]);
      }
      assert b == init + b[n..];
    }
  }

  /** The words formed by the whole 4-byte groups of `b`; a trailing partial
      group contributes nothing. */
  function WholeWords(b: seq<byte>): (ws: seq<u32>)
    ensures |ws| == |b| / 4
    ensures forall j :: 0 <= j < |ws| ==> ws[j] == LeWord(b[4 * j], b[4 * j + 1], b[4 * j + 2], b[4 * j + 3])
  {
    seq(|b| / 4, j requires 0 <= j < |b| / 4 => LeWord(b[4 * j], b[4 * j + 1], b[4 * j + 2], b[4 * j + 3]))
  }

  lemma WholeWordsPrefix(b: seq<byte>, i: nat)
    requires i % 4 == 0 && i <= |b|
    ensures WholeWords(b[..i]) == WholeWords(b)[..i / 4]
  {
  }

  /** The words of a word-aligned run of bytes are a run of the words. */
  lemma WholeWordsRun(b: seq<byte>, lo: nat, hi: nat, w: nat, e: nat)
    requires lo <= hi <= |b| && lo == 4 * w && hi == 4 * e
    ensures w <= e <= |WholeWords(b)| && WholeWords(b)[w .. e] == WholeWords(b[lo .. hi])
  {
    var l, r := WholeWords(b)[w .. e], WholeWords(b[lo .. hi]);
    assert |r| == e - w;
    forall j | 0 <= j < e - w
      ensures l[j] == r[j]
    {
      assert 4 * (w + j) == lo + 4 * j;
    }
  }

  lemma WholeWordsAppend(a: seq<byte>, b: seq<byte>)
    requires |a| % 4 == 0
    ensures WholeWords(a + b) == WholeWords(a) + WholeWords(b)
  {
    var l, r := WholeWords(a + b), WholeWords(a) + WholeWords(b);
    assert |l| == |r|;
    forall j | 0 <= j < |l| ensures l[j] == r[j] {
      if j >= |a| / 4 {
        var k := j - |a| / 4;
        assert 4 * j == |a| + 4 * k;
      }
    }
  }

  /** `n` zero bytes. */
  function Zeros(n: nat): (z: seq<byte>)
    ensures |z| == n && forall i :: 0 <= i < n ==> z[i] == 0
  {
    seq(n, _ => 0)
  }

  /** The number of bytes needed to pad a length of `n` bytes up to a
      multiple of 4. */
  function PadLen(n: nat): (p: nat)
    ensures p < 4 && (n + p) % 4 == 0
  {
    if n % 4 == 0 then 0 else 4 - n % 4
  }

  lemma MulAtLeast(a: int, n: int)
    requires a >= 1 && n > 0
    ensures a * n >= n
  {
  }

  lemma Distrib(a: int, b: int, n: int)
    ensures a * n - b * n == (a - b) * n
  {
  }

  /** Euclidean division is determined by quotient and remainder. */
  lemma DivUnique(d: int, n: int, q: int, r: int)
    requires 0 < n && 0 <= r < n && d == q * n + r
    ensures d / n == q && d % n == r
  {
    var q' := d / n;
    var r' := d % n;
    assert d == q' * n + r';
    Distrib(q, q', n);
    Distrib(q', q, n);
    if q' < q {
      MulAtLeast(q - q', n);
    } else if q' > q {
      MulAtLeast(q' - q, n);
    }
  }
}
