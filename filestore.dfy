/** The static file store of src/filesystem.cpp: a read-only directory of
    files, written by the image builders into the data area of flash at
    `data_begin`. The image starts with a header (`magic`, `checksum`,
    `num_files`) followed by `num_files` 28-byte entries (a 16-byte name and
    the `size`, `checksum` and image-relative `offset` of the file); the
    header checksum covers `num_files` and the entries, each entry's
    checksum covers the file's bytes padded with zeros to whole words. */
module FileStore {
  import opened Words
  import opened Wrappers
  import opened Checksums
  import opened FlashLayout
  import opened SectorStore

  const FsMagic: u32 := 0xC0DE_A55A

  /** Length of `file_entry::filename`. */
  const FileNameBytes: nat := 16
  /** `magic`, `checksum` and `num_files`. */
  const HeaderWords: nat := 3
  /** `sizeof(file_entry) / 4`. */
  const EntryWords: nat := 7
  /** `sizeof(filesystem) / 4`: the header with its one declared entry. */
  const StructWords: nat := 10
  /** `max_files` of `init_filesystem`: `1 + (4096 - sizeof(filesystem)) / sizeof(file_entry)`. */
  const MaxFiles: nat := 145

  /** `fs_size / 4` for `n` files: `sizeof(filesystem)` counts the first
      entry, so the directory is `12 + 28 * n` bytes. */
  function DirWords(n: nat): nat
  {
    HeaderWords + EntryWords * n
  }

  /** The largest directory still fits one sector, one more file would not. */
  lemma MaxFilesFitSector()
    ensures 1 + (SectorBytes - 4 * StructWords) / (4 * EntryWords) == MaxFiles
    ensures 4 * DirWords(MaxFiles) <= SectorBytes < 4 * DirWords(MaxFiles + 1)
    ensures forall n :: n >= 1 ==> 4 * (StructWords + EntryWords * (n - 1)) == 4 * DirWords(n)
  {
  }

  datatype FileEntry = FileEntry(name: seq<byte>, size: u32, checksum: u32, offset: u32)

  /** The seven words of an entry in memory. */
  function EncodeEntry(e: FileEntry): (ws: seq<u32>)
    requires |e.name| == FileNameBytes
    ensures |ws| == EntryWords
  {
    WholeWords(e.name) + [e.size, e.checksum, e.offset]
  }

  function DecodeEntry(ws: seq<u32>): (e: FileEntry)
    requires |ws| == EntryWords
    ensures |e.name| == FileNameBytes
  {
    FileEntry(Bytes(ws[..4]), ws[4], ws[5], ws[6])
  }

  /** The entry layout is a bijection between entries and seven words. */
  lemma DecodeEncodeEntry(e: FileEntry)
    requires |e.name| == FileNameBytes
    ensures DecodeEntry(EncodeEntry(e)) == e
  {
    assert EncodeEntry(e)[..4] == WholeWords(e.name);
    BytesOfWholeWords(e.name);
  }

  lemma EncodeDecodeEntry(ws: seq<u32>)
    requires |ws| == EntryWords
    ensures EncodeEntry(DecodeEntry(ws)) == ws
  {
    WholeWordsOfBytes(ws[..4]);
  }

  /** Entry `i` of the directory words `d`. */
  function EntryAt(d: seq<u32>, i: nat): (e: FileEntry)
    requires DirWords(i + 1) <= |d|
    ensures |e.name| == FileNameBytes
  {
    DecodeEntry(d[HeaderWords + EntryWords * i .. HeaderWords + EntryWords * i + EntryWords])
  }

  /** What `init_filesystem` accepts: the magic, between 1 and `max_files`
      entries, exactly the directory's length, and a header checksum over
      everything from `num_files` on. */
  predicate ValidDirectory(d: seq<u32>)
  {
    && |d| >= HeaderWords && d[0] == FsMagic
    && 1 <= d[2] <= MaxFiles && |d| == DirWords(d[2])
    && Checksum(d[2..]) == d[1]
  }

  /** `d` is a valid directory stored at `data_begin`. */
  ghost predicate DirectoryAt(l: Layout, mem: seq<u32>, d: seq<u32>)
  {
    l.dataBegin / 4 + |d| <= |mem| && d == mem[l.dataBegin / 4 .. l.dataBegin / 4 + |d|] && ValidDirectory(d)
  }

  // ---------------------------------------------------------------------
  // File names: `os_strncmp(filename, entry.filename, 16) == 0`.

  /** Character `i` of a C string held without its terminator; past the
      end the terminator (and, for a 16-byte name field, nothing further is
      ever read). */
  function CharAt(s: seq<byte>, i: nat): byte
  {
    if i < |s| then s[i] else 0
  }

  function Rest(s: seq<byte>): seq<byte>
  {
    if s == [] then [] else s[1..]
  }

  /** `strncmp(a, b, n) == 0`: equal up to and including the first NUL,
      looking at `n` characters at most. */
  function StrnEqual(a: seq<byte>, b: seq<byte>, n: nat): bool
  {
    n == 0 || (CharAt(a, 0) == CharAt(b, 0) && (CharAt(a, 0) == 0 || StrnEqual(Rest(a), Rest(b), n - 1)))
  }

  /** The characters of `s` before its first NUL, at most `n` of them. */
  function CString(s: seq<byte>, n: nat): (c: seq<byte>)
    ensures |c| <= n && |c| <= |s|
  {
    if n == 0 || CharAt(s, 0) == 0 then [] else [s[0]] + CString(s[1..], n - 1)
  }

  /** `strncmp` compares the strings the two buffers hold, as far as `n`. */
  lemma {:induction false} StrnEqualMeaning(a: seq<byte>, b: seq<byte>, n: nat)
    ensures StrnEqual(a, b, n) <==> CString(a, n) == CString(b, n)
  {
    if n > 0 && CharAt(a, 0) == CharAt(b, 0) && CharAt(a, 0) != 0 {
      StrnEqualMeaning(Rest(a), Rest(b), n - 1);
      var ca, cb := CString(Rest(a), n - 1), CString(Rest(b), n - 1);
      assert CString(a, n) == [a[0]] + ca && CString(b, n) == [a[0]] + cb;
      assert ([a[0]] + ca)[1..] == ca && ([a[0]] + cb)[1..] == cb;
    } else if n > 0 && CharAt(a, 0) != CharAt(b, 0) {
      if CharAt(a, 0) == 0 || CharAt(b, 0) == 0 {
        assert |CString(a, n)| != |CString(b, n)|;
      } else {
        assert CString(a, n)[0] != CString(b, n)[0];
      }
    }
  }

  predicate NoNul(s: seq<byte>)
  {
    forall i :: 0 <= i < |s| ==> s[i] != 0
  }

  /** A name as the image builders store it: NUL-padded to 16 bytes. */
  function PadName(name: seq<byte>): (f: seq<byte>)
    requires |name| <= FileNameBytes
    ensures |f| == FileNameBytes
  {
    name + Zeros(FileNameBytes - |name|)
  }

  lemma {:induction false} CStringOfNoNul(s: seq<byte>, n: nat)
    requires NoNul(s)
    ensures CString(s, n) == if |s| <= n then s else s[..n]
  {
    if n > 0 && s != [] {
      CStringOfNoNul(s[1..], n - 1);
    }
  }

  lemma {:induction false} CStringOfPadded(name: seq<byte>, pad: nat, n: nat)
    requires NoNul(name) && |name| <= n
    ensures CString(name + Zeros(pad), n) == name
  {
    if name != [] {
      assert (name + Zeros(pad))[1..] == name[1..] + Zeros(pad);
      CStringOfPadded(name[1..], pad, n - 1);
    }
  }

  /** `find_file(f)` matches the entry of a stored name exactly when `f`
      is that name, or the name has all 16 characters and `f` starts with
      it (the comparison stops after 16 characters). */
  lemma FileNameMatch(f: seq<byte>, name: seq<byte>)
    requires NoNul(f) && NoNul(name) && |name| <= FileNameBytes
    ensures StrnEqual(f, PadName(name), FileNameBytes) <==>
      (f == name || (|name| == FileNameBytes && |f| > FileNameBytes && f[..FileNameBytes] == name))
  {
    StrnEqualMeaning(f, PadName(name), FileNameBytes);
    CStringOfNoNul(f, FileNameBytes);
    CStringOfPadded(name, FileNameBytes - |name|, FileNameBytes);
  }

  // ---------------------------------------------------------------------
  // File contents.

  /** Words needed for `n` bytes. */
  function WordsFor(n: nat): (w: nat)
    ensures 4 * w == n + PadLen(n)
  {
    (n + PadLen(n)) / 4
  }

  /** `data` padded with zeros to a whole number of words. */
  function Padded(data: seq<byte>): (p: seq<byte>)
    ensures |p| == 4 * WordsFor(|data|) && p[..|data|] == data
  {
    data + Zeros(PadLen(|data|))
  }

  /** Where `load_file` reads the file: `offset + data_begin`, in 32 bits. */
  function FileAddr(l: Layout, e: FileEntry): u32
  {
    (e.offset + l.dataBegin) % U32
  }

  /** The location checks of `load_file`, with its 32-bit sum. */
  predicate FileInRange(l: Layout, e: FileEntry)
  {
    var a := FileAddr(l, e);
    a % 4 == 0 && e.size != 0 && a <= l.dataEnd && (a + e.size) % U32 <= l.dataEnd
  }

  /** An entry whose bytes lie inside the data area is read from
      `data_begin + offset`, and `load_file` accepts it unless it is empty. */
  lemma EntryInDataArea(l: Layout, e: FileEntry, end: nat)
    requires l.dataBegin % 4 == 0 && e.offset % 4 == 0
    requires e.offset + e.size <= end && l.dataBegin + end <= l.dataEnd
    ensures FileAddr(l, e) == l.dataBegin + e.offset
    ensures FileInRange(l, e) <==> e.size != 0
  {
  }

  /** The `n` bytes of flash from word `w` on. */
  function FlashBytes(mem: seq<u32>, w: nat, n: nat): (b: seq<byte>)
    requires w + WordsFor(n) <= |mem|
    ensures |b| == n
  {
    Bytes(mem[w .. w + WordsFor(n)])[..n]
  }

  // ---------------------------------------------------------------------
  // Writing an image.

  /** Sectors `write_fs` erases for `n` bytes: `(n - 1) / 4096 + 1` with
      C's truncating division, so one sector when `n` is 0. */
  function EraseCount(n: nat): (k: nat)
    ensures k >= 1 && 4 * WordsFor(n) <= k * SectorBytes
  {
    if n == 0 then 1
    else
      var q := (n - 1) / SectorBytes;
      var m := (q + 1) * SectorBytes;
      DivUnique(n - 1, SectorBytes, q, (n - 1) % SectorBytes);
      assert m == ((q + 1) * 1024) * 4;
      DivUnique(m, 4, (q + 1) * 1024, 0);
      RoundUpBelow(n, m);
      q + 1
  }

  /** Rounding up to a whole word stays below any word multiple above. */
  lemma RoundUpBelow(n: nat, m: nat)
    requires n <= m && m % 4 == 0
    ensures n + PadLen(n) <= m
  {
  }

  /** The flash after `write_fs` stored `data` from word `first`: the
      erased sectors, then the data padded with zeros to whole words. */
  function FsWritten(m: seq<u32>, first: nat, data: seq<byte>): (r: seq<u32>)
    requires first + EraseCount(|data|) * WordsPerSector <= |m|
    ensures |r| == |m|
  {
    Overwrite(Overwrite(m, first, Blank(EraseCount(|data|) * WordsPerSector)), first, WholeWords(Padded(data)))
  }

  /** What `write_fs` leaves in flash: the data bytes read back ... */
  lemma FsWrittenReadBack(m: seq<u32>, first: nat, data: seq<byte>)
    requires first + EraseCount(|data|) * WordsPerSector <= |m|
    ensures FlashBytes(FsWritten(m, first, data), first, |data|) == data
  {
    var ws := WholeWords(Padded(data));
    var end := first + WordsFor(|data|);
    var erased := Overwrite(m, first, Blank(EraseCount(|data|) * WordsPerSector));
    assert |ws| == WordsFor(|data|) by {
      DivUnique(|Padded(data)|, 4, WordsFor(|data|), 0);
    }
    assert FsWritten(m, first, data)[first .. end] == ws by {
      OverwriteSlice(erased, first, ws);
    }
    StoredFileReadBack(FsWritten(m, first, data), first, end, data);
  }

  /** ... and, for whole words of data, exactly the data's words, up to
      word `last`. */
  lemma FsWrittenWords(m: seq<u32>, first: nat, data: seq<byte>, last: nat)
    requires |data| % 4 == 0 && first + EraseCount(|data|) * WordsPerSector <= |m|
    requires last == first + |data| / 4
    ensures last <= |FsWritten(m, first, data)|
    ensures FsWritten(m, first, data)[first .. last] == WholeWords(data)
  {
    var erased := Overwrite(m, first, Blank(EraseCount(|data|) * WordsPerSector));
    assert Padded(data) == data;
    OverwriteSlice(erased, first, WholeWords(data));
  }

  /** Flash words `at` to `end` holding the words of a file's padded bytes
      give back the file. */
  lemma StoredFileReadBack(mem: seq<u32>, at: nat, end: nat, c: seq<byte>)
    requires end == at + WordsFor(|c|) && end <= |mem| && mem[at .. end] == WholeWords(Padded(c))
    ensures FlashBytes(mem, at, |c|) == c
  {
    assert Bytes(mem[at .. end]) == Padded(c) by {
      BytesOfWholeWords(Padded(c));
    }
    PaddedReadBack(mem, at, end, c);
  }

  /** Flash words `at` to `end` holding a file's padded bytes give back the
      file. */
  lemma PaddedReadBack(mem: seq<u32>, at: nat, end: nat, c: seq<byte>)
    requires end == at + WordsFor(|c|) && end <= |mem| && Bytes(mem[at .. end]) == Padded(c)
    ensures FlashBytes(mem, at, |c|) == c
  {
  }

  /** The first `size` bytes of the `n` words read from word `w` on are
      the flash bytes there. */
  lemma ReadWordsBytes(mem: seq<u32>, w: nat, n: nat, size: nat, ws: seq<u32>)
    requires n == WordsFor(size) && w + n <= |mem| && ws == mem[w .. w + n]
    ensures size <= 4 * |ws| && Bytes(ws)[..size] == FlashBytes(mem, w, size)
  {
    assert mem[w .. w + WordsFor(size)] == ws;
  }

  /** ... erased words up to the end of the last erased sector ... */
  lemma FsWrittenErasedTail(m: seq<u32>, first: nat, data: seq<byte>, j: nat)
    requires first + EraseCount(|data|) * WordsPerSector <= |m|
    requires first + WordsFor(|data|) <= j < first + EraseCount(|data|) * WordsPerSector
    ensures FsWritten(m, first, data)[j] == Ones
  {
  }

  /** ... and every other word as it was. */
  lemma FsWrittenElsewhere(m: seq<u32>, first: nat, data: seq<byte>, j: nat)
    requires first + EraseCount(|data|) * WordsPerSector <= |m|
    requires j < |m| && !(first <= j < first + EraseCount(|data|) * WordsPerSector)
    ensures FsWritten(m, first, data)[j] == m[j]
  {
  }

  /** The `size` bytes read into `ws`, padded with zeros, if they match
      `checksum`. */
  function CheckedContents(ws: seq<u32>, size: nat, checksum: u32): (r: Option<seq<byte>>)
    requires size <= 4 * |ws|
    ensures r.Some? ==> r.value == Padded(Bytes(ws)[..size]) && Checksum(WholeWords(r.value)) == checksum
  {
    var contents := Padded(Bytes(ws)[..size]);
    if Checksum(WholeWords(contents)) == checksum then Some(contents) else None
  }

  lemma SuffixOfAppend(a: seq<byte>, b: seq<byte>)
    ensures (a + b)[|a|..] == b
  {
  }

  /** `write_fs` starts on a sector boundary: its first word is that of
      its first sector. */
  lemma AlignedStart(x: nat)
    requires x % SectorBytes == 0
    ensures x % 4 == 0 && x / 4 == (x / SectorBytes) * WordsPerSector
  {
    DivUnique(x, 4, (x / SectorBytes) * WordsPerSector, 0);
  }

  lemma BlankAppend(a: nat, b: nat)
    ensures Blank(a) + Blank(b) == Blank(a + b)
  {
  }

  /** Erasing the next sector extends the erased run by one sector. */
  lemma EraseStep(m: seq<u32>, first: nat, k: nat)
    requires first + (k + 1) * WordsPerSector <= |m|
    ensures Overwrite(Overwrite(m, first, Blank(k * WordsPerSector)), first + k * WordsPerSector, Blank(WordsPerSector))
         == Overwrite(m, first, Blank((k + 1) * WordsPerSector))
  {
    OverwriteAdjacent(m, first, Blank(k * WordsPerSector), Blank(WordsPerSector));
    BlankAppend(k * WordsPerSector, WordsPerSector);
  }

  /** The words of a chunk that starts at a word boundary continue the
      words of the bytes before it. */
  lemma ChunkWords(data: seq<byte>, p: nat, q: nat)
    requires p <= q <= |data| && p % 4 == 0
    ensures WholeWords(Padded(data[..p])) + WholeWords(Padded(data[p..q])) == WholeWords(Padded(data[..q]))
    ensures |WholeWords(Padded(data[..p]))| == p / 4
  {
    var a, b := data[..p], data[p..q];
    assert PadLen(p) == 0 && Padded(a) == a;
    assert Padded(data[..q]) == a + Padded(b) by {
      assert a + b == data[..q];
      PadLenShift(p, q - p);
      assert a + Padded(b) == (a + b) + Zeros(PadLen(q - p));
    }
    WholeWordsAppend(a, Padded(b));
  }

  /** The same, for the words named `done`, `chunk` and `after`. */
  lemma ChunkWordsOf(data: seq<byte>, p: nat, q: nat, done: seq<u32>, chunk: seq<u32>, after: seq<u32>)
    requires p <= q <= |data| && p % 4 == 0
    requires done == WholeWords(Padded(data[..p])) && chunk == WholeWords(Padded(data[p..q]))
    requires after == WholeWords(Padded(data[..q]))
    ensures done + chunk == after && |done| == p / 4
  {
    ChunkWords(data, p, q);
  }

  lemma PadLenShift(p: nat, n: nat)
    requires p % 4 == 0
    ensures PadLen(p + n) == PadLen(n)
  {
    DivUnique(p, 4, p / 4, 0);
    DivUnique(p + n, 4, p / 4 + n / 4, n % 4);
  }

  /** The sector a chunk is written to lies in the erased run. */
  lemma ChunkInErased(n: nat, p: nat)
    requires p < n && p % SectorBytes == 0
    ensures p / 4 + WordsPerSector <= EraseCount(n) * WordsPerSector
    ensures WordsFor(n) <= EraseCount(n) * WordsPerSector
  {
    var q := (n - 1) / SectorBytes;
    DivUnique(n - 1, SectorBytes, q, (n - 1) % SectorBytes);
    var k := p / SectorBytes;
    DivUnique(p, SectorBytes, k, 0);
    DivUnique(p, 4, k * WordsPerSector, 0);
  }

  /** A chunk of 1 to 4096 bytes is written within one sector. */
  lemma ChunkCovers(copy: nat)
    requires 1 <= copy <= SectorBytes
    ensures 1 <= WordsFor(copy) <= WordsPerSector && CoveredWords(WordsFor(copy)) == WordsPerSector
  {
  }

  /** The same, for the words named `ws` of a run of `n` bytes. */
  lemma PaddedWordsOf(b: seq<byte>, n: nat, ws: seq<u32>)
    requires n == |b| && ws == WholeWords(Padded(b))
    ensures |ws| == WordsFor(n)
  {
    PaddedWords(b);
  }

  /** A padded run of `n` bytes is `WordsFor(n)` words. */
  lemma PaddedWords(b: seq<byte>)
    ensures |WholeWords(Padded(b))| == WordsFor(|b|)
  {
    DivUnique(|Padded(b)|, 4, WordsFor(|b|), 0);
  }

  /** The arithmetic of chunk `k` of an `n`-byte write from the sector
      boundary `start`: it starts at byte `p` of the data, word `w` of the
      padded file and byte address `dest`, and lies within the erased
      sectors. */
  lemma ChunkBounds(start: nat, n: nat, k: nat, p: nat, copy: nat, dest: nat, w: nat)
    requires start % SectorBytes == 0 && p == SectorBytes * k && p < n
    requires copy == if n - p > SectorBytes then SectorBytes else n - p
    requires dest == start + p && w == WordsPerSector * k
    ensures dest % SectorBytes == 0 && dest / 4 == start / 4 + w
    ensures p % 4 == 0 && p / 4 == w && p + copy <= n && ((p + copy) % 4 == 0 || p + copy == n)
    ensures 1 <= WordsFor(copy) <= WordsPerSector && CoveredWords(WordsFor(copy)) == WordsPerSector
    ensures w + WordsPerSector <= EraseCount(n) * WordsPerSector
    ensures p + copy < n ==> copy == SectorBytes && WordsFor(copy) == WordsPerSector
  {
    assert dest % SectorBytes == 0 && dest / 4 == start / 4 + w by {
      var sec := start / SectorBytes;
      DivUnique(start, SectorBytes, sec, 0);
      DivUnique(start, 4, WordsPerSector * sec, 0);
      DivUnique(dest, SectorBytes, sec + k, 0);
      DivUnique(dest, 4, WordsPerSector * (sec + k), 0);
    }
    assert p % 4 == 0 && p / 4 == w by {
      DivUnique(p, 4, w, 0);
    }
    assert w + WordsPerSector <= EraseCount(n) * WordsPerSector by {
      DivUnique(p, SectorBytes, k, 0);
      ChunkInErased(n, p);
    }
    ChunkCovers(copy);
    assert (p + copy) % 4 == 0 || p + copy == n by {
      if p + copy < n {
        DivUnique(p + copy, 4, w + WordsPerSector, 0);
      }
    }
  }

  /** Chunk `k` of the write loop in words: the words written so far, then
      the chunk's words, are the words of the data up to the chunk's end;
      the chunk goes to the sector boundary right after the written words,
      within the erased sectors, and the loop's counters stay in step. */
  lemma ChunkStep(start: nat, data: seq<byte>, k: nat, p: nat, copy: nat, q: nat, dest: nat, nextDest: nat,
                  done: seq<u32>, chunk: seq<u32>, after: seq<u32>)
    requires start % SectorBytes == 0 && p == SectorBytes * k && p < |data| && dest == start + p
    requires copy == (if |data| - p > SectorBytes then SectorBytes else |data| - p) && q == p + copy
    requires nextDest == dest + 4 * WordsFor(copy)
    requires done == WholeWords(Padded(data[..p])) && chunk == WholeWords(Padded(data[p .. q]))
    requires after == WholeWords(Padded(data[..q]))
    ensures done + chunk == after && |done| == WordsPerSector * k && dest / 4 == start / 4 + |done|
    ensures dest % SectorBytes == 0 && CoveredWords(|chunk|) == WordsPerSector && p < q <= |data|
    ensures |done| + WordsPerSector <= EraseCount(|data|) * WordsPerSector
    ensures q < |data| ==> q == SectorBytes * (k + 1) && nextDest == start + q
  {
    ChunkBounds(start, |data|, k, p, copy, dest, WordsPerSector * k);
    PaddedWordsOf(data[p .. q], copy, chunk);
    ChunkWordsOf(data, p, q, done, chunk, after);
  }

  /** Writing a chunk right after the words written so far into the erased
      run leaves both runs written. */
  lemma ChunkWrite(m0: seq<u32>, first: nat, n: nat, done: seq<u32>, chunk: seq<u32>, after: seq<u32>,
                   at: nat, mem: seq<u32>)
    requires first + n <= |m0| && ErasedWords(m0, first, n)
    requires |done| + WordsPerSector <= n && CoveredWords(|chunk|) == WordsPerSector
    requires done + chunk == after && at == first + |done|
    requires first + |done| <= |m0| && mem == Overwrite(m0, first, done)
    ensures ErasedWords(mem, at, CoveredWords(|chunk|))
    ensures at + |chunk| <= |mem| && first + |after| <= |m0|
    ensures Overwrite(mem, at, chunk) == Overwrite(m0, first, after)
  {
    ErasedAhead(m0, first, n, done, |done|, WordsPerSector);
    OverwriteAdjacent(m0, first, done, chunk);
  }

  /** Words past the written ones in an erased run are still erased. */
  lemma ErasedAhead(m: seq<u32>, first: nat, n: nat, ws: seq<u32>, a: nat, len: nat)
    requires ErasedWords(m, first, n) && first + n <= |m|
    requires |ws| <= a && a + len <= n
    ensures ErasedWords(Overwrite(m, first, ws), first + a, len)
  {
  }

  /** `data_end - data_begin`. */
  function DataSize(l: Layout): nat
    requires l.dataBegin <= l.dataEnd
  {
    l.dataEnd - l.dataBegin
  }

  /** The erase loop of `write_fs`: sectors `sector`, `sector + 1`, ...,
      stopping at the first failure. */
  method EraseSectors(flash: Flash, sector: nat, count: nat) returns (ok: bool)
    requires flash.Valid() && count >= 1
    modifies flash
    ensures flash.Valid()
    ensures ok ==>
      && (sector + count) * WordsPerSector <= |old(flash.mem)|
      && flash.mem == Overwrite(old(flash.mem), sector * WordsPerSector, Blank(count * WordsPerSector))
  {
    ghost var m0 := flash.mem;
    var first := sector * WordsPerSector;
    var s := sector;
    while s < sector + count
      invariant flash.Valid() && |flash.mem| == |m0|
      invariant sector <= s <= sector + count
      invariant s == sector ==> flash.mem == m0
      invariant s > sector ==>
        && first + (s - sector) * WordsPerSector <= |m0|
        && flash.mem == Overwrite(m0, first, Blank((s - sector) * WordsPerSector))
    {
      ok := flash.EraseSector(s);
      if !ok {
        return;
      }
      var k := s - sector;
      SectorInFlash(s, flash.numSectors);
      if k == 0 {
        assert Overwrite(m0, first, Blank(0)) == m0;
      }
      assert s * WordsPerSector == first + k * WordsPerSector;
      EraseStep(m0, first, k);
      s := s + 1;
    }
    ok := true;
  }

  /** The write loop of `write_fs`: 4096-byte pieces from the sector
      boundary `start` on, the last one padded with zeros to a whole word,
      stopping at the first failure. */
  method WriteChunks(flash: Flash, start: nat, data: seq<byte>) returns (ok: bool)
    requires flash.Valid() && start % SectorBytes == 0
    requires start / 4 + EraseCount(|data|) * WordsPerSector <= |flash.mem|
    requires flash.Erased(start / 4, EraseCount(|data|) * WordsPerSector)
    modifies flash
    ensures flash.Valid()
    ensures ok ==> flash.mem == Overwrite(old(flash.mem), start / 4, WholeWords(Padded(data)))
  {
    ghost var m0 := flash.mem;
    var p, dest := 0, start;
    ghost var k := 0;
    assert data[..0] == [] && Padded([]) == [];
    while p < |data|
      invariant flash.Valid() && |flash.mem| == |m0| && p <= |data|
      invariant p < |data| ==> p == SectorBytes * k && dest == start + p
      invariant start / 4 + |WholeWords(Padded(data[..p]))| <= |m0|
      invariant flash.mem == Overwrite(m0, start / 4, WholeWords(Padded(data[..p])))
    {
      ok, p, dest := WriteNextChunk(flash, start, data, p, dest, k, m0);
      if !ok { return; }
      k := k + 1;
    }
    ok := true;
    assert data[..p] == data;
  }

  /** One round of the write loop: the next piece of at most 4096 bytes,
      padded with zeros to a whole word, written at the sector boundary
      `dest` right after the words written so far; `next` and `nextDest`
      are the byte of the data and the address after it. */
  method WriteNextChunk(flash: Flash, start: nat, data: seq<byte>, p: nat, dest: nat, ghost k: nat, ghost m0: seq<u32>)
      returns (ok: bool, next: nat, nextDest: nat)
    requires flash.Valid() && |flash.mem| == |m0| && start % SectorBytes == 0
    requires start / 4 + EraseCount(|data|) * WordsPerSector <= |m0|
    requires ErasedWords(m0, start / 4, EraseCount(|data|) * WordsPerSector)
    requires p < |data| && p == SectorBytes * k && dest == start + p
    requires start / 4 + |WholeWords(Padded(data[..p]))| <= |m0|
    requires flash.mem == Overwrite(m0, start / 4, WholeWords(Padded(data[..p])))
    modifies flash
    ensures flash.Valid() && |flash.mem| == |m0| && p < next <= |data|
    ensures next < |data| ==> next == SectorBytes * (k + 1) && nextDest == start + next
    ensures ok ==> start / 4 + |WholeWords(Padded(data[..next]))| <= |m0|
    ensures ok ==> flash.mem == Overwrite(m0, start / 4, WholeWords(Padded(data[..next])))
  {
    var copy := if |data| - p > SectorBytes then SectorBytes else |data| - p;
    next, nextDest := p + copy, dest + 4 * WordsFor(copy);
    var chunk := WholeWords(Padded(data[p .. next]));
    ghost var done, after := WholeWords(Padded(data[..p])), WholeWords(Padded(data[..next]));
    ChunkStep(start, data, k, p, copy, next, dest, nextDest, done, chunk, after);
    ChunkWrite(m0, start / 4, EraseCount(|data|) * WordsPerSector, done, chunk, after, dest / 4, flash.mem);
    ok := flash.Write(dest, chunk);
  }

  /** After erasing the sectors from `sector` on, the run is erased, and
      writing the data into it leaves what `write_fs` promises. */
  lemma EraseThenWrite(m0: seq<u32>, first: nat, data: seq<byte>, sector: nat, m1: seq<u32>)
    requires first == sector * WordsPerSector && (sector + EraseCount(|data|)) * WordsPerSector <= |m0|
    requires m1 == Overwrite(m0, sector * WordsPerSector, Blank(EraseCount(|data|) * WordsPerSector))
    ensures first + EraseCount(|data|) * WordsPerSector <= |m0| == |m1|
    ensures ErasedWords(m1, first, EraseCount(|data|) * WordsPerSector)
    ensures first + |WholeWords(Padded(data))| <= |m1|
    ensures Overwrite(m1, first, WholeWords(Padded(data))) == FsWritten(m0, first, data)
  {
    BlankErased(m0, first, EraseCount(|data|) * WordsPerSector);
    PaddedWords(data);
  }

  /** The globals of the file store: the flash it shares with the record
      store, the flash layout, and `fs`, the directory loaded by
      `init_filesystem` (null until then). */
  class FileSystem {
    const layout: Layout
    const flash: Flash
    var fs: Option<seq<u32>>

    ghost predicate Valid()
      reads this, flash
    {
      && flash.Valid()
      && layout.dataBegin % SectorBytes == 0 && layout.dataBegin <= layout.dataEnd
      && (fs.Some? ==> ValidDirectory(fs.value))
    }

    constructor (l: Layout, f: Flash)
      requires f.Valid() && l.dataBegin % SectorBytes == 0 && l.dataBegin <= l.dataEnd
      ensures layout == l && flash == f && fs.None? && Valid()
    {
      layout, flash, fs := l, f, None;
    }

    /** `init_filesystem()`: 0 once a directory is loaded (at once if one
        already is), 1 when the directory at `data_begin` is missing or
        corrupt or the flash could not be read. */
    method InitFilesystem() returns (rc: int)
      requires Valid()
      modifies this
      ensures Valid() && rc in {0, 1}
      ensures old(fs).Some? ==> rc == 0 && fs == old(fs)
      ensures old(fs).None? && rc == 0 ==> fs.Some? && DirectoryAt(layout, flash.mem, fs.value)
      ensures old(fs).None? && rc == 1 ==> fs.None?
      ensures old(fs).None? && (forall d :: !DirectoryAt(layout, flash.mem, d)) ==> rc == 1
    {
      if fs.Some? {
        return 0;
      }
      var ok, hdr := flash.Read(layout.dataBegin, StructWords);
      if !ok {
        return 1;
      }
      if hdr[0] != FsMagic {
        NoDirectoryBadHeader();
        return 1;
      }
      if hdr[2] == 0 || hdr[2] > MaxFiles {
        NoDirectoryBadHeader();
        return 1;
      }
      var size := DirWords(hdr[2]);
      var d: seq<u32>;
      ok, d := flash.Read(layout.dataBegin, size);
      if !ok {
        return 1;
      }
      var checksum := CalcChecksum(d[2..]);
      if checksum != hdr[1] {
        NoDirectoryBadHeader();
        return 1;
      }
      assert d[..StructWords] == hdr;
      assert DirectoryAt(layout, flash.mem, d);
      fs := Some(d);
      rc := 0;
    }

    /** Any valid directory at `data_begin` starts with the first header
        words there, so a header that fails a check rules all of them out. */
    lemma NoDirectoryBadHeader()
      requires Valid()
      ensures forall d :: DirectoryAt(layout, flash.mem, d) ==>
        var b := layout.dataBegin / 4;
        && b + StructWords <= |flash.mem|
        && d == flash.mem[b .. b + DirWords(flash.mem[b + 2])]
        && flash.mem[b] == FsMagic && 1 <= flash.mem[b + 2] <= MaxFiles
        && Checksum(d[2..]) == flash.mem[b + 1]
    {
    }

    /** `find_file(filename)`: the first entry whose name compares equal
        over 16 characters, or null without a directory. */
    method FindFile(filename: seq<byte>) returns (r: Option<nat>)
      requires Valid() && NoNul(filename)
      ensures fs.None? ==> r.None?
      ensures r.Some? ==>
        && fs.Some? && r.value < fs.value[2]
        && StrnEqual(filename, EntryAt(fs.value, r.value).name, FileNameBytes)
        && forall j :: 0 <= j < r.value ==> !StrnEqual(filename, EntryAt(fs.value, j).name, FileNameBytes)
      ensures r.None? && fs.Some? ==>
        forall j :: 0 <= j < fs.value[2] ==> !StrnEqual(filename, EntryAt(fs.value, j).name, FileNameBytes)
    {
      if fs.None? {
        return None;
      }
      var d := fs.value;
      var i := 0;
      while i < d[2]
        invariant i <= d[2]
        invariant forall j :: 0 <= j < i ==> !StrnEqual(filename, EntryAt(d, j).name, FileNameBytes)
      {
        if StrnEqual(filename, EntryAt(d, i).name, FileNameBytes) {
          return Some(i);
        }
        i := i + 1;
      }
      return None;
    }

    /** `load_file(file, size_in_front)`: a buffer with `size_in_front`
        bytes of room, then the file's bytes padded with zeros to whole
        words, provided the padded bytes match the entry's checksum. */
    method LoadFile(e: FileEntry, sizeInFront: nat) returns (r: Option<seq<byte>>)
      requires Valid()
      ensures fs.None? || sizeInFront % 4 != 0 || !FileInRange(layout, e) ==> r.None?
      ensures r.Some? ==>
        var a := FileAddr(layout, e);
        && a / 4 + WordsFor(e.size) <= |flash.mem|
        && r.value == Zeros(sizeInFront) + Padded(FlashBytes(flash.mem, a / 4, e.size))
        && Checksum(WholeWords(r.value[sizeInFront..])) == e.checksum
    {
      if fs.None? || sizeInFront % 4 != 0 {
        return None;
      }
      if !FileInRange(layout, e) {
        return None;
      }
      var a := FileAddr(layout, e);
      var n := WordsFor(e.size);
      var ok, ws := flash.Read(a, n);
      if !ok {
        return None;
      }
      var contents := CheckedContents(ws, e.size, e.checksum);
      if contents.None? {
        return None;
      }
      ReadWordsBytes(flash.mem, a / 4, n, e.size, ws);
      SuffixOfAppend(Zeros(sizeInFront), contents.value);
      r := Some(Zeros(sizeInFront) + contents.value);
    }

    /** `write_fs(offset, data, size)`: erase the sectors the data needs
        from `data_begin + offset`, write the data a sector at a time
        (the last piece padded with zeros to a whole word) and reload the
        directory. Writing from offset 0 drops the loaded directory first. */
    method WriteFs(offset: u32, data: seq<byte>) returns (rc: int)
      requires Valid() && |data| < 0x8000_0000
      modifies this, flash
      ensures Valid() && rc in {0, 1}
      ensures offset == 0 && rc == 1 ==> fs.None?
      ensures offset % SectorBytes != 0 || offset > DataSize(layout) || offset + |data| > DataSize(layout) ==>
        rc == 1 && flash.mem == old(flash.mem)
      ensures rc == 0 ==> (layout.dataBegin + offset) / 4 + EraseCount(|data|) * WordsPerSector <= |old(flash.mem)|
      ensures rc == 0 ==> flash.mem == FsWritten(old(flash.mem), (layout.dataBegin + offset) / 4, data) && fs.Some?
      ensures rc == 0 && (offset == 0 || old(fs).None?) ==> DirectoryAt(layout, flash.mem, fs.value)
      ensures rc == 0 && offset != 0 && old(fs).Some? ==> fs == old(fs)
    {
      ghost var m0 := flash.mem;
      if fs.Some? && offset == 0 {
        fs := None;
      }
      if offset % SectorBytes != 0 {
        return 1;
      }
      var dataSize := layout.dataEnd - layout.dataBegin;
      if offset > dataSize || offset + |data| > dataSize {
        return 1;
      }
      var start := layout.dataBegin + offset;
      AlignedStart(start);
      var ok := EraseSectors(flash, start / SectorBytes, EraseCount(|data|));
      if !ok {
        return 1;
      }
      EraseThenWrite(m0, start / 4, data, start / SectorBytes, flash.mem);
      ok := WriteChunks(flash, start, data);
      if !ok {
        return 1;
      }
      assert start / 4 == (layout.dataBegin + offset) / 4;
      rc := InitFilesystem();
    }
  }
}
