/** The test image builder `mock::fsmaker::construct`: the same directory
    and file layout as tools/mkfs.py, built in one malloc'd buffer. Each
    file's checksum is taken over its contents padded with zeros, and the
    stored padding is then overwritten with `'x'`; names are copied with
    `strncpy` into the 16-byte field. The loader pads what it reads with
    zeros itself, so the `'x'` bytes never reach a checksum. */
module FsMaker {
  import opened Words
  import opened Checksums
  import opened SectorStore
  import opened FlashLayout
  import opened FileStore
  import opened Mkfs
  import opened FlashImage

  /** `'x'`, the byte fsmaker stores in a file's padding. */
  const PadByte: byte := 0x78

  /** `strncpy(entry.filename, name, 16)`: the name's characters before
      its NUL, at most 16 of them, then NULs to the end of the field. */
  function EntryName(name: seq<byte>): (f: seq<byte>)
    ensures |f| == FileNameBytes
  {
    PadName(CString(name, FileNameBytes))
  }

  /** `n` bytes of `'x'`. */
  function Xs(n: nat): (x: seq<byte>)
    ensures |x| == n && forall i :: 0 <= i < n ==> x[i] == PadByte
  {
    seq(n, _ => PadByte)
  }

  /** A file as fsmaker leaves it in the buffer: the contents, then `'x'`
      up to a whole word. */
  function Stored(c: seq<byte>): (s: seq<byte>)
    ensures |s| == |Padded(c)| && s[..|c|] == c
  {
    c + Xs(PadLen(|c|))
  }

  /** The stored contents of `files`, one after the other. Each one takes
      as much room as in the image tools/mkfs.py writes. */
  function StoredData(files: seq<SourceFile>): (d: seq<byte>)
    ensures |d| == |Data(files)|
  {
    if files == [] then []
    else StoredData(files[..|files| - 1]) + Stored(files[|files| - 1].contents)
  }

  /** The entry fsmaker fills in for file `i`: the copied name, the size
      and the offset in 32 bits, and the checksum of the contents padded
      with zeros. */
  function MakerEntry(files: seq<SourceFile>, i: nat): (e: FileEntry)
    requires i < |files|
    ensures |e.name| == FileNameBytes
  {
    var f := files[i];
    FileEntry(EntryName(f.name), |f.contents| % U32, ByteChecksum(Padded(f.contents)), OffsetOf(files, i) % U32)
  }

  /** The words of the first `k` entries. */
  function MakerEntriesWords(files: seq<SourceFile>, k: nat): (ws: seq<u32>)
    requires k <= |files|
    ensures |ws| == EntryWords * k
  {
    if k == 0 then [] else MakerEntriesWords(files, k - 1) + EncodeEntry(MakerEntry(files, k - 1))
  }

  /** `num_files` (in 32 bits) and the entries: the words the header
      checksum covers. */
  function MakerHeaderWords(files: seq<SourceFile>): (ws: seq<u32>)
    ensures |ws| == 1 + EntryWords * |files|
  {
    [|files| % U32] + MakerEntriesWords(files, |files|)
  }

  /** The buffer `construct` leaves behind: the magic, the header
      checksum, the header, then the stored contents. */
  function MakerImage(files: seq<SourceFile>): (b: seq<byte>)
    ensures |b| == HeaderBytes(|files|) + |Data(files)|
  {
    WordBytes(FsMagic) + WordBytes(Checksum(MakerHeaderWords(files))) + Bytes(MakerHeaderWords(files))
      + StoredData(files)
  }

  // ---------------------------------------------------------------------
  // The buffer against the image of tools/mkfs.py.

  /** File names without a NUL, as C strings hold them. */
  predicate PlainNames(files: seq<SourceFile>)
  {
    forall i :: 0 <= i < |files| ==> NoNul(files[i].name)
  }

  /** For files the script can pack, fsmaker's entry is the script's. */
  lemma MakerEntryMatches(files: seq<SourceFile>, i: nat)
    requires Buildable(files) && PlainNames(files) && i < |files|
    ensures EntryFits(files, i) && MakerEntry(files, i) == ImageEntry(files, i)
  {
    var f := files[i];
    var off := OffsetOf(files, i);
    assert EntryFits(files, i) by {
      AllFitAt(files, |files|, i);
    }
    assert |f.contents| % U32 == |f.contents| by {
      DivUnique(|f.contents|, U32, 0, |f.contents|);
    }
    assert off % U32 == off by {
      DivUnique(off, U32, 0, off);
    }
    assert EntryName(f.name) == PadName(f.name) by {
      CStringOfNoNul(f.name, FileNameBytes);
    }
  }

  lemma {:induction false} MakerEntriesMatch(files: seq<SourceFile>, k: nat)
    requires Buildable(files) && PlainNames(files) && k <= |files|
    ensures AllFit(files, k) && MakerEntriesWords(files, k) == EntriesWords(files, k)
  {
    if k > 0 {
      MakerEntriesMatch(files, k - 1);
      MakerEntryMatches(files, k - 1);
      AllFitNext(files, k - 1);
    } else {
      assert AllFit(files, 0);
    }
  }

  /** fsmaker writes the script's directory, followed by the contents with
      `'x'` where the script has zero padding. */
  lemma MakerDirectory(files: seq<SourceFile>)
    requires Buildable(files) && PlainNames(files)
    ensures MakerHeaderWords(files) == HeaderWordsOf(files)
    ensures MakerImage(files) == Bytes(DirectoryOf(files)) + StoredData(files)
  {
    var h := HeaderWordsOf(files);
    assert MakerHeaderWords(files) == h by {
      var n := |files|;
      MakerEntriesMatch(files, n);
      DivUnique(n, U32, 0, n);
      assert h == [n] + EntriesWords(files, n);
    }
    var pre := WordBytes(FsMagic) + WordBytes(Checksum(h)) + Bytes(h);
    assert pre == Bytes(DirectoryOf(files)) by {
      BytesOfPair(FsMagic, Checksum(h), h);
    }
    assert MakerImage(files) == pre + StoredData(files);
  }

  /** One more file's stored contents at the end. */
  lemma StoredStep(files: seq<SourceFile>, i: nat)
    requires i < |files|
    ensures StoredData(files[..i + 1]) == StoredData(files[..i]) + Stored(files[i].contents)
  {
    assert files[..i + 1][..i] == files[..i];
  }

  /** The stored contents of the first `k` files are a prefix of all. */
  lemma {:induction false} StoredPrefix(files: seq<SourceFile>, k: nat)
    requires k <= |files|
    ensures |StoredData(files[..k])| <= |StoredData(files)|
    ensures StoredData(files)[..|StoredData(files[..k])|] == StoredData(files[..k])
    decreases |files|
  {
    if k == |files| {
      assert files[..k] == files;
    } else {
      var init := files[..|files| - 1];
      assert init[..k] == files[..k];
      StoredPrefix(init, k);
    }
  }

  /** File `i`'s stored contents sit between `lo` and `hi`, right after
      those of the files before it. */
  lemma StoredSlot(files: seq<SourceFile>, i: nat, lo: nat, hi: nat)
    requires i < |files| && lo == |Data(files[..i])| && hi == lo + |Padded(files[i].contents)|
    ensures hi <= |StoredData(files)| && StoredData(files)[lo .. hi] == Stored(files[i].contents)
  {
    StoredStep(files, i);
    StoredPrefix(files, i + 1);
  }

  // ---------------------------------------------------------------------
  // The buffer written to flash and read back by the firmware.

  /** The buffer fits the data area of flash from `data_begin` on, and the
      sectors `write_fs` erases for it exist. */
  predicate MakerImageFits(files: seq<SourceFile>, l: Layout, m: seq<u32>)
  {
    && Buildable(files) && PlainNames(files) && l.dataBegin % 4 == 0
    && l.dataBegin + |MakerImage(files)| <= l.dataEnd
    && l.dataBegin / 4 + EraseCount(|MakerImage(files)|) * WordsPerSector <= |m|
  }

  /** The words of the buffer: the script's directory, then the words of
      the stored contents. */
  lemma MakerWords(files: seq<SourceFile>, dw: nat, de: nat)
    requires Buildable(files) && PlainNames(files)
    requires dw == DirWords(|files|) && de == dw + |Data(files)| / 4
    ensures |MakerImage(files)| % 4 == 0 && |MakerImage(files)| / 4 == de
    ensures WholeWords(MakerImage(files))[0 .. dw] == DirectoryOf(files)
    ensures WholeWords(MakerImage(files))[dw .. de] == WholeWords(StoredData(files))
  {
    MakerDirectory(files);
    var d := DirectoryOf(files);
    DivUnique(|Bytes(d)|, 4, |d|, 0);
    WholeWordsAppend(Bytes(d), StoredData(files));
    WholeWordsOfBytes(d);
    WordsThenAligned(|MakerImage(files)|, |Bytes(d)|, |Data(files)|, |files|);
    ConcatRuns(WholeWords(MakerImage(files)), d, WholeWords(StoredData(files)), dw, de);
  }

  /** Flash words `at` to `end` holding the words of a file's stored bytes
      give back the file. */
  lemma StoredReadBack(mem: seq<u32>, at: nat, end: nat, c: seq<byte>)
    requires end == at + WordsFor(|c|) && end <= |mem| && mem[at .. end] == WholeWords(Stored(c))
    ensures FlashBytes(mem, at, |c|) == c
  {
    BytesOfWholeWords(Stored(c));
  }

  /** Flash words `at` to `end`, inside the stored contents' words `base`
      to `top`, hold file `i`'s stored bytes. */
  lemma StoredFileWords(files: seq<SourceFile>, mem: seq<u32>, i: nat, lo: nat, w: nat, e: nat,
                        base: nat, top: nat, at: nat, end: nat)
    requires i < |files| && base <= top <= |mem| && mem[base .. top] == WholeWords(StoredData(files))
    requires lo == |Data(files[..i])| && w == lo / 4 && e == w + WordsFor(|files[i].contents|)
    requires at == base + w && end == at + WordsFor(|files[i].contents|)
    ensures end <= |mem| && mem[at .. end] == WholeWords(Stored(files[i].contents))
  {
    var c := files[i].contents;
    var hi := lo + |Padded(c)|;
    StoredSlot(files, i, lo, hi);
    DataSlot(files, i, lo, hi);
    WholeWordsRun(StoredData(files), lo, hi, w, e);
    StoredRun(mem, base, top, WholeWords(StoredData(files)), w, e, at, end);
  }

  /** Flash holds the words of the stored contents right after the
      directory, inside the data area. */
  ghost predicate StoredDataAt(files: seq<SourceFile>, l: Layout, mem: seq<u32>)
  {
    && l.dataBegin % 4 == 0
    && l.dataBegin + HeaderBytes(|files|) + |Data(files)| <= l.dataEnd
    && l.dataBegin / 4 + DirWords(|files|) + |Data(files)| / 4 <= |mem|
    && mem[l.dataBegin / 4 + DirWords(|files|) .. l.dataBegin / 4 + DirWords(|files|) + |Data(files)| / 4]
       == WholeWords(StoredData(files))
  }

  /** Flash holding the words `ws` from word `first` on, whose first `dw`
      words are the script's directory, holds that directory ... */
  lemma MakerWrittenDirectory(files: seq<SourceFile>, l: Layout, mem: seq<u32>, ws: seq<u32>,
                              first: nat, dw: nat, de: nat)
    requires Buildable(files) && l.dataBegin % 4 == 0 && first == l.dataBegin / 4
    requires dw == DirWords(|files|) && dw <= de == |ws| && ws[0 .. dw] == DirectoryOf(files)
    requires first + de <= |mem| && mem[first .. first + de] == ws
    ensures DirectoryStored(files, l, mem)
  {
    StoredRun(mem, first, first + de, ws, 0, dw, first, first + dw);
    DirectoryFrom(files, l, mem, first, first + dw);
  }

  /** ... and, when the words after them are the stored contents, those. */
  lemma MakerWrittenData(files: seq<SourceFile>, l: Layout, mem: seq<u32>, ws: seq<u32>,
                         first: nat, dw: nat, de: nat)
    requires l.dataBegin % 4 == 0 && first == l.dataBegin / 4
    requires l.dataBegin + HeaderBytes(|files|) + |Data(files)| <= l.dataEnd
    requires dw == DirWords(|files|) && de == dw + |Data(files)| / 4 && de == |ws|
    requires ws[dw .. de] == WholeWords(StoredData(files))
    requires first + de <= |mem| && mem[first .. first + de] == ws
    ensures StoredDataAt(files, l, mem)
  {
    var at := first + dw;
    var end := first + de;
    assert end <= |mem| && mem[at .. end] == ws[dw .. de] by {
      StoredRun(mem, first, first + de, ws, dw, de, at, end);
    }
    StoredDataFrom(files, l, mem, at, end);
  }

  /** Flash holding the words of the stored contents from word `at` to
      `end`, after the directory, holds the buffer's contents. */
  lemma StoredDataFrom(files: seq<SourceFile>, l: Layout, mem: seq<u32>, at: nat, end: nat)
    requires l.dataBegin % 4 == 0 && l.dataBegin + HeaderBytes(|files|) + |Data(files)| <= l.dataEnd
    requires at == l.dataBegin / 4 + DirWords(|files|) && end == l.dataBegin / 4 + DirWords(|files|) + |Data(files)| / 4
    requires end <= |mem| && mem[at .. end] == WholeWords(StoredData(files))
    ensures StoredDataAt(files, l, mem)
  {
  }

  /** The `|c|` bytes of flash from word `at` on are `c`. */
  predicate ReadsBack(mem: seq<u32>, at: nat, c: seq<byte>)
  {
    at + WordsFor(|c|) <= |mem| && FlashBytes(mem, at, |c|) == c
  }

  /** The bytes `load_file` reads from the word of file `i` are the file's
      contents. */
  lemma MakerContentsLoad(files: seq<SourceFile>, l: Layout, mem: seq<u32>, i: nat, at: nat)
    requires StoredDataAt(files, l, mem) && i < |files| && at == l.dataBegin / 4 + OffsetOf(files, i) / 4
    ensures OffsetOf(files, i) % 4 == 0 && ReadsBack(mem, at, files[i].contents)
  {
    var lo := |Data(files[..i])|;
    FileWord(l.dataBegin, OffsetOf(files, i), lo, |files|);
    var base := l.dataBegin / 4 + DirWords(|files|);
    MakerContentsAt(files, l, mem, i, lo, base, at, at + WordsFor(|files[i].contents|));
  }

  /** The same, with the bounds named: the contents before file `i` end at
      byte `lo`, the stored contents start at word `base`, and file `i`
      is read from word `at` to `end`. */
  lemma MakerContentsAt(files: seq<SourceFile>, l: Layout, mem: seq<u32>, i: nat,
                        lo: nat, base: nat, at: nat, end: nat)
    requires StoredDataAt(files, l, mem) && i < |files| && lo == |Data(files[..i])|
    requires base == l.dataBegin / 4 + DirWords(|files|) && at == base + lo / 4
    requires end == at + WordsFor(|files[i].contents|)
    ensures ReadsBack(mem, at, files[i].contents)
  {
    var n := WordsFor(|files[i].contents|);
    StoredFileWords(files, mem, i, lo, lo / 4, lo / 4 + n, base, base + |Data(files)| / 4, at, end);
    StoredReadBack(mem, at, end, files[i].contents);
  }

  /** `write_fs(0, buffer, size)` with fsmaker's buffer leaves the
      directory and the stored contents in flash. */
  lemma MakerWritten(files: seq<SourceFile>, l: Layout, m: seq<u32>)
    requires MakerImageFits(files, l, m)
    ensures DirectoryStored(files, l, FsWritten(m, l.dataBegin / 4, MakerImage(files)))
    ensures StoredDataAt(files, l, FsWritten(m, l.dataBegin / 4, MakerImage(files)))
  {
    var dw := DirWords(|files|);
    var de := dw + |Data(files)| / 4;
    MakerWords(files, dw, de);
    var first := l.dataBegin / 4;
    var img := MakerImage(files);
    var mem := FsWritten(m, first, img);
    FsWrittenWords(m, first, img, first + de);
    WordsWritten(files, l, mem, WholeWords(img), first, dw, de);
  }

  /** Flash holding, from word `first` on, words whose first `dw` are the
      script's directory and whose next ones are the words of the stored
      contents holds both where the firmware looks for them. */
  lemma WordsWritten(files: seq<SourceFile>, l: Layout, mem: seq<u32>, ws: seq<u32>,
                     first: nat, dw: nat, de: nat)
    requires Buildable(files) && l.dataBegin % 4 == 0 && first == l.dataBegin / 4
    requires l.dataBegin + HeaderBytes(|files|) + |Data(files)| <= l.dataEnd
    requires dw == DirWords(|files|) && de == dw + |Data(files)| / 4 && de == |ws|
    requires ws[0 .. dw] == DirectoryOf(files) && ws[dw .. de] == WholeWords(StoredData(files))
    requires first + de <= |mem| && mem[first .. first + de] == ws
    ensures DirectoryStored(files, l, mem) && StoredDataAt(files, l, mem)
  {
    MakerWrittenData(files, l, mem, ws, first, dw, de);
    MakerWrittenDirectory(files, l, mem, ws, first, dw, de);
  }

  /** Once flash holds fsmaker's stored contents as `MakerWritten` leaves
      them (the directory it leaves is the one `DirectoryLoads` accepts),
      `load_file` accepts every file: the entry points inside the data
      area (unless the file is empty), the bytes read back are the file's
      contents, and, padded with zeros as `load_file` pads them, they match
      the entry's checksum; the `'x'` padding is never read. */
  lemma MakerFileLoads(files: seq<SourceFile>, l: Layout, mem: seq<u32>, i: nat)
    requires Buildable(files) && StoredDataAt(files, l, mem) && i < |files|
    ensures var e := EntryAt(DirectoryOf(files), i);
      && e.size == |files[i].contents|
      && |files[i].name| <= FileNameBytes && e.name == PadName(files[i].name)
      && (FileInRange(l, e) <==> |files[i].contents| != 0)
      && ReadsBack(mem, FileAddr(l, e) / 4, files[i].contents)
      && e.checksum == Checksum(WholeWords(Padded(files[i].contents)))
  {
    var at := l.dataBegin / 4 + OffsetOf(files, i) / 4;
    assert ReadsBack(mem, at, files[i].contents) by {
      MakerContentsLoad(files, l, mem, i, at);
    }
    EntryLoads(files, l, i);
    var e := EntryAt(DirectoryOf(files), i);
    assert FileAddr(l, e) / 4 == at by {
      OffsetAligned(files, i);
      DivUnique(l.dataBegin + OffsetOf(files, i), 4, at, 0);
    }
  }

  // ---------------------------------------------------------------------
  // Building the buffer.

  /** `s` with `d` written over it from byte `at` on. */
  function Spliced(s: seq<byte>, at: nat, d: seq<byte>): (r: seq<byte>)
    requires at + |d| <= |s|
    ensures |r| == |s|
    ensures forall k :: 0 <= k < |s| ==> r[k] == if at <= k < at + |d| then d[k - at] else s[k]
  {
    s[..at] + d + s[at + |d|..]
  }

  /** `d` sits at byte `at` of `s`. */
  predicate Holds(s: seq<byte>, at: nat, d: seq<byte>)
  {
    at + |d| <= |s| && s[at .. at + |d|] == d
  }

  /** What is written is there afterwards, and a run elsewhere is left
      alone. */
  lemma SplicedHolds(s: seq<byte>, at: nat, d: seq<byte>, x: nat, e: seq<byte>)
    requires at + |d| <= |s|
    ensures Holds(Spliced(s, at, d), at, d)
    ensures Holds(s, x, e) && (x + |e| <= at || at + |d| <= x) ==> Holds(Spliced(s, at, d), x, e)
  {
    var r := Spliced(s, at, d);
    assert r[at .. at + |d|] == d;
    if Holds(s, x, e) && (x + |e| <= at || at + |d| <= x) {
      assert r[x .. x + |e|] == s[x .. x + |e|];
    }
  }

  /** Two runs side by side are one run. */
  lemma HoldsJoin(s: seq<byte>, at: nat, d1: seq<byte>, d2: seq<byte>)
    requires Holds(s, at, d1) && Holds(s, at + |d1|, d2)
    ensures Holds(s, at, d1 + d2)
  {
    assert s[at .. at + |d1| + |d2|] == s[at .. at + |d1|] + s[at + |d1| .. at + |d1| + |d2|];
  }

  /** `memcpy`, `memset`, `strncpy` or a field store: the bytes of `data`
      from byte `at` of the buffer on. */
  method Put(buf: array<byte>, at: nat, data: seq<byte>)
    requires at + |data| <= buf.Length
    modifies buf
    ensures buf[..] == Spliced(old(buf[..]), at, data)
  {
    for k := 0 to |data|
      invariant buf[..] == Spliced(old(buf[..]), at, data[..k])
    {
      SplicedStep(old(buf[..]), at, data, k);
      buf[at + k] := data[k];
    }
    assert data[..|data|] == data;
  }

  /** Writing one more byte of `d` after the first `k`. */
  lemma SplicedStep(s: seq<byte>, at: nat, d: seq<byte>, k: nat)
    requires at + |d| <= |s| && k < |d|
    ensures Spliced(s, at, d[..k])[at + k := d[k]] == Spliced(s, at, d[..k + 1])
  {
    var l, r := Spliced(s, at, d[..k])[at + k := d[k]], Spliced(s, at, d[..k + 1]);
    assert forall j :: 0 <= j < |s| ==> l[j] == r[j];
  }

  /** The 28 bytes of the entry fsmaker fills in for file `i`. */
  function EntryBytes(files: seq<SourceFile>, i: nat): (b: seq<byte>)
    requires i < |files|
    ensures |b| == 4 * EntryWords
  {
    Bytes(EncodeEntry(MakerEntry(files, i)))
  }

  /** Writing `a` and then `b` right after it is writing `a + b`. */
  lemma SplicedAppend(s: seq<byte>, at: nat, a: seq<byte>, b: seq<byte>)
    requires at + |a| + |b| <= |s|
    ensures Spliced(Spliced(s, at, a), at + |a|, b) == Spliced(s, at, a + b)
  {
    var l, r := Spliced(Spliced(s, at, a), at + |a|, b), Spliced(s, at, a + b);
    assert forall k :: 0 <= k < |s| ==> l[k] == r[k];
  }

  /** Writes to separate places can be done in either order. */
  lemma SplicedCommute(s: seq<byte>, x: nat, d: seq<byte>, y: nat, e: seq<byte>)
    requires x + |d| <= |s| && y + |e| <= |s| && (x + |d| <= y || y + |e| <= x)
    ensures Spliced(Spliced(s, x, d), y, e) == Spliced(Spliced(s, y, e), x, d)
  {
    var l, r := Spliced(Spliced(s, x, d), y, e), Spliced(Spliced(s, y, e), x, d);
    assert forall k :: 0 <= k < |s| ==> l[k] == r[k];
  }

  /** Writing over the tail of what was just written replaces that tail. */
  lemma SplicedTail(s: seq<byte>, at: nat, a: seq<byte>, b: seq<byte>, b': seq<byte>)
    requires at + |a| + |b| <= |s| && |b'| == |b|
    ensures Spliced(Spliced(s, at, a + b), at + |a|, b') == Spliced(s, at, a + b')
  {
    var l, r := Spliced(Spliced(s, at, a + b), at + |a|, b'), Spliced(s, at, a + b');
    assert forall k :: 0 <= k < |s| ==> l[k] == r[k];
  }

  /** `calc_checksum(file_buf, aligned)` over a file's contents padded
      with zeros. */
  lemma PaddedChecksum(b: seq<byte>, size: nat, c: seq<byte>)
    requires b == Padded(c) && size == |b|
    ensures Checksum(WholeWords(b[..size - size % 4])) == ByteChecksum(Padded(c))
  {
    assert size % 4 == 0;
    assert b[..size] == b;
    ByteChecksumWords(b);
  }

  /** The first half of a turn of `construct`'s loop: the contents at
      byte `fb`, zeros up to a whole word, and `calc_checksum` over those
      words. */
  method PutContents(buf: array<byte>, fb: nat, c: seq<byte>) returns (checksum: u32)
    requires fb + |Padded(c)| <= buf.Length
    modifies buf
    ensures buf[..] == Spliced(old(buf[..]), fb, Padded(c))
    ensures checksum == ByteChecksum(Padded(c))
  {
    var fileSize := |c|;
    var aligned := fileSize + PadLen(fileSize);
    ghost var s0 := buf[..];
    if fileSize > 0 {
      Put(buf, fb, c);
      if aligned > fileSize {
        ghost var s1 := buf[..];
        var zs := Zeros(aligned - fileSize);
        Put(buf, fb + fileSize, zs);
        ZeroFilled(s0, s1, buf[..], fb, c, zs);
      } else {
        assert Padded(c) == c;
      }
    } else {
      SplicedNothing(s0, fb, Padded(c));
    }
    assert buf[fb .. fb + aligned] == Padded(c) by {
      SplicedHolds(s0, fb, Padded(c), 0, []);
    }
    checksum := CalcChecksumMock(buf[fb .. fb + aligned], aligned);
    PaddedChecksum(buf[fb .. fb + aligned], aligned, c);
  }

  /** `memcpy` of the contents and `memset` of the zeros after them. */
  lemma ZeroFilled(s0: seq<byte>, s1: seq<byte>, s2: seq<byte>, fb: nat, c: seq<byte>, zs: seq<byte>)
    requires fb + |Padded(c)| <= |s0| && zs == Zeros(PadLen(|c|))
    requires s1 == Spliced(s0, fb, c) && s2 == Spliced(s1, fb + |c|, zs)
    ensures s2 == Spliced(s0, fb, Padded(c))
  {
    SplicedAppend(s0, fb, c, zs);
  }

  /** Writing nothing changes nothing. */
  lemma SplicedNothing(s: seq<byte>, at: nat, d: seq<byte>)
    requires at <= |s| && d == []
    ensures Spliced(s, at, d) == s
  {
    assert Spliced(s, at, d) == s[..at] + s[at..];
  }

  /** One turn of `construct`'s loop, for file `i` whose contents go at
      byte `fb`: the contents and zeros up to a whole word, the entry
      (name, size, the checksum of those words and the offset `fb`), then
      `'x'` over the zeros. Only the file's stored bytes and its entry
      change. */
  method PutFile(buf: array<byte>, files: seq<SourceFile>, i: nat, fb: nat)
    requires i < |files| && fb == OffsetOf(files, i)
    requires fb + |Stored(files[i].contents)| <= buf.Length
    modifies buf
    ensures HeaderBytes(i + 1) <= fb
    ensures buf[..] == Spliced(Spliced(old(buf[..]), fb, Stored(files[i].contents)), HeaderBytes(i), EntryBytes(files, i))
  {
    var c := files[i].contents;
    var fileSize := |c|;
    var aligned := fileSize + PadLen(fileSize);
    ghost var s0 := buf[..];
    var checksum := PutContents(buf, fb, c);
    ghost var s1 := buf[..];
    var name := CString(files[i].name, FileNameBytes);
    var size32, offset32 := fileSize % U32, fb % U32;
    ghost var e := EntryBytes(files, i);
    PackedMakerEntry(files, i, name, size32, checksum, offset32);
    assert HeaderBytes(i + 1) <= fb;
    Put(buf, HeaderBytes(i), PackEntry(name, size32, checksum, offset32));
    if aligned > fileSize {
      ghost var s2 := buf[..];
      var xs := Xs(aligned - fileSize);
      Put(buf, fb + fileSize, xs);
      PaddingOverwritten(s0, s1, s2, buf[..], fb, c, HeaderBytes(i), e, xs);
    } else {
      assert Stored(c) == Padded(c);
    }
  }

  /** The entry fsmaker packs from the fields it computes for file `i`. */
  lemma PackedMakerEntry(files: seq<SourceFile>, i: nat, name: seq<byte>, size: u32, checksum: u32, offset: u32)
    requires i < |files| && name == CString(files[i].name, FileNameBytes)
    requires size == |files[i].contents| % U32 && checksum == ByteChecksum(Padded(files[i].contents))
    requires offset == OffsetOf(files, i) % U32
    ensures PackEntry(name, size, checksum, offset) == EntryBytes(files, i)
  {
    PackedEntry(MakerEntry(files, i), name);
  }

  /** The `'x'` written over a file's zero padding after its entry leaves
      the stored contents and the entry. */
  lemma PaddingOverwritten(s0: seq<byte>, s1: seq<byte>, s2: seq<byte>, s3: seq<byte>,
                           fb: nat, c: seq<byte>, at: nat, e: seq<byte>, xs: seq<byte>)
    requires fb + |Padded(c)| <= |s0| && at + |e| <= fb && xs == Xs(PadLen(|c|))
    requires s1 == Spliced(s0, fb, Padded(c)) && s2 == Spliced(s1, at, e)
    requires s3 == Spliced(s2, fb + |c|, xs)
    ensures s3 == Spliced(Spliced(s0, fb, Stored(c)), at, e)
  {
    assert s3 == Spliced(Spliced(s1, fb + |c|, xs), at, e) by {
      SplicedCommute(s1, at, e, fb + |c|, xs);
    }
    assert Spliced(s1, fb + |c|, xs) == Spliced(s0, fb, Stored(c)) by {
      SplicedTail(s0, fb, c, Zeros(PadLen(|c|)), xs);
    }
  }

  /** Where file `i` goes: at its offset, inside a buffer of the size
      `construct` allocates. */
  lemma StoredBound(files: seq<SourceFile>, i: nat, fb: nat, hdr: nat)
    requires i < |files| && hdr == HeaderBytes(|files|) && fb == hdr + |StoredData(files[..i])|
    ensures fb == OffsetOf(files, i) && HeaderBytes(i + 1) <= fb
    ensures fb + |Stored(files[i].contents)| <= hdr + |StoredData(files)|
  {
    StoredStep(files, i);
    StoredPrefix(files, i + 1);
  }

  /** The header words after one more entry are the bytes before it and
      the entry's. */
  lemma HeaderStep(files: seq<SourceFile>, i: nat)
    requires i < |files|
    ensures Bytes([|files| % U32] + MakerEntriesWords(files, i)) + EntryBytes(files, i)
         == Bytes([|files| % U32] + MakerEntriesWords(files, i + 1))
  {
    var before := [|files| % U32] + MakerEntriesWords(files, i);
    var e := EncodeEntry(MakerEntry(files, i));
    assert [|files| % U32] + MakerEntriesWords(files, i + 1) == before + e;
    BytesAppend(before, e);
  }

  /** What the buffer holds after the first `i` turns of `construct`'s
      loop: the magic, `num_files` and the first `i` entries, and the
      stored contents of the first `i` files. */
  predicate Built(s: seq<byte>, files: seq<SourceFile>, i: nat, hdr: nat)
    requires i <= |files|
  {
    && Holds(s, 0, WordBytes(FsMagic))
    && Holds(s, 8, Bytes([|files| % U32] + MakerEntriesWords(files, i)))
    && Holds(s, hdr, StoredData(files[..i]))
  }

  /** One turn of the loop keeps `Built`, one file further on. */
  lemma BuiltStep(s: seq<byte>, files: seq<SourceFile>, i: nat, fb: nat, hdr: nat)
    requires i < |files| && hdr == HeaderBytes(|files|) && fb == hdr + |StoredData(files[..i])|
    requires |s| == hdr + |StoredData(files)| && Built(s, files, i, hdr)
    ensures fb + |Stored(files[i].contents)| <= |s| && HeaderBytes(i + 1) <= fb
    ensures Built(Spliced(Spliced(s, fb, Stored(files[i].contents)), HeaderBytes(i), EntryBytes(files, i)), files, i + 1, hdr)
  {
    StoredBound(files, i, fb, hdr);
    var c, e := Stored(files[i].contents), EntryBytes(files, i);
    var t1 := Spliced(s, fb, c);
    var t := Spliced(t1, HeaderBytes(i), e);
    MagicKept(s, t1, t, fb, c, HeaderBytes(i), e);
    HeaderGrows(s, t1, t, files, i, fb, c);
    DataGrows(s, t1, t, files, i, fb, hdr);
  }

  lemma MagicKept(s: seq<byte>, t1: seq<byte>, t: seq<byte>, fb: nat, c: seq<byte>, at: nat, e: seq<byte>)
    requires 4 <= at && 4 <= fb && fb + |c| <= |s| && at + |e| <= |s|
    requires t1 == Spliced(s, fb, c) && t == Spliced(t1, at, e)
    requires Holds(s, 0, WordBytes(FsMagic))
    ensures Holds(t, 0, WordBytes(FsMagic))
  {
    SplicedHolds(s, fb, c, 0, WordBytes(FsMagic));
    SplicedHolds(t1, at, e, 0, WordBytes(FsMagic));
  }

  lemma HeaderGrows(s: seq<byte>, t1: seq<byte>, t: seq<byte>, files: seq<SourceFile>, i: nat, fb: nat, c: seq<byte>)
    requires i < |files| && HeaderBytes(i + 1) <= fb && fb + |c| <= |s|
    requires t1 == Spliced(s, fb, c) && t == Spliced(t1, HeaderBytes(i), EntryBytes(files, i))
    requires Holds(s, 8, Bytes([|files| % U32] + MakerEntriesWords(files, i)))
    ensures Holds(t, 8, Bytes([|files| % U32] + MakerEntriesWords(files, i + 1)))
  {
    var h, e := Bytes([|files| % U32] + MakerEntriesWords(files, i)), EntryBytes(files, i);
    SplicedHolds(s, fb, c, 8, h);
    SplicedHolds(t1, HeaderBytes(i), e, 8, h);
    HoldsJoin(t, 8, h, e);
    HeaderStep(files, i);
  }

  lemma DataGrows(s: seq<byte>, t1: seq<byte>, t: seq<byte>, files: seq<SourceFile>, i: nat, fb: nat, hdr: nat)
    requires i < |files| && hdr == HeaderBytes(|files|) && fb == hdr + |StoredData(files[..i])|
    requires fb + |Stored(files[i].contents)| <= |s|
    requires t1 == Spliced(s, fb, Stored(files[i].contents)) && t == Spliced(t1, HeaderBytes(i), EntryBytes(files, i))
    requires Holds(s, hdr, StoredData(files[..i]))
    ensures Holds(t, hdr, StoredData(files[..i + 1]))
  {
    var c, d := Stored(files[i].contents), StoredData(files[..i]);
    SplicedHolds(s, fb, c, hdr, d);
    HoldsJoin(t1, hdr, d, c);
    StoredStep(files, i);
    SplicedHolds(t1, HeaderBytes(i), EntryBytes(files, i), hdr, d + c);
  }

  /** A buffer holding the magic at byte 0, the bytes `hb` of the header
      from byte 8 and `d` after them becomes `img` once the four bytes
      `sum` are stored at byte 4. */
  lemma HeaderCompletes(s: seq<byte>, hb: seq<byte>, d: seq<byte>, hdr: nat, sum: seq<byte>, img: seq<byte>)
    requires hdr == 8 + |hb| && |s| == hdr + |d| && |sum| == 4
    requires Holds(s, 0, WordBytes(FsMagic)) && Holds(s, 8, hb) && Holds(s, hdr, d)
    requires img == WordBytes(FsMagic) + sum + hb + d
    ensures Spliced(s, 4, sum) == img
  {
    assert s == s[..4] + s[4..8] + s[8..hdr] + s[hdr..];
  }

  /** Once every entry is in, the buffer holds the magic, the header words
      and the stored contents in their places. */
  lemma BuiltAll(s: seq<byte>, files: seq<SourceFile>, hdr: nat)
    requires hdr == HeaderBytes(|files|) && |s| == hdr + |StoredData(files)|
    requires Built(s, files, |files|, hdr)
    ensures hdr == 8 + |Bytes(MakerHeaderWords(files))|
    ensures Holds(s, 0, WordBytes(FsMagic)) && Holds(s, 8, Bytes(MakerHeaderWords(files)))
    ensures Holds(s, hdr, StoredData(files))
  {
    assert files[..|files|] == files;
  }

  /** `calc_checksum(&fs->num_files, hdr_size - 8)`, when bytes 8 to
      `hdr_size` of the buffer hold the header words `h`: the checksum of
      `h`. */
  method HeaderSum(buf: array<byte>, hdr: nat, ghost h: seq<u32>) returns (checksum: u32)
    requires hdr == 8 + |Bytes(h)| && Holds(buf[..], 8, Bytes(h))
    ensures checksum == Checksum(h)
  {
    var header := buf[8 .. hdr];
    assert header == Bytes(h);
    var size := hdr - 8;
    assert size - size % 4 == size by {
      DivUnique(size, 4, |h|, 0);
    }
    checksum := CalcChecksumMock(header, size);
    assert header[..size] == header;
    WholeWordsOfBytes(h);
  }

  /** The last step of `construct`: the checksum of the header words `h`,
      which bytes 8 to `hdr_size` of the buffer hold, stored at byte 4. */
  method PutHeaderChecksum(buf: array<byte>, hdr: nat, ghost h: seq<u32>, ghost d: seq<byte>)
    requires hdr == 8 + |Bytes(h)| && buf.Length == hdr + |d|
    requires Holds(buf[..], 0, WordBytes(FsMagic)) && Holds(buf[..], 8, Bytes(h)) && Holds(buf[..], hdr, d)
    modifies buf
    ensures buf[..] == WordBytes(FsMagic) + WordBytes(Checksum(h)) + Bytes(h) + d
  {
    var checksum := HeaderSum(buf, hdr, h);
    HeaderCompletes(buf[..], Bytes(h), d, hdr, WordBytes(checksum), WordBytes(FsMagic) + WordBytes(checksum) + Bytes(h) + d);
    Put(buf, 4, WordBytes(checksum));
  }

  /** `construct`'s first loop: the header size plus each file's length
      rounded up to a whole word. */
  method ImageSize(files: seq<SourceFile>) returns (size: nat)
    ensures size == HeaderBytes(|files|) + |StoredData(files)|
  {
    size := HeaderBytes(|files|);
    for i := 0 to |files|
      invariant size == HeaderBytes(|files|) + |StoredData(files[..i])|
    {
      StoredStep(files, i);
      size := size + |files[i].contents| + PadLen(|files[i].contents|);
    }
    assert files[..|files|] == files;
  }

  /** The magic and `num_files`, the first stores into the new buffer. */
  method PutPreamble(buf: array<byte>, files: seq<SourceFile>, hdr: nat)
    requires hdr == HeaderBytes(|files|) && buf.Length == hdr + |StoredData(files)|
    modifies buf
    ensures Built(buf[..], files, 0, hdr)
  {
    Put(buf, 0, WordBytes(FsMagic));
    ghost var s0 := buf[..];
    Put(buf, 8, WordBytes(|files| % U32));
    assert Bytes([|files| % U32]) == WordBytes(|files| % U32) by {
      assert [|files| % U32][..0] == [];
    }
    SplicedHolds(s0, 8, WordBytes(|files| % U32), 0, WordBytes(FsMagic));
  }

  /** `construct`'s second loop: every file's contents and entry. */
  method PutFiles(buf: array<byte>, files: seq<SourceFile>, hdr: nat)
    requires hdr == HeaderBytes(|files|) && buf.Length == hdr + |StoredData(files)|
    requires Built(buf[..], files, 0, hdr)
    modifies buf
    ensures Built(buf[..], files, |files|, hdr)
  {
    var fb := hdr;
    var i := 0;
    while i < |files|
      invariant i <= |files| && fb == hdr + |StoredData(files[..i])|
      invariant Built(buf[..], files, i, hdr)
    {
      BuiltStep(buf[..], files, i, fb, hdr);
      StoredBound(files, i, fb, hdr);
      PutFile(buf, files, i, fb);
      StoredStep(files, i);
      fb := fb + |files[i].contents| + PadLen(|files[i].contents|);
      i := i + 1;
    }
  }

  /** `mock::fsmaker`: the buffer `construct` allocates (`nullptr` until
      then) and its size. */
  class Maker {
    var fs: array?<byte>
    var size: nat

    constructor()
      ensures fs == null && size == 0
    {
      fs := null;
      size := 0;
    }

    /** `construct(files, num_files)`: a fresh buffer of the header size
        plus each file's contents rounded up to a whole word, holding
        exactly the image `MakerImage(files)`. */
    method Construct(files: seq<SourceFile>)
      modifies this
      ensures fs != null && fresh(fs) && size == fs.Length
      ensures fs[..] == MakerImage(files)
    {
      var hdr := HeaderBytes(|files|);
      size := ImageSize(files);
      var buf := new byte[size];
      PutPreamble(buf, files, hdr);
      PutFiles(buf, files, hdr);
      BuiltAll(buf[..], files, hdr);
      PutHeaderChecksum(buf, hdr, MakerHeaderWords(files), StoredData(files));
      fs := buf;
    }
  }
}
