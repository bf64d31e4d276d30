/** The image builder and the file store together: an image that
    tools/mkfs.py builds, written to flash by `write_fs` at offset 0, is
    accepted by `init_filesystem`, and every file `load_file` reads back
    through its directory entry is the file that went into the image. */
module FlashImage {
  import opened Words
  import opened Checksums
  import opened SectorStore
  import opened FlashLayout
  import opened FileStore
  import opened Mkfs

  /** The image fits the data area of flash from `data_begin` on, and the
      sectors `write_fs` erases for it exist. */
  predicate ImageFits(files: seq<SourceFile>, l: Layout, m: seq<u32>)
  {
    && Buildable(files) && l.dataBegin % 4 == 0
    && l.dataBegin + |Image(files)| <= l.dataEnd
    && l.dataBegin / 4 + EraseCount(|Image(files)|) * WordsPerSector <= |m|
  }

  /** Flash holds the image's directory from `data_begin` on. */
  ghost predicate DirectoryStored(files: seq<SourceFile>, l: Layout, mem: seq<u32>)
  {
    && Buildable(files) && l.dataBegin % 4 == 0
    && l.dataBegin / 4 + DirWords(|files|) <= |mem|
    && mem[l.dataBegin / 4 .. l.dataBegin / 4 + DirWords(|files|)] == DirectoryOf(files)
  }

  /** Flash holds the words of the padded contents right after the
      directory, inside the data area. */
  ghost predicate DataStored(files: seq<SourceFile>, l: Layout, mem: seq<u32>)
  {
    && l.dataBegin % 4 == 0
    && l.dataBegin + HeaderBytes(|files|) + |Data(files)| <= l.dataEnd
    && l.dataBegin / 4 + DirWords(|files|) + |Data(files)| / 4 <= |mem|
    && mem[l.dataBegin / 4 + DirWords(|files|) .. l.dataBegin / 4 + DirWords(|files|) + |Data(files)| / 4]
       == WholeWords(Data(files))
  }

  /** Flash holds the whole image from `data_begin` on. */
  ghost predicate ImageStored(files: seq<SourceFile>, l: Layout, mem: seq<u32>)
  {
    DirectoryStored(files, l, mem) && DataStored(files, l, mem)
  }

  /** `write_fs(0, image)` stores the image. */
  lemma WriteFsStores(files: seq<SourceFile>, l: Layout, m: seq<u32>)
    requires ImageFits(files, l, m)
    ensures ImageStored(files, l, FsWritten(m, l.dataBegin / 4, Image(files)))
  {
    ImageLength(files);
    WrittenDirectory(files, l, m, l.dataBegin / 4, l.dataBegin / 4 + |Image(files)| / 4,
                     DirWords(|files|), l.dataBegin / 4 + DirWords(|files|));
    WrittenData(files, l, m, l.dataBegin / 4, l.dataBegin / 4 + |Image(files)| / 4,
                DirWords(|files|), DirWords(|files|) + |Data(files)| / 4,
                l.dataBegin / 4 + DirWords(|files|), l.dataBegin / 4 + DirWords(|files|) + |Data(files)| / 4);
  }

  /** The written flash holds the words `w` to `e` of the image from word
      `at` to word `end`. */
  lemma WrittenSlice(files: seq<SourceFile>, l: Layout, m: seq<u32>, first: nat, last: nat,
                     w: nat, e: nat, at: nat, end: nat)
    requires ImageFits(files, l, m) && first == l.dataBegin / 4 && last == first + |Image(files)| / 4
    requires |Image(files)| % 4 == 0 && w <= e <= |Image(files)| / 4 && at == first + w && end == first + e
    ensures end <= |FsWritten(m, first, Image(files))|
    ensures FsWritten(m, first, Image(files))[at .. end] == WholeWords(Image(files))[w .. e]
  {
    FsWrittenWords(m, first, Image(files), last);
    StoredRun(FsWritten(m, first, Image(files)), first, last, WholeWords(Image(files)), w, e, at, end);
  }

  /** The directory part of the written image. */
  lemma WrittenDirectory(files: seq<SourceFile>, l: Layout, m: seq<u32>, first: nat, last: nat,
                         dw: nat, end: nat)
    requires ImageFits(files, l, m) && first == l.dataBegin / 4 && last == first + |Image(files)| / 4
    requires |Image(files)| / 4 == DirWords(|files|) + |Data(files)| / 4 && |Image(files)| % 4 == 0
    requires dw == DirWords(|files|) && end == first + dw
    ensures DirectoryStored(files, l, FsWritten(m, first, Image(files)))
  {
    WrittenSlice(files, l, m, first, last, 0, dw, first, end);
    ImageWords(files, dw, dw + |Data(files)| / 4);
    DirectoryFrom(files, l, FsWritten(m, first, Image(files)), first, end);
  }

  /** Flash holding the directory's words from word `first` to `end` holds
      the image's directory. */
  lemma DirectoryFrom(files: seq<SourceFile>, l: Layout, mem: seq<u32>, first: nat, end: nat)
    requires Buildable(files) && l.dataBegin % 4 == 0
    requires first == l.dataBegin / 4 && end == l.dataBegin / 4 + DirWords(|files|)
    requires end <= |mem| && mem[first .. end] == DirectoryOf(files)
    ensures DirectoryStored(files, l, mem)
  {
  }

  /** The contents part of the written image. */
  lemma WrittenData(files: seq<SourceFile>, l: Layout, m: seq<u32>, first: nat, last: nat,
                    dw: nat, de: nat, at: nat, end: nat)
    requires ImageFits(files, l, m) && first == l.dataBegin / 4 && last == first + |Image(files)| / 4
    requires |Image(files)| == HeaderBytes(|files|) + |Data(files)|
    requires |Image(files)| / 4 == DirWords(|files|) + |Data(files)| / 4 && |Image(files)| % 4 == 0
    requires dw == DirWords(|files|) && de == dw + |Data(files)| / 4
    requires at == l.dataBegin / 4 + DirWords(|files|) && end == l.dataBegin / 4 + DirWords(|files|) + |Data(files)| / 4
    ensures DataStored(files, l, FsWritten(m, first, Image(files)))
  {
    WrittenSlice(files, l, m, first, last, dw, de, at, end);
    ImageWords(files, dw, de);
    DataFrom(files, l, FsWritten(m, first, Image(files)), at, end);
  }

  /** Flash holding the words of the padded contents from word `at` to
      `end`, after the directory, holds the image's contents. */
  lemma DataFrom(files: seq<SourceFile>, l: Layout, mem: seq<u32>, at: nat, end: nat)
    requires l.dataBegin % 4 == 0 && l.dataBegin + HeaderBytes(|files|) + |Data(files)| <= l.dataEnd
    requires at == l.dataBegin / 4 + DirWords(|files|) && end == l.dataBegin / 4 + DirWords(|files|) + |Data(files)| / 4
    requires end <= |mem| && mem[at .. end] == WholeWords(Data(files))
    ensures DataStored(files, l, mem)
  {
  }

  /** The words of the image: the directory's words up to `dw`, then the
      words of the padded contents up to `de`. */
  lemma ImageWords(files: seq<SourceFile>, dw: nat, de: nat)
    requires Buildable(files) && dw == DirWords(|files|) && de == dw + |Data(files)| / 4
    ensures de <= |WholeWords(Image(files))|
    ensures WholeWords(Image(files))[0 .. dw] == DirectoryOf(files)
    ensures WholeWords(Image(files))[dw .. de] == WholeWords(Data(files))
  {
    ImageDirectory(files);
    ConcatRuns(WholeWords(Image(files)), DirectoryOf(files), WholeWords(Data(files)), dw, de);
  }

  /** The two runs of a concatenation. */
  lemma ConcatRuns(s: seq<u32>, a: seq<u32>, b: seq<u32>, na: nat, nab: nat)
    requires s == a + b && na == |a| && nab == |a| + |b|
    ensures nab <= |s| && s[0 .. na] == a && s[na .. nab] == b
  {
  }

  /** The image is the directory and the padded contents, whole words. */
  lemma ImageLength(files: seq<SourceFile>)
    requires Buildable(files)
    ensures |Image(files)| == HeaderBytes(|files|) + |Data(files)| && |Image(files)| % 4 == 0
    ensures |Image(files)| / 4 == DirWords(|files|) + |Data(files)| / 4
  {
    var d, D := DirectoryOf(files), Data(files);
    assert |Image(files)| == |Bytes(d)| + |D|;
    WordsThenAligned(|Image(files)|, |Bytes(d)|, |D|, |files|);
  }

  /** A directory of `n` files in bytes, then a word-aligned run. */
  lemma WordsThenAligned(total: nat, dir: nat, rest: nat, n: nat)
    requires total == dir + rest && dir == 4 * DirWords(n) && rest % 4 == 0
    ensures total == HeaderBytes(n) + rest && total % 4 == 0
    ensures total / 4 == DirWords(n) + rest / 4
  {
    DivUnique(total, 4, DirWords(n) + rest / 4, 0);
  }

  /** `init_filesystem` finds the image's directory at `data_begin`
      exactly when the image holds between 1 and `max_files` files. */
  lemma DirectoryLoads(files: seq<SourceFile>, l: Layout, mem: seq<u32>)
    requires DirectoryStored(files, l, mem)
    ensures DirectoryAt(l, mem, DirectoryOf(files)) <==> 1 <= |files| <= MaxFiles
  {
    DirectoryOfValid(files);
  }

  /** The entry the loader finds for file `i`: its name padded to 16
      bytes, its size, the checksum of its padded contents, an address
      inside the data area, and a range `load_file` accepts unless the
      file is empty. */
  lemma EntryLoads(files: seq<SourceFile>, l: Layout, i: nat)
    requires Buildable(files) && i < |files|
    requires l.dataBegin % 4 == 0 && l.dataBegin + HeaderBytes(|files|) + |Data(files)| <= l.dataEnd
    ensures var e := EntryAt(DirectoryOf(files), i);
      && |files[i].name| <= FileNameBytes && e.name == PadName(files[i].name)
      && e.size == |files[i].contents|
      && e.checksum == Checksum(WholeWords(Padded(files[i].contents)))
      && FileAddr(l, e) == l.dataBegin + OffsetOf(files, i)
      && (FileInRange(l, e) <==> |files[i].contents| != 0)
  {
    var c, e := files[i].contents, EntryAt(DirectoryOf(files), i);
    assert e == ImageEntry(files, i) by {
      DirectoryEntryAt(files, i);
    }
    assert e.offset + e.size <= HeaderBytes(|files|) + |Data(files)| by {
      DataAt(files, i);
    }
    assert e.offset % 4 == 0 by {
      OffsetAligned(files, i);
    }
    EntryInDataArea(l, e, HeaderBytes(|files|) + |Data(files)|);
    ByteChecksumWords(Padded(c));
  }

  /** Every file starts on a word boundary after the directory. */
  lemma OffsetAligned(files: seq<SourceFile>, i: nat)
    requires i <= |files|
    ensures OffsetOf(files, i) % 4 == 0 && HeaderBytes(|files|) <= OffsetOf(files, i)
  {
    HeaderPlusAligned(OffsetOf(files, i), |files|, |Data(files[..i])|);
  }

  lemma HeaderPlusAligned(off: nat, n: nat, a: nat)
    requires off == HeaderBytes(n) + a && a % 4 == 0
    ensures off % 4 == 0 && HeaderBytes(n) <= off
  {
  }

  /** Flash holds the words of file `i`'s padded contents from word
      `(data_begin + offset) / 4` on. */
  lemma FileStored(files: seq<SourceFile>, l: Layout, mem: seq<u32>, i: nat, at: nat, end: nat)
    requires DataStored(files, l, mem) && i < |files|
    requires at == l.dataBegin / 4 + OffsetOf(files, i) / 4 && end == at + WordsFor(|files[i].contents|)
    ensures OffsetOf(files, i) % 4 == 0
    ensures end <= |mem| && mem[at .. end] == WholeWords(Padded(files[i].contents))
  {
    var lo := |Data(files[..i])|;
    FileWord(l.dataBegin, OffsetOf(files, i), lo, |files|);
    DataWordsAt(files, l, mem, i, lo, at, end);
  }

  /** Flash holds the words of file `i`'s padded contents from word `at`,
      after the directory's words and the words of the files before it. */
  lemma DataWordsAt(files: seq<SourceFile>, l: Layout, mem: seq<u32>, i: nat, lo: nat, at: nat, end: nat)
    requires DataStored(files, l, mem) && i < |files| && lo == |Data(files[..i])|
    requires at == l.dataBegin / 4 + DirWords(|files|) + lo / 4 && end == at + WordsFor(|files[i].contents|)
    ensures end <= |mem| && mem[at .. end] == WholeWords(Padded(files[i].contents))
  {
    StoredFile(files, mem, i, lo, lo + |Padded(files[i].contents)|, lo / 4, lo / 4 + WordsFor(|files[i].contents|),
               l.dataBegin / 4 + DirWords(|files|), l.dataBegin / 4 + DirWords(|files|) + |Data(files)| / 4,
               at, end);
  }

  /** The same, with every bound named: file `i`'s bytes `lo` to `hi` of the
      contents, words `w` to `e` of the contents, and words `at` to `end`
      of flash, inside the contents' words `base` to `top`. */
  lemma StoredFile(files: seq<SourceFile>, mem: seq<u32>, i: nat, lo: nat, hi: nat,
                   w: nat, e: nat, base: nat, top: nat, at: nat, end: nat)
    requires i < |files| && base <= top <= |mem| && mem[base .. top] == WholeWords(Data(files))
    requires lo == |Data(files[..i])| && hi == lo + |Padded(files[i].contents)|
    requires w == lo / 4 && e == w + WordsFor(|files[i].contents|)
    requires at == base + w && end == at + WordsFor(|files[i].contents|)
    ensures end <= |mem| && mem[at .. end] == WholeWords(Padded(files[i].contents))
  {
    DataFileWords(files, i, lo, hi, w, e);
    StoredRun(mem, base, top, WholeWords(Data(files)), w, e, at, end);
  }

  /** The words of file `i`'s padded contents among the words of all
      padded contents. */
  lemma DataFileWords(files: seq<SourceFile>, i: nat, lo: nat, hi: nat, w: nat, e: nat)
    requires i < |files|
    requires lo == |Data(files[..i])| && hi == lo + |Padded(files[i].contents)|
    requires w == lo / 4 && e == w + WordsFor(|files[i].contents|)
    ensures e <= |WholeWords(Data(files))| && WholeWords(Data(files))[w .. e] == WholeWords(Padded(files[i].contents))
  {
    DataSlot(files, i, lo, hi);
    WholeWordsRun(Data(files), lo, hi, w, e);
  }

  /** The word of a file's offset: the directory's words, then the words
      of the padded contents before it. */
  lemma FileWord(begin: nat, off: nat, a: nat, n: nat)
    requires off == HeaderBytes(n) + a && a % 4 == 0
    ensures off % 4 == 0 && begin / 4 + off / 4 == begin / 4 + DirWords(n) + a / 4
  {
    DivUnique(off, 4, DirWords(n) + a / 4, 0);
  }

  /** The bytes `load_file` reads from the word of file `i` are the file's
      contents. */
  lemma ContentsLoad(files: seq<SourceFile>, l: Layout, mem: seq<u32>, i: nat, at: nat)
    requires DataStored(files, l, mem) && i < |files| && at == l.dataBegin / 4 + OffsetOf(files, i) / 4
    ensures OffsetOf(files, i) % 4 == 0 && at + WordsFor(|files[i].contents|) <= |mem|
    ensures FlashBytes(mem, at, |files[i].contents|) == files[i].contents
  {
    var c := files[i].contents;
    var end := at + WordsFor(|c|);
    FileStored(files, l, mem, i, at, end);
    StoredFileReadBack(mem, at, end, c);
  }
}
