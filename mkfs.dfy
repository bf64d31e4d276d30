/** The image builder tools/mkfs.py: it reads every file of a directory,
    pads each file's contents with zeros to whole words, and writes an image
    made of the directory (magic, header checksum, `num_files` and one
    28-byte entry per file) followed by the padded contents in order. The
    image is what `write_fs` stores at `data_begin`. Directory listing and
    file reading are I/O: the files arrive as a sequence of names and
    contents. */
module Mkfs {
  import opened Words
  import opened Wrappers
  import opened Checksums
  import opened SectorStore
  import opened FlashLayout
  import opened FileStore

  /** A file of the source directory: its name, as bytes, and its contents. */
  datatype SourceFile = SourceFile(name: seq<byte>, contents: seq<byte>)

  /** An `Entry` object: the name, the unpadded size, the checksum of the
      padded contents and the padded contents. */
  datatype Entry = Entry(name: seq<byte>, size: nat, checksum: u32, contents: seq<byte>)

  /** `fs_hdr_size`: 28 bytes per entry and the 12-byte header. */
  function HeaderBytes(n: nat): nat
  {
    28 * n + 12
  }

  /** The padded contents of `files`, one after the other. */
  function Data(files: seq<SourceFile>): (d: seq<byte>)
    ensures |d| % 4 == 0
  {
    if files == [] then []
    else Data(files[..|files| - 1]) + Padded(files[|files| - 1].contents)
  }

  /** The image-relative offset of file `i`: the directory, then the padded
      contents of the files before it. */
  function OffsetOf(files: seq<SourceFile>, i: nat): nat
    requires i <= |files|
  {
    HeaderBytes(|files|) + |Data(files[..i])|
  }

  /** File `i` can be packed: a name of at most 16 bytes (longer names are
      rejected), and a size and an offset that `struct.pack("<I")` accepts. */
  predicate EntryFits(files: seq<SourceFile>, i: nat)
    requires i < |files|
  {
    |files[i].name| <= FileNameBytes && |files[i].contents| < U32 && OffsetOf(files, i) < U32
  }

  /** The first `k` files can be packed. */
  predicate AllFit(files: seq<SourceFile>, k: nat)
    requires k <= |files|
  {
    k == 0 || (AllFit(files, k - 1) && EntryFits(files, k - 1))
  }

  lemma {:induction false} AllFitAt(files: seq<SourceFile>, k: nat, j: nat)
    requires j < k <= |files| && AllFit(files, k)
    ensures EntryFits(files, j)
  {
    if j < k - 1 {
      AllFitAt(files, k - 1, j);
    }
  }

  lemma AllFitPrev(files: seq<SourceFile>, k: nat)
    requires 0 < k <= |files| && AllFit(files, k)
    ensures AllFit(files, k - 1) && EntryFits(files, k - 1)
  {
  }

  lemma AllFitNext(files: seq<SourceFile>, i: nat)
    requires i < |files| && AllFit(files, i) && EntryFits(files, i)
    ensures AllFit(files, i + 1)
  {
  }

  /** The builder produces an image: every file can be packed, and so can
      the file count. */
  predicate Buildable(files: seq<SourceFile>)
  {
    |files| < U32 && AllFit(files, |files|)
  }

  /** The directory entry of file `i`, as `init_filesystem` reads it. */
  function ImageEntry(files: seq<SourceFile>, i: nat): (e: FileEntry)
    requires i < |files| && EntryFits(files, i)
    ensures |e.name| == FileNameBytes
  {
    var f := files[i];
    FileEntry(PadName(f.name), |f.contents|, ByteChecksum(Padded(f.contents)), OffsetOf(files, i))
  }

  /** The words of the first `k` entries. */
  function EntriesWords(files: seq<SourceFile>, k: nat): (ws: seq<u32>)
    requires k <= |files| && AllFit(files, k)
    ensures |ws| == EntryWords * k
  {
    if k == 0 then [] else EntriesWords(files, k - 1) + EncodeEntry(ImageEntry(files, k - 1))
  }

  /** `fs_hdr`: the file count and the entries. */
  function HeaderWordsOf(files: seq<SourceFile>): (ws: seq<u32>)
    requires Buildable(files)
    ensures |ws| == 1 + EntryWords * |files|
  {
    [|files|] + EntriesWords(files, |files|)
  }

  /** The directory: magic, `Checksum(fs_hdr)`, then `fs_hdr`. */
  function DirectoryOf(files: seq<SourceFile>): (d: seq<u32>)
    requires Buildable(files)
    ensures |d| == DirWords(|files|)
  {
    [FsMagic, Checksum(HeaderWordsOf(files))] + HeaderWordsOf(files)
  }

  /** The image file the builder writes. */
  function Image(files: seq<SourceFile>): (b: seq<byte>)
    requires Buildable(files)
  {
    Bytes(DirectoryOf(files)) + Data(files)
  }

  /** `Entry(filename)`: rejects a name longer than 16 bytes, pads the
      contents with zeros to a multiple of 4, records the unpadded size and
      the checksum of the padded contents. */
  method MakeEntry(f: SourceFile) returns (r: Option<Entry>)
    ensures r.Some? <==> |f.name| <= FileNameBytes
    ensures r.Some? ==> r.value.name == f.name && r.value.size == |f.contents|
    ensures r.Some? ==> r.value.contents == Padded(f.contents)
    ensures r.Some? ==> r.value.checksum == ByteChecksum(Padded(f.contents))
  {
    if |f.name| > FileNameBytes {
      return None;
    }
    var contents := f.contents;
    var size := |contents|;
    if size % 4 != 0 {
      contents := contents + Zeros(4 - size % 4);
    }
    var checksum := ChecksumBytes(contents);
    r := Some(Entry(f.name, size, checksum, contents));
  }

  /** `struct.pack("<16sIII", name, size, checksum, offset)`. */
  function PackEntry(name: seq<byte>, size: u32, checksum: u32, offset: u32): (b: seq<byte>)
    requires |name| <= FileNameBytes
  {
    PadName(name) + WordBytes(size) + WordBytes(checksum) + WordBytes(offset)
  }

  /** The packed entry is the bytes of the entry's words. */
  lemma PackedEntry(e: FileEntry, name: seq<byte>)
    requires |name| <= FileNameBytes && e.name == PadName(name)
    ensures Bytes(EncodeEntry(e)) == PackEntry(name, e.size, e.checksum, e.offset)
  {
    var w := WholeWords(e.name);
    BytesAppend(w, [e.size, e.checksum, e.offset]);
    BytesOfWholeWords(e.name);
    assert [e.size, e.checksum, e.offset][..2] == [e.size, e.checksum];
    assert [e.size, e.checksum][..1] == [e.size];
    assert [e.size][..0] == [];
    assert Bytes([e.size]) == WordBytes(e.size);
    assert Bytes([e.size, e.checksum]) == Bytes([e.size]) + WordBytes(e.checksum);
    assert Bytes([e.size, e.checksum, e.offset]) == Bytes([e.size, e.checksum]) + WordBytes(e.offset);
  }

  /** The bytes of two words. */
  lemma BytesOfPair(x: u32, y: u32, rest: seq<u32>)
    ensures Bytes([x, y] + rest) == WordBytes(x) + WordBytes(y) + Bytes(rest)
  {
    BytesAppend([x, y], rest);
    assert [x, y][..1] == [x];
    assert [x][..0] == [];
  }

  /** The word of the file count and the bytes `struct.pack("<I", n)` gives. */
  lemma BytesOfOne(x: u32)
    ensures Bytes([x]) == WordBytes(x)
  {
    assert [x][..0] == [];
  }

  /** The `Entry` object the builder makes of a file whose name fits. */
  function EntryOf(f: SourceFile): Entry
  {
    Entry(f.name, |f.contents|, ByteChecksum(Padded(f.contents)), Padded(f.contents))
  }

  /** `list(map(Entry, files))`: stops at the first name that is too long. */
  method MakeEntries(files: seq<SourceFile>) returns (r: Option<seq<Entry>>)
    ensures r.None? <==> exists j :: 0 <= j < |files| && |files[j].name| > FileNameBytes
    ensures r.Some? ==> |r.value| == |files|
    ensures r.Some? ==> forall j :: 0 <= j < |files| ==> |files[j].name| <= FileNameBytes && r.value[j] == EntryOf(files[j])
  {
    var entries: seq<Entry> := [];
    var i := 0;
    while i < |files|
      invariant i <= |files| && |entries| == i
      invariant forall j :: 0 <= j < i ==> |files[j].name| <= FileNameBytes && entries[j] == EntryOf(files[j])
    {
      var e := MakeEntry(files[i]);
      if e.None? {
        return None;
      }
      assert e.value == EntryOf(files[i]);
      entries := entries + [e.value];
      i := i + 1;
    }
    r := Some(entries);
  }

  /** One more file's padded contents at the end of the data. */
  lemma DataStep(files: seq<SourceFile>, i: nat)
    requires i < |files|
    ensures Data(files[..i + 1]) == Data(files[..i]) + Padded(files[i].contents)
  {
    assert files[..i + 1][..i] == files[..i];
  }

  lemma SeqAssoc<T>(a: seq<T>, b: seq<T>, c: seq<T>)
    ensures a + (b + c) == (a + b) + c
  {
  }

  /** Packing one more entry appends the bytes of its words. */
  lemma AppendPacked(before: seq<u32>, e: FileEntry, name: seq<byte>)
    requires |name| <= FileNameBytes && e.name == PadName(name)
    ensures Bytes(before) + PackEntry(name, e.size, e.checksum, e.offset) == Bytes(before + EncodeEntry(e))
  {
    PackedEntry(e, name);
    BytesAppend(before, EncodeEntry(e));
  }

  /** The same on words: `fs_hdr` followed by one more packed entry. */
  lemma PackedAfter(n: u32, ew: seq<u32>, rest: seq<u32>, hdr: seq<byte>, f: FileEntry, e: Entry, offset: nat)
    requires offset < U32 && e.size < U32 && |e.name| <= FileNameBytes
    requires f == FileEntry(PadName(e.name), e.size, e.checksum, offset)
    requires hdr == Bytes([n] + ew) && rest == ew + EncodeEntry(f)
    ensures hdr + PackEntry(e.name, e.size, e.checksum, offset) == Bytes([n] + rest)
  {
    var before: seq<u32> := [n] + ew;
    assert [n] + rest == before + EncodeEntry(f) by {
      SeqAssoc([n], ew, EncodeEntry(f));
    }
    AppendPacked(before, f, e.name);
  }

  /** One more packed entry at the end of `fs_hdr`. */
  lemma HeaderStep(files: seq<SourceFile>, i: nat, n: u32, hdr: seq<byte>, e: Entry, offset: nat)
    requires i < |files| == n && AllFit(files, i) && EntryFits(files, i)
    requires hdr == Bytes([n] + EntriesWords(files, i))
    requires e == EntryOf(files[i]) && offset == OffsetOf(files, i)
    ensures e.size < U32 && offset < U32 && |e.name| <= FileNameBytes
    ensures hdr + PackEntry(e.name, e.size, e.checksum, offset) == Bytes([n] + EntriesWords(files, i + 1))
  {
    var f := ImageEntry(files, i);
    assert f == FileEntry(PadName(e.name), e.size, e.checksum, offset);
    AllFitNext(files, i);
    assert EntriesWords(files, i + 1) == EntriesWords(files, i) + EncodeEntry(f);
    PackedAfter(n, EntriesWords(files, i), EntriesWords(files, i + 1), hdr, f, e, offset);
  }

  /** One turn of the builder's loop over the entries, on the `Entry` of
      file `i` at `offset`, the data so far plus the header size: whether
      `struct.pack` accepts it, and the data and header after it. */
  lemma PackStep(files: seq<SourceFile>, i: nat, n: u32, data: seq<byte>, hdr: seq<byte>, e: Entry, offset: nat)
    requires i < |files| == n && AllFit(files, i) && |files[i].name| <= FileNameBytes
    requires data == Data(files[..i]) && hdr == Bytes([n] + EntriesWords(files, i))
    requires e == EntryOf(files[i]) && offset == |data| + HeaderBytes(n)
    ensures offset == OffsetOf(files, i)
    ensures EntryFits(files, i) <==> offset < U32 && e.size < U32
    ensures EntryFits(files, i) ==> AllFit(files, i + 1) && data + e.contents == Data(files[..i + 1])
    ensures EntryFits(files, i) ==>
      hdr + PackEntry(e.name, e.size, e.checksum, offset) == Bytes([n] + EntriesWords(files, i + 1))
  {
    assert offset == OffsetOf(files, i);
    if EntryFits(files, i) {
      AllFitNext(files, i);
      HeaderStep(files, i, n, hdr, e, offset);
      DataStep(files, i);
    }
  }

  /** The loop over the entries: each offset is the data so far plus the
      header size, and `struct.pack` refuses an offset or a size that does
      not fit 32 bits. */
  method PackFiles(files: seq<SourceFile>, entries: seq<Entry>) returns (r: Option<(seq<byte>, seq<byte>)>)
    requires |files| < U32 && |entries| == |files|
    requires forall j :: 0 <= j < |files| ==> |files[j].name| <= FileNameBytes && entries[j] == EntryOf(files[j])
    ensures r.Some? <==> Buildable(files)
    ensures r.Some? ==> r.value.0 == Bytes(HeaderWordsOf(files)) && r.value.1 == Data(files)
  {
    var hdrSize := 28 * |files| + 12;
    var data: seq<byte> := [];
    var n: u32 := |files|;
    var hdr := WordBytes(n);
    BytesOfOne(n);
    var i := 0;
    while i < |entries|
      invariant i <= |files| && AllFit(files, i)
      invariant data == Data(files[..i])
      invariant hdr == Bytes([n] + EntriesWords(files, i))
    {
      var e := entries[i];
      var offset := |data| + hdrSize;
      PackStep(files, i, n, data, hdr, e, offset);
      if offset >= U32 || e.size >= U32 {
        assert !AllFit(files, |files|) by {
          if AllFit(files, |files|) {
            AllFitAt(files, |files|, i);
          }
        }
        return None;
      }
      hdr := hdr + PackEntry(e.name, e.size, e.checksum, offset);
      data := data + e.contents;
      i := i + 1;
    }
    assert files[..|files|] == files;
    r := Some((hdr, data));
  }

  /** The main script: build the entries, then the header and the data, and
      write the magic, the header checksum, the header and the data. */
  method BuildImage(files: seq<SourceFile>) returns (r: Option<seq<byte>>)
    ensures r.Some? <==> Buildable(files)
    ensures r.Some? ==> r.value == Image(files)
  {
    var entries := MakeEntries(files);
    if entries.None? {
      NameTooLong(files);
      return None;
    }
    if |files| >= U32 {
      return None;
    }
    var packed := PackFiles(files, entries.value);
    if packed.None? {
      return None;
    }
    var hdr, data := packed.value.0, packed.value.1;
    assert |hdr| % 4 == 0 by {
      DivUnique(|hdr|, 4, |HeaderWordsOf(files)|, 0);
    }
    var checksum := ChecksumBytes(hdr);
    var img := WordBytes(FsMagic) + WordBytes(checksum) + hdr + data;
    ImageOfParts(files, hdr, data, checksum, img);
    r := Some(img);
  }

  /** The bytes the script writes are the image. */
  lemma ImageOfParts(files: seq<SourceFile>, hdr: seq<byte>, data: seq<byte>, checksum: u32, img: seq<byte>)
    requires Buildable(files) && hdr == Bytes(HeaderWordsOf(files)) && data == Data(files)
    requires checksum == Checksum(WholeWords(hdr))
    requires img == WordBytes(FsMagic) + WordBytes(checksum) + hdr + data
    ensures img == Image(files)
  {
    DirectoryBytes(files, hdr, checksum);
  }

  /** A name longer than 16 bytes makes the files unbuildable. */
  lemma NameTooLong(files: seq<SourceFile>)
    requires exists j :: 0 <= j < |files| && |files[j].name| > FileNameBytes
    ensures !Buildable(files)
  {
    var j :| 0 <= j < |files| && |files[j].name| > FileNameBytes;
    if AllFit(files, |files|) {
      AllFitAt(files, |files|, j);
    }
  }

  /** The magic, the checksum of the header bytes and the header bytes are
      the bytes of the directory. */
  lemma DirectoryBytes(files: seq<SourceFile>, hdr: seq<byte>, checksum: u32)
    requires Buildable(files) && hdr == Bytes(HeaderWordsOf(files)) && checksum == Checksum(WholeWords(hdr))
    ensures WordBytes(FsMagic) + WordBytes(checksum) + hdr == Bytes(DirectoryOf(files))
  {
    WholeWordsOfBytes(HeaderWordsOf(files));
    BytesOfPair(FsMagic, checksum, HeaderWordsOf(files));
  }

  // ---------------------------------------------------------------------
  // The image as the firmware reads it.

  /** The data of the first `k` files is a prefix of the data of all. */
  lemma {:induction false} DataPrefix(files: seq<SourceFile>, k: nat)
    requires k <= |files|
    ensures |Data(files[..k])| <= |Data(files)| && Data(files)[..|Data(files[..k])|] == Data(files[..k])
    decreases |files|
  {
    if k == |files| {
      assert files[..k] == files;
    } else {
      var init := files[..|files| - 1];
      assert init[..k] == files[..k];
      DataPrefix(init, k);
    }
  }

  /** Each file's padded contents follow the files before it: the next
      offset is this one plus the padded size, and the contents sit there. */
  lemma DataAt(files: seq<SourceFile>, i: nat)
    requires i < |files|
    ensures OffsetOf(files, i) + |Padded(files[i].contents)| == OffsetOf(files, i + 1)
    ensures OffsetOf(files, i + 1) <= HeaderBytes(|files|) + |Data(files)|
    ensures var at := |Data(files[..i])|;
      Data(files)[at .. at + |Padded(files[i].contents)|] == Padded(files[i].contents)
  {
    DataStep(files, i);
    DataPrefix(files, i + 1);
  }

  /** File `i`'s padded contents sit, word-aligned, after those of the
      files before it, between `lo` and `hi`. */
  lemma DataSlot(files: seq<SourceFile>, i: nat, lo: nat, hi: nat)
    requires i < |files| && lo == |Data(files[..i])| && hi == lo + |Padded(files[i].contents)|
    ensures lo % 4 == 0 && hi <= |Data(files)| && Data(files)[lo .. hi] == Padded(files[i].contents)
  {
    DataStep(files, i);
    DataPrefix(files, i + 1);
  }

  /** The padded contents of file `i` sit at its offset in the image. */
  lemma ImageFileAt(files: seq<SourceFile>, i: nat)
    requires Buildable(files) && i < |files|
    ensures OffsetOf(files, i) + |Padded(files[i].contents)| <= |Image(files)|
    ensures Image(files)[OffsetOf(files, i) .. OffsetOf(files, i) + |Padded(files[i].contents)|] == Padded(files[i].contents)
  {
    var c := Padded(files[i].contents);
    var lo := OffsetOf(files, i);
    ImageFileRun(files, i, c, |Data(files[..i])|, lo, lo + |c|);
  }

  /** The same, with the bounds `at`, `lo` and `hi` of the run named. */
  lemma ImageFileRun(files: seq<SourceFile>, i: nat, c: seq<byte>, at: nat, lo: nat, hi: nat)
    requires Buildable(files) && i < |files| && c == Padded(files[i].contents)
    requires at == |Data(files[..i])| && lo == OffsetOf(files, i) && hi == lo + |c|
    ensures hi <= |Image(files)| && Image(files)[lo .. hi] == c
  {
    DataAt(files, i);
    var lead := Bytes(DirectoryOf(files));
    assert |lead| == HeaderBytes(|files|);
    assert Data(files)[at .. at + |c|] == c;
    SliceShiftAt(lead, Data(files), at, at + |c|, lo, hi);
  }

  /** The words of the image: the directory, then the words of the padded
      contents. */
  lemma ImageDirectory(files: seq<SourceFile>)
    requires Buildable(files)
    ensures WholeWords(Image(files)) == DirectoryOf(files) + WholeWords(Data(files))
  {
    var d := DirectoryOf(files);
    WholeWordsAppend(Bytes(d), Data(files));
    WholeWordsOfBytes(d);
  }

  /** `init_filesystem` accepts the image's directory exactly when there
      are between 1 and `max_files` files. */
  lemma DirectoryOfValid(files: seq<SourceFile>)
    requires Buildable(files)
    ensures ValidDirectory(DirectoryOf(files)) <==> 1 <= |files| <= MaxFiles
  {
    var d := DirectoryOf(files);
    assert d[2] == |files| && d[2..] == HeaderWordsOf(files);
  }

  /** Entry `i` of the first `k` entries' words, words `lo` to `hi`. */
  lemma {:induction false} EntriesWordsAt(files: seq<SourceFile>, i: nat, k: nat, lo: nat, hi: nat)
    requires i < k <= |files| && AllFit(files, k)
    requires lo == EntryWords * i && hi == lo + EntryWords
    ensures EntryFits(files, i) && hi <= |EntriesWords(files, k)|
    ensures EntriesWords(files, k)[lo..hi] == EncodeEntry(ImageEntry(files, i))
    decreases k
  {
    if k == i + 1 {
      EntriesWordsLast(files, i, lo, hi);
    } else {
      AllFitPrev(files, k);
      EntriesWordsAt(files, i, k - 1, lo, hi);
      SliceOfFront(EntriesWords(files, k - 1), EncodeEntry(ImageEntry(files, k - 1)), lo, hi);
    }
  }

  /** The last entry's words, words `lo` to `hi`, end the entries' words. */
  lemma EntriesWordsLast(files: seq<SourceFile>, i: nat, lo: nat, hi: nat)
    requires i < |files| && AllFit(files, i + 1)
    requires lo == EntryWords * i && hi == lo + EntryWords
    ensures EntryFits(files, i) && hi == |EntriesWords(files, i + 1)|
    ensures EntriesWords(files, i + 1)[lo..hi] == EncodeEntry(ImageEntry(files, i))
  {
    var before, last := EntriesWords(files, i), EncodeEntry(ImageEntry(files, i));
    SliceLast(before, last);
  }

  /** Entry `i` of the image's directory is file `i`'s entry. */
  lemma DirectoryEntryAt(files: seq<SourceFile>, i: nat)
    requires Buildable(files) && i < |files|
    ensures DirWords(i + 1) <= |DirectoryOf(files)| && AllFit(files, |files|) && EntryFits(files, i)
    ensures EntryAt(DirectoryOf(files), i) == ImageEntry(files, i)
  {
    AllFitAt(files, |files|, i);
    var h := HeaderWordsOf(files);
    var ew := EntriesWords(files, |files|);
    var lo := EntryWords * i;
    var hi := lo + EntryWords;
    assert ew[lo..hi] == EncodeEntry(ImageEntry(files, i)) by {
      EntriesWordsAt(files, i, |files|, lo, hi);
    }
    DirectoryEntryWords(FsMagic, Checksum(h), |files|, ew, i, lo, hi);
    DecodeEncodeEntry(ImageEntry(files, i));
  }

  /** Entry `i` of a directory is read from words `3 + 7 i` on, that is
      from word `lo == 7 i` of the entries' words. */
  lemma DirectoryEntryWords(magic: u32, checksum: u32, n: u32, ew: seq<u32>, i: nat, lo: nat, hi: nat)
    requires lo == EntryWords * i && hi == lo + EntryWords && hi <= |ew|
    ensures DirWords(i + 1) <= |[magic, checksum] + ([n] + ew)|
    ensures EntryAt([magic, checksum] + ([n] + ew), i) == DecodeEntry(ew[lo..hi])
  {
    var lead: seq<u32> := [magic, checksum, n];
    assert [magic, checksum] + ([n] + ew) == lead + ew;
    SliceShift(lead, ew, lo, hi);
  }
}
