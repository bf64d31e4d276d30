/** The SPI flash as the firmware sees it through `spi_flash_erase_sector`,
    `spi_flash_write` and `spi_flash_read`, with the contract the unit-test
    mock (tests/mock.cpp) enforces: erasing fills a 4096-byte sector with
    0xFF, and a write must start on a sector boundary and find every byte of
    the sectors it covers erased. The flash is held as little-endian 32-bit
    words (every access in the firmware is word-aligned); each operation may
    also fail, as the hardware may, in which case nothing changes. */
module SectorStore {
  import opened Words

  const WordsPerSector: nat := 1024
  const SectorBytes: nat := 4096

  /** `m` with the words from `start` on replaced by `data`. */
  function Overwrite(m: seq<u32>, start: nat, data: seq<u32>): (r: seq<u32>)
    requires start + |data| <= |m|
    ensures |r| == |m|
    ensures forall j :: 0 <= j < |m| ==> r[j] == if start <= j < start + |data| then data[j - start] else m[j]
  {
    seq(|m|, j requires 0 <= j < |m| => if start <= j < start + |data| then data[j - start] else m[j])
  }

  /** The overwritten words read back as the data. */
  lemma OverwriteSlice(m: seq<u32>, start: nat, data: seq<u32>)
    requires start + |data| <= |m|
    ensures Overwrite(m, start, data)[start .. start + |data|] == data
  {
  }

  /** Two writes side by side are one write of both. */
  lemma OverwriteAdjacent(m: seq<u32>, start: nat, a: seq<u32>, b: seq<u32>)
    requires start + |a| + |b| <= |m|
    ensures Overwrite(Overwrite(m, start, a), start + |a|, b) == Overwrite(m, start, a + b)
  {
  }

  /** Sector `k` of a flash of `n` sectors lies inside it. */
  lemma SectorInFlash(k: nat, n: nat)
    requires k < n
    ensures (k + 1) * WordsPerSector <= n * WordsPerSector
  {
  }

  /** A sector's worth of erased words. */
  function Blank(n: nat): (r: seq<u32>)
    ensures |r| == n && forall j :: 0 <= j < n ==> r[j] == Ones
  {
    seq(n, _ => Ones)
  }

  /** Words of whole sectors that a write of `n` words from a sector
      boundary touches (the mock rounds the byte size up to 4096). */
  function CoveredWords(n: nat): (c: nat)
    ensures n <= c && c % WordsPerSector == 0 && (n == 0 ==> c == 0)
  {
    if n == 0 then 0 else ((n - 1) / WordsPerSector + 1) * WordsPerSector
  }

  /** Every word of `m` in `[first, first + n)` that exists reads as erased. */
  ghost predicate ErasedWords(m: seq<u32>, first: nat, n: nat)
  {
    forall j :: first <= j < first + n && j < |m| ==> m[j] == Ones
  }

  /** Erased words read as erased. */
  lemma BlankErased(m: seq<u32>, first: nat, n: nat)
    requires first + n <= |m|
    ensures ErasedWords(Overwrite(m, first, Blank(n)), first, n)
  {
  }

  class Flash {
    const numSectors: nat
    var mem: seq<u32>

    ghost predicate Valid()
      reads this
    {
      |mem| == numSectors * WordsPerSector
    }

    /** The 1024 words of sector `k`. */
    function Sector(k: nat): (s: seq<u32>)
      reads this
      requires Valid() && k < numSectors
      ensures |s| == WordsPerSector
    {
      mem[k * WordsPerSector .. (k + 1) * WordsPerSector]
    }

    /** Every word in `[first, first + n)` that exists reads as erased. */
    ghost predicate Erased(first: nat, n: nat)
      reads this
    {
      ErasedWords(mem, first, n)
    }

    /** `mock::clear_flash`: the whole flash reads 0xFF. */
    constructor (sectors: nat)
      ensures numSectors == sectors && Valid()
      ensures mem == Blank(sectors * WordsPerSector)
    {
      numSectors := sectors;
      mem := Blank(sectors * WordsPerSector);
    }

    /** `spi_flash_erase_sector(sec)`. */
    method EraseSector(sec: int) returns (ok: bool)
      requires Valid()
      modifies this
      ensures Valid()
      ensures ok ==> 0 <= sec < numSectors && mem == Overwrite(old(mem), sec * WordsPerSector, Blank(WordsPerSector))
      ensures !ok ==> mem == old(mem)
    {
      if 0 <= sec < numSectors {
        ok := *;
        if ok {
          mem := Overwrite(mem, sec * WordsPerSector, Blank(WordsPerSector));
        }
      } else {
        ok := false;
      }
    }

    /** `spi_flash_write(addr, data, 4 * |data|)`: programming is only
        allowed onto erased sectors, from a sector boundary. */
    method Write(addr: nat, data: seq<u32>) returns (ok: bool)
      requires Valid()
      requires addr % SectorBytes == 0
      requires Erased(addr / 4, CoveredWords(|data|))
      modifies this
      ensures Valid()
      ensures ok ==> addr / 4 + |data| <= |mem| && mem == Overwrite(old(mem), addr / 4, data)
      ensures !ok ==> mem == old(mem)
    {
      if addr / 4 + |data| <= |mem| {
        ok := *;
        if ok {
          mem := Overwrite(mem, addr / 4, data);
        }
      } else {
        ok := false;
      }
    }

    /** `spi_flash_read(addr, buf, 4 * n)`. */
    method Read(addr: nat, n: nat) returns (ok: bool, data: seq<u32>)
      requires Valid() && addr % 4 == 0
      ensures ok ==> addr / 4 + n <= |mem| && data == mem[addr / 4 .. addr / 4 + n]
    {
      if addr / 4 + n <= |mem| {
        ok := *;
        data := if ok then mem[addr / 4 .. addr / 4 + n] else [];
      } else {
        ok, data := false, [];
      }
    }
  }
}
