/** Loadable segments of an executable: which bytes belong on which page. */
module ElfSegments {
  import opened Bitmap
  import opened DiskModel

  const PAGE: nat := 4096
  const PHYS_BASE: nat := 0xC000_0000
  const W32: nat := 0x1_0000_0000

  /** A PT_LOAD program header; all numbers have 32 bits. */
  datatype Segment = Segment(offset: nat, vaddr: nat, filesz: nat, memsz: nat, writable: bool)

  predicate Words(s: Segment) {
    s.offset < W32 && s.vaddr < W32 && s.filesz < W32 && s.memsz < W32
  }

  /** validate_segment, with the sum in 32-bit arithmetic. */
  predicate Validate(s: Segment, fileLength: nat) {
    && s.offset % PAGE == s.vaddr % PAGE
    && s.offset <= fileLength
    && s.memsz >= s.filesz
    && s.memsz != 0
    && s.vaddr < PHYS_BASE
    && (s.vaddr + s.memsz) % W32 < PHYS_BASE
    && (s.vaddr + s.memsz) % W32 >= s.vaddr
    && s.vaddr >= PAGE
  }

  /** Despite the wrapping sum, exactly the segments that lie in user memory above the first
      page pass. */
  lemma ValidateMeans(s: Segment, fileLength: nat)
    requires Words(s)
    ensures Validate(s, fileLength)
      <==> s.offset % PAGE == s.vaddr % PAGE && s.offset <= fileLength && 0 < s.memsz && s.filesz <= s.memsz
           && PAGE <= s.vaddr && s.vaddr + s.memsz < PHYS_BASE
  {
    if s.vaddr + s.memsz < W32 {
      assert (s.vaddr + s.memsz) % W32 == s.vaddr + s.memsz;
    } else {
      assert (s.vaddr + s.memsz) % W32 == s.vaddr + s.memsz - W32;
    }
  }

  function RoundUp(x: nat): nat {
    (x + PAGE - 1) / PAGE * PAGE
  }

  // What load computes for the segment.

  function FileStart(s: Segment): nat {
    s.offset - s.offset % PAGE
  }

  function FirstPage(s: Segment): nat {
    s.vaddr / PAGE
  }

  function ReadBytes(s: Segment): nat {
    if s.filesz > 0 then s.vaddr % PAGE + s.filesz else 0
  }

  function ZeroBytes(s: Segment): int {
    RoundUp(s.vaddr % PAGE + s.memsz) - ReadBytes(s)
  }

  function PageCount(s: Segment): nat {
    (s.vaddr % PAGE + s.memsz + PAGE - 1) / PAGE
  }

  /** The assertions at the start of both loaders hold, and no subtraction wraps. */
  lemma LoaderAsserts(s: Segment, fileLength: nat)
    requires Words(s) && Validate(s, fileLength)
    ensures ZeroBytes(s) >= 0 && ReadBytes(s) + ZeroBytes(s) == PageCount(s) * PAGE && PageCount(s) > 0
    ensures FileStart(s) % PAGE == 0 && FirstPage(s) > 0 && (FirstPage(s) + PageCount(s)) * PAGE <= PHYS_BASE
  {
    ValidateMeans(s, fileLength);
  }

  /** Bytes of the `k`-th page that come from the file. */
  function FromFile(readBytes: nat, k: nat): (n: nat)
    ensures n <= PAGE
  {
    if readBytes <= k * PAGE then 0 else if readBytes - k * PAGE < PAGE then readBytes - k * PAGE else PAGE
  }

  /** Where the file is read for the `k`-th page. */
  function ReadAtOffset(ofs: nat, readBytes: nat, k: nat): nat {
    ofs + if readBytes < k * PAGE then readBytes else k * PAGE
  }

  datatype Mapped = Mapped(bytes: seq<byte>, writable: bool)

  /** A page filled from the file and cleared behind. */
  function Filled(file: seq<byte>, at: nat, cnt: nat): (b: seq<byte>)
    requires at + cnt <= |file| && cnt <= PAGE
    ensures |b| == PAGE
  {
    file[at..at + cnt] + seq<byte>(PAGE - cnt, i => 0)
  }

  predicate FileCovers(file: seq<byte>, s: Segment) {
    s.filesz == 0 || s.offset + s.filesz <= |file|
  }

  /** The file reaches to the end of what is read exactly if it covers the segment. */
  lemma FileCoversMeans(file: seq<byte>, s: Segment)
    requires Words(s) && Validate(s, |file|)
    ensures FileCovers(file, s) <==> FileStart(s) + ReadBytes(s) <= |file|
  {
  }

  lemma PageInFile(ofs: nat, readBytes: nat, k: nat, length: nat)
    requires ofs + readBytes <= length
    ensures ReadAtOffset(ofs, readBytes, k) + FromFile(readBytes, k) <= length
  {
  }

  /** The `k`-th of the pages filled with `readBytes` bytes from `ofs` on, then zeros. */
  function PageAt(file: seq<byte>, ofs: nat, readBytes: nat, writable: bool, k: nat): Mapped
    requires ofs + readBytes <= |file|
  {
    PageInFile(ofs, readBytes, k, |file|);
    Mapped(Filled(file, ReadAtOffset(ofs, readBytes, k), FromFile(readBytes, k)), writable)
  }

  /** The `k`-th page of a segment. */
  function PageOf(file: seq<byte>, s: Segment, k: nat): Mapped
    requires FileStart(s) + ReadBytes(s) <= |file|
  {
    PageAt(file, FileStart(s), ReadBytes(s), s.writable, k)
  }

  /** What the ELF specification asks for: the segment's memory starts with its file bytes
      and goes on with zeros. */
  lemma SegmentMeaning(file: seq<byte>, s: Segment, a: nat)
    requires Words(s) && Validate(s, |file|) && FileCovers(file, s) && s.vaddr <= a < s.vaddr + s.memsz
    ensures FileStart(s) + ReadBytes(s) <= |file|
    ensures FirstPage(s) <= a / PAGE < FirstPage(s) + PageCount(s)
    ensures var page := PageOf(file, s, a / PAGE - FirstPage(s));
            && page.writable == s.writable && |page.bytes| == PAGE
            && (a - s.vaddr < s.filesz ==> s.offset + (a - s.vaddr) < |file|)
            && page.bytes[a % PAGE] == if a - s.vaddr < s.filesz then file[s.offset + (a - s.vaddr)] else 0
  {
    ValidateMeans(s, |file|);
    FileCoversMeans(file, s);
    AddressSplit(s, a);
    var k, i := a / PAGE - FirstPage(s), a % PAGE;
    var at, cnt := ReadAtOffset(FileStart(s), ReadBytes(s), k), FromFile(ReadBytes(s), k);
    PageInFile(FileStart(s), ReadBytes(s), k, |file|);
    var b := Filled(file, at, cnt);
    if i < cnt {
      assert b[i] == file[at + i];
    } else {
      assert b[i] == 0;
    }
  }

  /** Page and offset of an address within a segment. */
  lemma AddressSplit(s: Segment, a: nat)
    requires s.vaddr <= a < s.vaddr + s.memsz
    ensures FirstPage(s) <= a / PAGE < FirstPage(s) + PageCount(s)
    ensures (a / PAGE - FirstPage(s)) * PAGE + a % PAGE == s.vaddr % PAGE + (a - s.vaddr)
  {
  }

  /** The pages loaded are exactly those that hold a byte of the segment. */
  lemma PagesExactly(s: Segment, p: nat)
    requires s.memsz > 0
    ensures FirstPage(s) <= p < FirstPage(s) + PageCount(s)
       <==> exists a: nat :: s.vaddr <= a < s.vaddr + s.memsz && PageNo(a) == p
  {
    if a: nat :| s.vaddr <= a < s.vaddr + s.memsz && PageNo(a) == p {
      AddressSplit(s, a);
    }
    if FirstPage(s) <= p < FirstPage(s) + PageCount(s) {
      var a: nat := if p == FirstPage(s) then s.vaddr else p * PAGE;
      assert s.vaddr <= a < s.vaddr + s.memsz && PageNo(a) == p;
    }
  }

  function PageNo(a: nat): nat {
    a / PAGE
  }

  /** Around the segment its pages hold, before it, what the file has before it, unless
      nothing is read at all; and zeros behind it. */
  lemma AroundSegment(file: seq<byte>, s: Segment, a: nat)
    requires Words(s) && Validate(s, |file|) && FileCovers(file, s)
    requires FirstPage(s) <= PageNo(a) < FirstPage(s) + PageCount(s)
    ensures FileStart(s) + ReadBytes(s) <= |file|
    ensures a < s.vaddr + s.filesz && s.filesz > 0 ==> 0 <= s.offset + a - s.vaddr < |file|
    ensures PageOf(file, s, PageNo(a) - FirstPage(s)).bytes[a % PAGE]
         == if a < s.vaddr + s.filesz && s.filesz > 0 then file[s.offset + a - s.vaddr] else 0
  {
    ValidateMeans(s, |file|);
    FileCoversMeans(file, s);
    var k, i := PageNo(a) - FirstPage(s), a % PAGE;
    assert k * PAGE + i == s.vaddr % PAGE + a - s.vaddr;
    var at, cnt := ReadAtOffset(FileStart(s), ReadBytes(s), k), FromFile(ReadBytes(s), k);
    PageInFile(FileStart(s), ReadBytes(s), k, |file|);
    var b := Filled(file, at, cnt);
    if i < cnt {
      assert b[i] == file[at + i];
    } else {
      assert b[i] == 0;
    }
  }
}
