/** ustar archive headers: made for a file and parsed back. */
module Ustar {
  import opened Bitmap
  import opened DiskModel
  import opened OctalFields

  const SIZE := 512
  const CHKSUM := 148
  const CHKSUM_END := 156

  // ---------------------------------------------------------------- names

  /** A C string's characters, without the terminator. */
  predicate IsName(s: text) {
    0 !in s
  }

  const SLASH: byte := 47
  const DOT: byte := 46

  /** How many characters of a forbidden prefix a name starts with: "/", "./" or "../". */
  function Prefix(s: text): (n: nat)
    ensures n <= |s|
  {
    if |s| >= 1 && s[0] == SLASH then 1
    else if |s| >= 2 && s[..2] == [DOT, SLASH] then 2
    else if |s| >= 3 && s[..3] == [DOT, DOT, SLASH] then 3
    else 0
  }

  /** strip_antisocial_prefixes */
  function Strip(s: text): text
    decreases |s|
  {
    if Prefix(s) > 0 then Strip(s[Prefix(s)..])
    else if s == [] || s == [DOT, DOT] then [DOT]
    else s
  }

  const UP: text := [DOT, DOT]
  /** "/", "./" and "../" */
  const FORBIDDEN: set<text> := {[SLASH], [DOT, SLASH], [DOT, DOT, SLASH]}

  /** The name starts with none of the forbidden prefixes. */
  predicate Harmless(s: text) {
    forall f :: f in FORBIDDEN ==> !(f <= s)
  }

  /** A concatenation of forbidden prefixes. */
  predicate Antisocial(p: text)
    decreases |p|
  {
    p == [] || exists f :: f in FORBIDDEN && f <= p && Antisocial(p[|f|..])
  }

  /** `r` is what is left of the name behind forbidden prefixes up to `k`, or "." in place
      of nothing and of "..". */
  predicate LeftOf(s: text, k: nat, r: text) {
    && k <= |s| && Antisocial(s[..k]) && Harmless(s[k..])
    && r == if s[k..] == [] || s[k..] == UP then [DOT] else s[k..]
  }

  lemma PrefixMeans(s: text)
    ensures Prefix(s) == 0 <==> Harmless(s)
    ensures Prefix(s) > 0 ==> s[..Prefix(s)] in FORBIDDEN
    ensures forall f :: f in FORBIDDEN && f <= s ==> |f| == Prefix(s)
  {
    assert [SLASH] in FORBIDDEN && [DOT, SLASH] in FORBIDDEN && [DOT, DOT, SLASH] in FORBIDDEN;
    assert |s| >= 1 ==> s[..1] == [s[0]];
    assert |s| >= 2 ==> s[..2] == [s[0], s[1]];
    assert |s| >= 3 ==> s[..3] == [s[0], s[1], s[2]];
  }

  /** The first forbidden prefix of a concatenation is the one that the name starts with. */
  lemma FirstPiece(s: text, k: nat)
    requires k <= |s| && Antisocial(s[..k]) && Harmless(s[k..])
    ensures k == 0 <==> Prefix(s) == 0
    ensures k > 0 ==> Prefix(s) <= k && Antisocial(s[Prefix(s)..][..k - Prefix(s)])
  {
    PrefixMeans(s);
    hide *;
    if k > 0 {
      var f := FirstOf(s[..k]);
      assert f <= s;
      assert s[..k][|f|..] == s[|f|..][..k - |f|];
    } else {
      assert s[0..] == s;
    }
  }

  lemma FirstOf(p: text) returns (f: text)
    requires Antisocial(p) && p != []
    ensures f in FORBIDDEN && |f| > 0 && f <= p && Antisocial(p[|f|..])
  {
    f :| f in FORBIDDEN && f <= p && Antisocial(p[|f|..]);
  }

  lemma OnePiece(s: text, n: nat, k: nat)
    requires 0 < n <= |s| && s[..n] in FORBIDDEN && k <= |s| - n && Antisocial(s[n..][..k])
    ensures Antisocial(s[..n + k]) && s[n..][k..] == s[n + k..]
  {
    var f := s[..n];
    assert f <= s[..n + k] && s[..n + k][|f|..] == s[n..][..k];
  }

  lemma LeftNow(s: text, k: nat, r: text)
    requires Prefix(s) == 0
    ensures LeftOf(s, k, r) ==> k == 0 && r == Strip(s)
    ensures LeftOf(s, 0, Strip(s))
  {
    PrefixMeans(s);
    hide Harmless, Antisocial;
    assert s[0..] == s && s[..0] == [];
    EmptyPrefix();
    if LeftOf(s, k, r) {
      FirstPiece(s, k);
    }
  }

  lemma EmptyPrefix()
    ensures Antisocial([])
  {
  }

  lemma LeftLonger(s: text, k: nat, r: text)
    requires Prefix(s) > 0 && LeftOf(s[Prefix(s)..], k, r)
    ensures LeftOf(s, Prefix(s) + k, r)
  {
    PrefixMeans(s);
    hide Harmless, Antisocial, Prefix;
    OnePiece(s, Prefix(s), k);
  }

  lemma LeftShorter(s: text, k: nat, r: text)
    requires Prefix(s) > 0 && LeftOf(s, k, r)
    ensures k >= Prefix(s) && LeftOf(s[Prefix(s)..], k - Prefix(s), r)
  {
    PrefixMeans(s);
    hide Harmless, Antisocial, Prefix;
    FirstPiece(s, k);
    assert s[Prefix(s)..][k - Prefix(s)..] == s[k..];
  }

  /** Stripping takes off forbidden prefixes and nothing else, as many as there are. */
  lemma {:induction false} StripMeans(s: text, r: text)
    ensures r == Strip(s) <==> exists k: nat :: LeftOf(s, k, r)
    decreases |s|
  {
    hide LeftOf;
    if Prefix(s) == 0 {
      LeftNow(s, 0, r);
      if k: nat :| LeftOf(s, k, r) {
        LeftNow(s, k, r);
      }
    } else {
      StripMeans(s[Prefix(s)..], r);
      if k: nat :| LeftOf(s[Prefix(s)..], k, r) {
        LeftLonger(s, k, r);
      }
      if k: nat :| LeftOf(s, k, r) {
        LeftShorter(s, k, r);
      }
    }
  }

  /** A stripped name is not empty, starts with no forbidden prefix and is not ".."; exactly
      such names are left as they are. */
  lemma {:induction false} StripIsSafe(s: text)
    ensures Strip(s) != [] && Harmless(Strip(s)) && Strip(s) != UP
    ensures Strip(s) == s <==> s != [] && Harmless(s) && s != UP
    ensures Strip(Strip(s)) == Strip(s)
    ensures IsName(s) ==> IsName(Strip(s))
    decreases |s|
  {
    PrefixMeans(s);
    hide Harmless;
    if Prefix(s) > 0 {
      StripIsSafe(s[Prefix(s)..]);
    } else if s == [] || s == UP {
      DotIsHarmless();
    }
    PrefixMeans(Strip(s));
  }

  lemma DotIsHarmless()
    ensures Harmless([DOT])
  {
    PrefixMeans([DOT]);
  }

  method StripPrefixes(name: text) returns (r: text)
    ensures r == Strip(name)
    ensures exists k: nat :: LeftOf(name, k, r)
  {
    r := name;
    while Prefix(r) > 0
      invariant Strip(r) == Strip(name)
      decreases |r|
    {
      // up to and including the first slash
      var slash := 0;
      FirstSlash(r);
      while r[slash] != SLASH
        invariant slash < Prefix(r) && (forall i :: 0 <= i < slash ==> r[i] != SLASH)
        decreases |r| - slash
      {
        slash := slash + 1;
      }
      r := r[slash + 1..];
    }
    if r == [] || r == [DOT, DOT] {
      r := [DOT];
    }
    StripMeans(name, r);
  }

  lemma FirstSlash(s: text)
    requires Prefix(s) > 0
    ensures s[Prefix(s) - 1] == SLASH && forall i :: 0 <= i < Prefix(s) - 1 ==> s[i] != SLASH
  {
    if Prefix(s) == 2 {
      assert s[..2][1] == SLASH && s[..2][0] == DOT;
    } else if Prefix(s) == 3 {
      assert s[..3][2] == SLASH && s[..3][1] == DOT && s[..3][0] == DOT;
    }
  }

  // ---------------------------------------------------------------- layout

  datatype Field = Field(at: nat, bytes: text)

  predicate Inside(f: Field) {
    f.at + |f.bytes| <= SIZE
  }

  predicate Covers(f: Field, i: nat) {
    f.at <= i < f.at + |f.bytes|
  }

  /** A header of zeros with the fields written into it in order. */
  function Lay(fs: seq<Field>): (h: seq<byte>)
    requires forall k :: 0 <= k < |fs| ==> Inside(fs[k])
    ensures |h| == SIZE
  {
    if fs == [] then Repeat(0, SIZE)
    else
      var f := fs[|fs| - 1];
      assert Inside(f);
      Overwrite(Lay(fs[..|fs| - 1]), f.at, f.bytes)
  }

  ghost predicate Disjoint(fs: seq<Field>) {
    forall j, k :: 0 <= j < k < |fs| ==>
      fs[j].at + |fs[j].bytes| <= fs[k].at || fs[k].at + |fs[k].bytes| <= fs[j].at
  }

  /** Fields that do not overlap are all found where they were written, among zeros. */
  lemma {:induction false} LayHolds(fs: seq<Field>)
    requires forall k :: 0 <= k < |fs| ==> Inside(fs[k])
    requires Disjoint(fs)
    ensures forall k :: 0 <= k < |fs| ==> Holds(Lay(fs), fs[k].at, fs[k].bytes)
    ensures forall i: nat :: i < SIZE && (forall k :: 0 <= k < |fs| ==> !Covers(fs[k], i)) ==> Lay(fs)[i] == 0
  {
    if fs != [] {
      var p, f := fs[..|fs| - 1], fs[|fs| - 1];
      LayHolds(p);
      assert Inside(f) && Lay(fs) == Overwrite(Lay(p), f.at, f.bytes);
      hide Lay;
      forall k | 0 <= k < |fs| ensures Holds(Lay(fs), fs[k].at, fs[k].bytes) {
        if k < |p| {
          assert p[k] == fs[k];
          StillHolds(Lay(p), f.at, f.bytes, p[k].at, p[k].bytes);
        }
      }
      forall i: nat | i < SIZE && (forall k :: 0 <= k < |fs| ==> !Covers(fs[k], i)) ensures Lay(fs)[i] == 0 {
        assert !Covers(f, i);
        forall k | 0 <= k < |p| ensures !Covers(p[k], i) {
          assert p[k] == fs[k];
        }
      }
    }
  }

  lemma StillHolds(h: seq<byte>, ofs: nat, data: text, at: nat, t: text)
    requires ofs + |data| <= |h| && Holds(h, at, t)
    requires at + |t| <= ofs || ofs + |data| <= at
    ensures Holds(Overwrite(h, ofs, data), at, t)
  {
  }

  lemma LayMore(fs: seq<Field>, f: Field)
    requires (forall k :: 0 <= k < |fs| ==> Inside(fs[k])) && Inside(f)
    ensures forall k :: 0 <= k < |fs + [f]| ==> Inside((fs + [f])[k])
    ensures Lay(fs + [f]) == Overwrite(Lay(fs), f.at, f.bytes)
  {
    assert (fs + [f])[..|fs|] == fs;
  }

  // ---------------------------------------------------------------- checksum

  predicate InChksum(i: nat) {
    CHKSUM <= i < CHKSUM_END
  }

  /** The sum of the first `n` bytes with the checksum field counted as spaces. */
  function Sum(h: seq<byte>, n: nat): nat
    requires n <= |h|
  {
    if n == 0 then 0 else Sum(h, n - 1) + if InChksum(n - 1) then 32 else h[n - 1]
  }

  /** calculate_chksum */
  method CalculateChksum(header: array<byte>) returns (chksum: nat)
    requires header.Length == SIZE
    ensures chksum == Sum(header[..], SIZE)
  {
    chksum := 0;
    var i := 0;
    while i < SIZE
      invariant 0 <= i <= SIZE && chksum == Sum(header[..], i)
    {
      chksum := chksum + if InChksum(i) then 32 else header[i];
      i := i + 1;
    }
  }

  /** The checksum ignores its own field. */
  lemma {:induction false} SumIgnoresField(h: seq<byte>, g: seq<byte>, n: nat)
    requires n <= |h| == |g|
    requires forall i: nat :: i < |h| && !InChksum(i) ==> g[i] == h[i]
    ensures Sum(g, n) == Sum(h, n)
  {
    if n > 0 {
      SumIgnoresField(h, g, n - 1);
    }
  }

  /** It fits seven octal digits. */
  lemma {:induction false} SumBound(h: seq<byte>, n: nat)
    requires n <= |h|
    ensures Sum(h, n) <= 255 * n
  {
    if n > 0 {
      SumBound(h, n - 1);
    }
  }

  // ---------------------------------------------------------------- making a header

  /** enum ustar_type: USTAR_REGULAR and USTAR_DIRECTORY */
  datatype Type = Regular | Directory

  function TypeFlag(t: Type): byte {
    if t == Regular then 48 else 53
  }

  const USTAR: text := [117, 115, 116, 97, 114, 0]
  const ROOT: text := [114, 111, 111, 116, 0]
  const SEVEN_ZEROS: text := [48, 48, 48, 48, 48, 48, 48, 0]
  /** 0644 and 0755 */
  const REGULAR_MODE: nat := 420
  const DIRECTORY_MODE: nat := 493
  const MTIME: nat := 1136102400

  /** An octal number that fills a field of `size` bytes, with its terminator. */
  function Octal(v: nat, size: nat): text
    requires size > 0
  {
    Padded(v, size - 1) + [0]
  }

  /** The size as the unsigned number that "%011o" prints. */
  function Unsigned(size: int): nat {
    size % WORD
  }

  /** All fields but the checksum, in the order in which they are written. */
  function Fields(name: text, t: Type, size: int): seq<Field> {
    [Field(0, name + [0]),
     Field(100, Octal(if t == Regular then REGULAR_MODE else DIRECTORY_MODE, 8)),
     Field(108, SEVEN_ZEROS), Field(116, SEVEN_ZEROS),
     Field(124, Octal(Unsigned(size), 12)), Field(136, Octal(MTIME, 12)),
     Field(156, [TypeFlag(t)]), Field(257, USTAR), Field(263, [48, 48]),
     Field(297, ROOT), Field(265, ROOT)]
  }

  lemma OctalSize(v: nat, size: nat)
    requires size > 1 && v < Pow8(size - 1)
    ensures |Octal(v, size)| == size && |Padded(v, size - 1)| == size - 1
  {
    DigitCount(v, size - 1);
  }

  lemma Powers()
    ensures Pow8(7) == 2097152 && Pow8(11) == 8589934592
  {
    assert Pow8(4) == 4096;
    assert Pow8(8) == 16777216;
  }

  /** All numbers of a header fit their fields. */
  lemma Sizes(t: Type, size: int)
    ensures |Octal(if t == Regular then REGULAR_MODE else DIRECTORY_MODE, 8)| == 8
    ensures |Octal(Unsigned(size), 12)| == 12 && |Octal(MTIME, 12)| == 12
  {
    Powers();
    OctalSize(if t == Regular then REGULAR_MODE else DIRECTORY_MODE, 8);
    OctalSize(Unsigned(size), 12);
    OctalSize(MTIME, 12);
  }

  lemma FieldsFit(name: text, t: Type, size: int)
    requires |name| <= 99
    ensures forall k :: 0 <= k < |Fields(name, t, size)| ==> Inside(Fields(name, t, size)[k])
    ensures Disjoint(Fields(name, t, size))
  {
    Sizes(t, size);
    hide Octal, Unsigned;
  }

  /** The header before its checksum. */
  function Draft(name: text, t: Type, size: int): (h: seq<byte>)
    requires |name| <= 99
    ensures |h| == SIZE
  {
    FieldsFit(name, t, size);
    Lay(Fields(name, t, size))
  }

  /** The whole header. */
  function Made(name: text, t: Type, size: int): (h: seq<byte>)
    requires |name| <= 99
  {
    var draft := Draft(name, t, size);
    var chksum := Octal(Sum(draft, SIZE), 8);
    if CHKSUM + |chksum| <= SIZE then Overwrite(draft, CHKSUM, chksum) else draft
  }

  /** The first `k` fields have been written. */
  ghost predicate Written(h: seq<byte>, fs: seq<Field>, k: nat) {
    k <= |fs| && (forall i :: 0 <= i < |fs| ==> Inside(fs[i])) && h == LayFirst(fs, k)
  }

  ghost function LayFirst(fs: seq<Field>, k: nat): seq<byte>
    requires k <= |fs| && forall i :: 0 <= i < |fs| ==> Inside(fs[i])
  {
    Lay(fs[..k])
  }

  lemma OneMoreWritten(was: seq<byte>, fs: seq<Field>, k: nat)
    requires k < |fs| && Written(was, fs, k)
    ensures |was| == SIZE && fs[k].at + |fs[k].bytes| <= SIZE
    ensures Written(Overwrite(was, fs[k].at, fs[k].bytes), fs, k + 1)
  {
    assert Inside(fs[k]);
    LayMore(fs[..k], fs[k]);
    assert fs[..k] + [fs[k]] == fs[..k + 1];
  }

  /** Copies the text of field `k` into the header. */
  method WriteText(header: array<byte>, ghost fs: seq<Field>, ghost k: nat, at: nat, bytes: text)
    requires k < |fs| && Written(header[..], fs, k) && fs[k] == Field(at, bytes)
    modifies header
    ensures Written(header[..], fs, k + 1)
  {
    OneMoreWritten(header[..], fs, k);
    hide Written;
    var i := 0;
    while i < |bytes|
      invariant i <= |bytes|
      invariant forall k :: 0 <= k < SIZE ==> header[k] == if at <= k < at + i then bytes[k - at] else old(header[k])
    {
      header[at + i] := bytes[i];
      i := i + 1;
    }
    assert header[..] == Overwrite(old(header[..]), at, bytes);
  }

  /** snprintf of an octal number into field `k`, which it fills. */
  method WriteOctal(header: array<byte>, ghost fs: seq<Field>, ghost k: nat, at: nat, width: nat, v: nat)
    requires 0 < width <= 21 && v < Pow8(width)
    requires k < |fs| && Written(header[..], fs, k) && fs[k] == Field(at, Octal(v, width + 1))
    modifies header
    ensures Written(header[..], fs, k + 1)
  {
    OneMoreWritten(header[..], fs, k);
    OctalSize(v, width + 1);
    DigitCount(v, width);
    hide Written, Padded, Digits, Pow8;
    PrintOctal(header, at, width + 1, width, v);
    FieldFilled(old(header[..]), header[..], at, width + 1, Padded(v, width));
  }

  /** ustar_make_header; false means that the name is too long. */
  method MakeHeader(fileName: text, t: Type, size: int, header: array<byte>) returns (ok: bool)
    requires header.Length == SIZE
    modifies header
    ensures ok <==> |Strip(fileName)| <= 99
    ensures ok ==> header[..] == Made(Strip(fileName), t, size)
    ensures !ok ==> header[..] == old(header[..])
  {
    var name := StripPrefixes(fileName);
    if |name| > 99 {
      return false;
    }
    Clear(header);
    FillDraft(header, name, t, size);
    var chksum := CalculateChksum(header);
    AddChksum(header, name, t, size, chksum);
    return true;
  }

  /** memset (h, 0, sizeof *h) */
  method Clear(header: array<byte>)
    requires header.Length == SIZE
    modifies header
    ensures header[..] == Lay([])
  {
    var i := 0;
    while i < SIZE
      invariant 0 <= i <= SIZE && forall k :: 0 <= k < i ==> header[k] == 0
    {
      header[i] := 0;
      i := i + 1;
    }
    assert header[..] == Repeat(0, SIZE);
  }

  method FillDraft(header: array<byte>, name: text, t: Type, size: int)
    requires header.Length == SIZE && |name| <= 99 && header[..] == Lay([])
    modifies header
    ensures header[..] == Draft(name, t, size)
  {
    hide *;
    ghost var fs := Fields(name, t, size);
    DraftIs(name, t, size);
    FieldsAre(name, t, size);
    WriteText(header, fs, 0, 0, name + [0]);
    WriteOctal(header, fs, 1, 100, 7, if t == Regular then REGULAR_MODE else DIRECTORY_MODE);
    WriteText(header, fs, 2, 108, SEVEN_ZEROS);
    WriteText(header, fs, 3, 116, SEVEN_ZEROS);
    WriteOctal(header, fs, 4, 124, 11, Unsigned(size));
    WriteOctal(header, fs, 5, 136, 11, MTIME);
    WriteText(header, fs, 6, 156, [TypeFlag(t)]);
    WriteText(header, fs, 7, 257, USTAR);
    WriteText(header, fs, 8, 263, [48, 48]);
    WriteText(header, fs, 9, 297, ROOT);
    WriteText(header, fs, 10, 265, ROOT);
  }

  lemma FieldsAre(name: text, t: Type, size: int)
    ensures var fs := Fields(name, t, size);
            && |fs| == 11 && fs[0] == Field(0, name + [0])
            && fs[1] == Field(100, Octal(if t == Regular then REGULAR_MODE else DIRECTORY_MODE, 8))
            && fs[2] == Field(108, SEVEN_ZEROS) && fs[3] == Field(116, SEVEN_ZEROS)
            && fs[4] == Field(124, Octal(Unsigned(size), 12)) && fs[5] == Field(136, Octal(MTIME, 12))
            && fs[6] == Field(156, [TypeFlag(t)]) && fs[7] == Field(257, USTAR) && fs[8] == Field(263, [48, 48])
            && fs[9] == Field(297, ROOT) && fs[10] == Field(265, ROOT)
    ensures Unsigned(size) < Pow8(11) && MTIME < Pow8(11)
    ensures (if t == Regular then REGULAR_MODE else DIRECTORY_MODE) < Pow8(7)
  {
    Powers();
    hide Octal;
  }

  lemma DraftIs(name: text, t: Type, size: int)
    requires |name| <= 99
    ensures forall h :: Written(h, Fields(name, t, size), 11) ==> h == Draft(name, t, size)
    ensures Written(Lay([]), Fields(name, t, size), 0)
  {
    FieldsFit(name, t, size);
    var fs := Fields(name, t, size);
    assert fs[..11] == fs && fs[..0] == [];
  }

  method AddChksum(header: array<byte>, name: text, t: Type, size: int, chksum: nat)
    requires header.Length == SIZE && |name| <= 99 && header[..] == Draft(name, t, size) && chksum == Sum(header[..], SIZE)
    modifies header
    ensures header[..] == Made(name, t, size)
  {
    Powers();
    SumBound(header[..], SIZE);
    OctalSize(chksum, 8);
    DigitCount(chksum, 7);
    hide Draft, Padded, Digits, Pow8, Sum;
    PrintOctal(header, CHKSUM, 8, 7, chksum);
    FieldFilled(old(header[..]), header[..], CHKSUM, 8, Padded(chksum, 7));
  }

  // ---------------------------------------------------------------- parsing a header

  datatype Parsed = Eof | Entry(name: text, t: Type, size: nat) | Error(message: string)

  const INT_MAX: nat := 0x7FFF_FFFF

  predicate AllZeros(h: seq<byte>) {
    forall i :: 0 <= i < |h| ==> h[i] == 0
  }

  /** The characters before the first null byte. */
  function CString(s: seq<byte>): text {
    if s == [] || s[0] == 0 then [] else [s[0]] + CString(s[1..])
  }

  /** The checks on magic, version, checksum, name and type, in their order. */
  function Check(h: seq<byte>): (e: Option<string>)
    requires |h| == SIZE
  {
    if h[257..263] != USTAR then Some("not a ustar archive")
    else if h[263] != 48 || h[264] != 48 then Some("invalid ustar version")
    else
      match Parse(h[CHKSUM..CHKSUM_END], 0, true)
      case None => Some("corrupt chksum field")
      case Some(chksum) =>
        if chksum != Sum(h, SIZE) then Some("checksum mismatch")
        else if h[99] != 0 || h[345] != 0 then Some("file name too long")
        else if h[156] != 48 && h[156] != 53 then Some("unimplemented file type")
        else None
  }

  /** ustar_parse_header */
  function ParseHeader(h: seq<byte>): Parsed
    requires |h| == SIZE
  {
    if AllZeros(h) then Eof
    else
      match Check(h)
      case Some(message) => Error(message)
      case None =>
        var name := Strip(CString(h[..100]));
        if h[156] == 48 then
          match Parse(h[124..136], 0, true)
          case None => Error("corrupt file size field")
          case Some(size) => if size > INT_MAX then Error("file too large") else Entry(name, Regular, size)
        else Entry(name, Directory, 0)
  }

  /** is_all_zeros */
  method IsAllZeros(block: array<byte>) returns (zeros: bool)
    ensures zeros == AllZeros(block[..])
  {
    var i := 0;
    while i < block.Length
      invariant i <= block.Length && forall k :: 0 <= k < i ==> block[k] == 0
    {
      if block[i] != 0 {
        return false;
      }
      i := i + 1;
    }
    return true;
  }

  method NameIn(header: array<byte>) returns (name: text)
    requires header.Length == SIZE && header[99] == 0
    ensures name == CString(header[..100])
  {
    name := [];
    var i := 0;
    assert header[0..100] == header[..100];
    while header[i] != 0
      invariant 0 <= i <= 99 && CString(header[..100]) == name + CString(header[i..100])
      decreases 99 - i
    {
      assert header[i..100][1..] == header[i + 1..100];
      name := name + [header[i]];
      i := i + 1;
    }
    assert name + [] == name;
  }

  method ParseInPlace(header: array<byte>) returns (r: Parsed)
    requires header.Length == SIZE
    ensures r == ParseHeader(header[..])
  {
    hide Sum, Parse, Strip, CString, AllZeros;
    ghost var h := header[..];
    var zeros := IsAllZeros(header);
    if zeros {
      return Eof;
    }
    assert header[257..263] == h[257..263] && header[CHKSUM..CHKSUM_END] == h[CHKSUM..CHKSUM_END];
    assert header[124..136] == h[124..136] && header[..100] == h[..100];
    if header[257..263] != USTAR {
      return Error("not a ustar archive");
    } else if header[263] != 48 || header[264] != 48 {
      return Error("invalid ustar version");
    }
    var chksum := ParseField(header, CHKSUM, 8);
    var sum := CalculateChksum(header);
    if chksum.None? {
      return Error("corrupt chksum field");
    } else if chksum.value != sum {
      return Error("checksum mismatch");
    } else if header[99] != 0 || header[345] != 0 {
      return Error("file name too long");
    } else if header[156] != 48 && header[156] != 53 {
      return Error("unimplemented file type");
    }
    var size := Some(0);
    if header[156] == 48 {
      size := ParseField(header, 124, 12);
      if size.None? {
        return Error("corrupt file size field");
      } else if size.value > INT_MAX {
        return Error("file too large");
      }
    }
    var name := NameIn(header);
    name := StripPrefixes(name);
    return Entry(name, if header[156] == 48 then Regular else Directory, size.value);
  }

  // ---------------------------------------------------------------- the round trip

  lemma {:induction false} CStringOf(s: text, rest: seq<byte>)
    requires IsName(s)
    ensures CString(s + [0] + rest) == s
  {
    var all := s + [0] + rest;
    if s != [] {
      assert all[0] == s[0] && s[0] in s && all[1..] == s[1..] + [0] + rest;
      assert IsName(s[1..]);
      CStringOf(s[1..], rest);
    } else {
      assert all[0] == 0;
    }
  }

  /** What can be read from a made header: the fields, zeros between them, and its sum. */
  lemma MadeHolds(name: text, t: Type, size: int)
    requires |name| <= 99
    ensures var h := Made(name, t, size);
            && |h| == SIZE && Holds(h, 0, name + [0]) && h[99] == 0 && h[345] == 0 && h[156] == TypeFlag(t)
            && Holds(h, 257, USTAR) && h[263] == 48 && h[264] == 48
            && Holds(h, 124, Octal(Unsigned(size), 12)) && |Octal(Unsigned(size), 12)| == 12
            && Holds(h, CHKSUM, Octal(Sum(h, SIZE), 8)) && |Octal(Sum(h, SIZE), 8)| == 8 && Sum(h, SIZE) < WORD
  {
    var draft, h := Draft(name, t, size), Made(name, t, size);
    var chksum := Octal(Sum(draft, SIZE), 8);
    ChksumFits(draft);
    Sizes(t, size);
    DraftHolds(name, t, size);
    MadeIs(name, t, size);
    hide *;
    StillHolds(draft, CHKSUM, chksum, 0, name + [0]);
    StillHolds(draft, CHKSUM, chksum, 257, USTAR);
    StillHolds(draft, CHKSUM, chksum, 124, Octal(Unsigned(size), 12));
    OverwriteIs(draft, CHKSUM, chksum);
    SumIgnoresField(draft, h, SIZE);
  }

  lemma ChksumFits(draft: seq<byte>)
    requires |draft| == SIZE
    ensures |Octal(Sum(draft, SIZE), 8)| == 8 && Sum(draft, SIZE) < WORD
  {
    Powers();
    SumBound(draft, SIZE);
    OctalSize(Sum(draft, SIZE), 8);
  }

  lemma MadeIs(name: text, t: Type, size: int)
    requires |name| <= 99 && |Octal(Sum(Draft(name, t, size), SIZE), 8)| == 8
    ensures Made(name, t, size) == Overwrite(Draft(name, t, size), CHKSUM, Octal(Sum(Draft(name, t, size), SIZE), 8))
  {
  }

  lemma OverwriteIs(h: seq<byte>, at: nat, t: text)
    requires |h| == SIZE && at == CHKSUM && |t| == 8
    ensures var r := Overwrite(h, at, t);
            Holds(r, at, t) && forall i: nat :: i < |h| && !InChksum(i) ==> r[i] == h[i]
    ensures !InChksum(99) && !InChksum(345) && !InChksum(156) && !InChksum(263) && !InChksum(264)
  {
  }

  lemma DraftHolds(name: text, t: Type, size: int)
    requires |name| <= 99
    ensures var h := Draft(name, t, size);
            && Holds(h, 0, name + [0]) && h[99] == 0 && h[345] == 0 && h[156] == TypeFlag(t)
            && Holds(h, 257, USTAR) && h[263] == 48 && h[264] == 48
            && Holds(h, 124, Octal(Unsigned(size), 12))
  {
    var fs := Fields(name, t, size);
    FieldsFit(name, t, size);
    Sizes(t, size);
    LayHolds(fs);
    FieldsAre(name, t, size);
    assert Draft(name, t, size) == Lay(fs);
    hide Fields, Lay, Octal, Draft;
    NotCovered(fs, name, t, size);
    var h := Draft(name, t, size);
    assert Holds(h, fs[0].at, fs[0].bytes) && Holds(h, fs[4].at, fs[4].bytes) && Holds(h, fs[6].at, fs[6].bytes);
    assert Holds(h, fs[7].at, fs[7].bytes) && Holds(h, fs[8].at, fs[8].bytes);
    assert (name + [0])[|name|] == 0;
  }

  lemma NotCovered(fs: seq<Field>, name: text, t: Type, size: int)
    requires |name| <= 99 && fs == Fields(name, t, size)
    ensures forall k :: 0 <= k < |fs| ==> !Covers(fs[k], 345)
    ensures |name| < 99 ==> forall k :: 0 <= k < |fs| ==> !Covers(fs[k], 99)
  {
    Sizes(t, size);
    hide Octal, Unsigned;
  }

  lemma SliceHolds(h: seq<byte>, at: nat, t: text)
    requires Holds(h, at, t)
    ensures h[at..at + |t|] == t
  {
  }

  lemma NameHolds(h: seq<byte>, name: text)
    requires |h| == SIZE && |name| <= 99 && IsName(name) && Holds(h, 0, name + [0])
    ensures CString(h[..100]) == name
  {
    var rest := h[|name| + 1..100];
    assert h[..100] == name + [0] + rest;
    CStringOf(name, rest);
  }

  /** Reading a 32-bit size back: the two's complement of a negative one is out of range. */
  lemma SizeBack(size: int)
    requires -0x8000_0000 <= size <= INT_MAX
    ensures Unsigned(size) > INT_MAX <==> size < 0
    ensures size >= 0 ==> Unsigned(size) == size
  {
  }

  lemma MadePasses(name: text, t: Type, size: int)
    requires |name| <= 99
    ensures var h := Made(name, t, size); |h| == SIZE && !AllZeros(h) && Check(h) == None && h[156] == TypeFlag(t)
  {
    var h := Made(name, t, size);
    MadeHolds(name, t, size);
    SliceHolds(h, 257, USTAR);
    SliceHolds(h, CHKSUM, Octal(Sum(h, SIZE), 8));
    PrintThenParse(Sum(h, SIZE), 7);
    hide Made, Sum, Parse;
    assert h[156] != 0;
  }

  lemma MadeSize(name: text, t: Type, size: int)
    requires |name| <= 99
    ensures |Made(name, t, size)| == SIZE && Parse(Made(name, t, size)[124..136], 0, true) == Some(Unsigned(size))
  {
    var h := Made(name, t, size);
    MadeHolds(name, t, size);
    SliceHolds(h, 124, Octal(Unsigned(size), 12));
    PrintThenParse(Unsigned(size), 11);
    hide Made, Parse;
  }

  lemma MadeName(name: text, t: Type, size: int)
    requires |name| <= 99 && IsName(name)
    ensures |Made(name, t, size)| == SIZE && CString(Made(name, t, size)[..100]) == name
  {
    MadeHolds(name, t, size);
    NameHolds(Made(name, t, size), name);
  }

  /** Parsing a made header gives back the stripped name, the type and the size, 0 for a
      directory: for a directory always, for a regular file exactly when its size is not
      negative. */
  lemma RoundTrip(fileName: text, t: Type, size: int)
    requires IsName(fileName) && |Strip(fileName)| <= 99 && -0x8000_0000 <= size <= INT_MAX
    ensures |Made(Strip(fileName), t, size)| == SIZE
    ensures ParseHeader(Made(Strip(fileName), t, size))
         == if t == Directory then Entry(Strip(fileName), Directory, 0)
            else if size >= 0 then Entry(Strip(fileName), Regular, size)
            else Error("file too large")
  {
    var name := Strip(fileName);
    StripIsSafe(fileName);
    MadePasses(name, t, size);
    MadeSize(name, t, size);
    MadeName(name, t, size);
    SizeBack(size);
    hide Made, Strip, CString, Parse, Check, AllZeros, Unsigned;
  }

  // ---------------------------------------------------------------- what the other fields say

  /** Every field is found in a made header. */
  lemma MadeField(name: text, t: Type, size: int, k: nat)
    requires |name| <= 99 && k < |Fields(name, t, size)|
    ensures var f := Fields(name, t, size)[k]; Holds(Made(name, t, size), f.at, f.bytes)
  {
    var fs := Fields(name, t, size);
    FieldsFit(name, t, size);
    LayHolds(fs);
    Sizes(t, size);
    ChksumFits(Draft(name, t, size));
    MadeIs(name, t, size);
    OffChksum(fs[k], name, t, size);
    hide Fields, Lay, Made, Octal, Sum;
    StillHolds(Draft(name, t, size), CHKSUM, Octal(Sum(Draft(name, t, size), SIZE), 8), fs[k].at, fs[k].bytes);
  }

  lemma OffChksum(f: Field, name: text, t: Type, size: int)
    requires |name| <= 99 && f in Fields(name, t, size)
    ensures f.at + |f.bytes| <= CHKSUM || CHKSUM_END <= f.at
  {
    Sizes(t, size);
    hide Octal, Unsigned;
  }

  /** A field with a number in octal digits is read back. */
  lemma NumberBack(h: seq<byte>, at: nat, v: nat, size: nat)
    requires 1 < size && v < WORD && v < Pow8(size - 1) && Holds(h, at, Octal(v, size))
    ensures at + size <= |h| && Parse(h[at..at + size], 0, true) == Some(v)
  {
    OctalSize(v, size);
    SliceHolds(h, at, Octal(v, size));
    PrintThenParse(v, size - 1);
  }

  lemma SevenZeros()
    ensures SEVEN_ZEROS == Octal(0, 8) && Pow8(7) > 0
  {
    assert Digits(0) == [] && Padded(0, 7) == Repeat(Zero(), 7);
    Powers();
  }

  lemma RootBack(h: seq<byte>, at: nat, size: nat)
    requires Holds(h, at, ROOT) && |ROOT| <= size && at + size <= |h|
    ensures CString(h[at..at + size]) == ROOT[..4]
  {
    var rest := h[at + 5..at + size];
    assert h[at..at + size] == ROOT[..4] + [0] + rest;
    CStringOf(ROOT[..4], rest);
  }

  /** A made header says mode 0644 of a file and 0755 of a directory, owner and group 0 and
      "root", and the fixed time. */
  lemma Attributes(name: text, t: Type, size: int)
    requires |name| <= 99
    ensures var h := Made(name, t, size);
            && |h| == SIZE
            && Parse(h[100..108], 0, true) == Some(if t == Regular then 6 * 64 + 4 * 8 + 4 else 7 * 64 + 5 * 8 + 5)
            && Parse(h[108..116], 0, true) == Parse(h[116..124], 0, true) == Some(0)
            && Parse(h[136..148], 0, true) == Some(1136102400)
            && CString(h[265..297]) == CString(h[297..329]) == [114, 111, 111, 116]
  {
    var h := Made(name, t, size);
    MadeHolds(name, t, size);
    FieldsAre(name, t, size);
    MadeField(name, t, size, 1);
    MadeField(name, t, size, 2);
    MadeField(name, t, size, 3);
    MadeField(name, t, size, 5);
    MadeField(name, t, size, 9);
    MadeField(name, t, size, 10);
    SevenZeros();
    hide Made, Fields, Octal, Parse, CString, Holds, Pow8;
    NumberBack(h, 100, if t == Regular then REGULAR_MODE else DIRECTORY_MODE, 8);
    NumberBack(h, 108, 0, 8);
    NumberBack(h, 116, 0, 8);
    NumberBack(h, 136, MTIME, 12);
    RootBack(h, 265, 32);
    RootBack(h, 297, 32);
  }

  // ---------------------------------------------------------------- which headers are accepted

  /** The octal number in a field. */
  ghost predicate Says(field: text, v: nat) {
    exists k: nat :: k > 0 && Reads(field, k, 0, v)
  }

  /** A header is accepted exactly with the magic, the version, the sum of its bytes in the
      checksum field, a name that ends within its field, no prefix, and a type that is known,
      a file's size being a number below 2^31; the result is that size, 0 for a directory. */
  lemma Accepted(h: seq<byte>, size: nat)
    requires |h| == SIZE
    ensures (ParseHeader(h).Entry? && ParseHeader(h).size == size)
       <==> && Holds(h, 257, USTAR) && Holds(h, 263, [48, 48]) && Says(h[CHKSUM..CHKSUM_END], Sum(h, SIZE))
            && h[99] == 0 && h[345] == 0
            && (if h[156] == 53 then size == 0 else h[156] == 48 && size <= INT_MAX && Says(h[124..136], size))
  {
    assert SIZE == 512 && CHKSUM == 148 && CHKSUM_END == 156;
    hide *;
    Passes(h);
    SizeOf(h, size);
    SumBound(h, SIZE);
    SaysMeans(h[CHKSUM..CHKSUM_END], Sum(h, SIZE));
    SaysMeans(h[124..136], size);
    Limits(h);
  }

  lemma Limits(h: seq<byte>)
    requires |h| == SIZE
    ensures Sum(h, SIZE) <= 255 * SIZE ==> Sum(h, SIZE) < WORD
    ensures INT_MAX < WORD
  {
  }

  lemma SaysMeans(field: text, v: nat)
    ensures Parse(field, 0, true) == Some(v) <==> v < WORD && Says(field, v)
  {
    ParseMeans(field, 0, true, v);
    hide Parse, Reads;
  }

  lemma Passes(h: seq<byte>)
    requires |h| == SIZE
    ensures Check(h).None?
       <==> && Holds(h, 257, USTAR) && Holds(h, 263, [48, 48]) && Parse(h[CHKSUM..CHKSUM_END], 0, true) == Some(Sum(h, SIZE))
            && h[99] == 0 && h[345] == 0 && (h[156] == 53 || h[156] == 48)
  {
    assert |USTAR| == 6;
    SliceIs(h, 257, USTAR);
    TwoBytes(h, 263);
    hide Holds;
    CheckIs(h, h[257..263] == USTAR, Parse(h[CHKSUM..CHKSUM_END], 0, true), Sum(h, SIZE));
  }

  lemma CheckIs(h: seq<byte>, magic: bool, chksum: Option<nat>, sum: nat)
    requires |h| == SIZE && magic == (h[257..263] == USTAR)
    requires chksum == Parse(h[CHKSUM..CHKSUM_END], 0, true) && sum == Sum(h, SIZE)
    ensures Check(h).None?
       <==> magic && h[263] == 48 && h[264] == 48 && chksum == Some(sum) && h[99] == 0 && h[345] == 0 && (h[156] == 53 || h[156] == 48)
  {
    hide Sum, Parse;
  }

  lemma SliceIs(h: seq<byte>, at: nat, t: text)
    requires at + |t| <= |h|
    ensures h[at..at + |t|] == t <==> Holds(h, at, t)
  {
    if Holds(h, at, t) {
      SliceHolds(h, at, t);
    }
  }

  lemma TwoBytes(h: seq<byte>, at: nat)
    requires at + 2 <= |h|
    ensures Holds(h, at, [48, 48]) <==> h[at] == 48 && h[at + 1] == 48
  {
  }

  lemma SizeOf(h: seq<byte>, size: nat)
    requires |h| == SIZE
    ensures ParseHeader(h).Entry? && ParseHeader(h).size == size
       <==> && Check(h).None?
            && (if h[156] == 48 then size <= INT_MAX && Parse(h[124..136], 0, true) == Some(size) else size == 0)
  {
    assert AllZeros(h) ==> h[257..263][0] == 0;
    assert Check(h).None? ==> h[257..263][0] == USTAR[0];
    hide Parse, Strip, CString, Check, AllZeros;
  }

  // ---------------------------------------------------------------- a damaged header

  lemma {:induction false} SumChanges(h: seq<byte>, g: seq<byte>, i: nat, n: nat)
    requires n <= |h| == |g| && i < |h| && !InChksum(i) && g == h[i := g[i]]
    ensures Sum(g, n) + (if i < n then h[i] else 0) == Sum(h, n) + if i < n then g[i] else 0
  {
    if n > 0 {
      SumChanges(h, g, i, n - 1);
    }
  }

  /** An accepted header of which one byte outside the checksum field changes is no longer
      accepted, nor taken for the end of the archive. */
  lemma OneByteChanged(h: seq<byte>, i: nat, b: byte)
    requires |h| == SIZE && ParseHeader(h).Entry? && i < SIZE && !InChksum(i) && b != h[i]
    ensures ParseHeader(h[i := b]).Error?
  {
    var g := h[i := b];
    SumChanges(h, g, i, SIZE);
    assert g[CHKSUM..CHKSUM_END] == h[CHKSUM..CHKSUM_END];
    assert h[257..263][0] == USTAR[0] && h[257..263][1] == USTAR[1];
    assert g[257] != 0 || g[258] != 0;
    hide Sum, Parse, Strip, CString;
  }
}
