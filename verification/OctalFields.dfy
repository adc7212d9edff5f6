/** Octal numbers in fields of fixed size: printed by snprintf with "%0Wo", and parsed. */
module OctalFields {
  import opened Bitmap
  import opened DiskModel

  const WORD: nat := 0x1_0000_0000

  type text = seq<byte>

  function Zero(): byte {
    48
  }

  /** The octal digits of a number; none for zero. */
  function Digits(v: nat): (ds: text)
    ensures v > 0 ==> |ds| > 0
  {
    if v == 0 then [] else Digits(v / 8) + [(48 + v % 8) as byte]
  }

  function Repeat(c: byte, n: nat): (r: text)
    ensures |r| == n && forall i :: 0 <= i < n ==> r[i] == c
  {
    seq<byte>(n, i => c)
  }

  function Max(a: int, b: int): int {
    if a < b then b else a
  }

  /** The digits padded with zeros to `width`, and at least one digit. */
  function Padded(v: nat, width: nat): (r: text)
    ensures |r| == Max(Max(width, 1), |Digits(v)|)
  {
    var ds := Digits(v);
    Repeat(Zero(), Max(Max(width, 1), |ds|) - |ds|) + ds
  }

  // ---------------------------------------------------------------- printing

  /** struct vsnprintf_aux: where formatted characters go. */
  class Output {
    const buffer: array<byte>
    const start: nat
    const maxLength: nat
    var length: nat
    ghost var text: text

    constructor (buffer: array<byte>, start: nat, size: nat)
      requires size > 0 && start + size <= buffer.Length
      ensures this.buffer == buffer && this.start == start && maxLength == size - 1 && text == [] && Valid()
    {
      this.buffer, this.start, maxLength := buffer, start, size - 1;
      length, text := 0, [];
    }

    /** Characters that do not fit are counted but not stored. */
    ghost predicate Valid()
      reads this, buffer
    {
      && start + maxLength < buffer.Length && length == |text|
      && forall i :: 0 <= i < |text| && i < maxLength ==> buffer[start + i] == text[i]
    }

    /** vsnprintf_helper */
    method Put(ch: byte)
      requires Valid()
      modifies this, buffer
      ensures Valid() && text == old(text) + [ch]
      ensures forall k :: 0 <= k < buffer.Length && (k < start || start + maxLength <= k) ==> buffer[k] == old(buffer[k])
    {
      if length < maxLength {
        buffer[start + length] := ch;
      }
      length := length + 1;
      text := text + [ch];
    }

    /** output_dup */
    method Dup(ch: byte, cnt: nat)
      requires Valid()
      modifies this, buffer
      ensures Valid() && text == old(text) + Repeat(ch, cnt)
      ensures forall k :: 0 <= k < buffer.Length && (k < start || start + maxLength <= k) ==> buffer[k] == old(buffer[k])
    {
      var i := 0;
      assert text + Repeat(ch, 0) == text;
      while i < cnt
        invariant i <= cnt && Valid() && text == old(text) + Repeat(ch, i)
        invariant forall k :: 0 <= k < buffer.Length && (k < start || start + maxLength <= k) ==> buffer[k] == old(buffer[k])
      {
        Put(ch);
        i := i + 1;
        assert Repeat(ch, i) == Repeat(ch, i - 1) + [ch];
      }
    }

    /** The end of vsnprintf: the null terminator. */
    method Terminate()
      requires Valid()
      modifies buffer
      ensures Holds(buffer[..], start, Stored(text, maxLength + 1))
      ensures forall k :: 0 <= k < buffer.Length && (k < start || start + maxLength < k) ==> buffer[k] == old(buffer[k])
    {
      buffer[start + if length < maxLength then length else maxLength] := 0;
      assert forall i :: 0 <= i < |text| && i < maxLength ==> buffer[start + i] == text[i];
    }

    /** format_integer for an unsigned octal conversion with the 0 flag, of a value that
        needs at most 22 digits. */
    method FormatOctal(value: nat, width: nat)
      requires Valid() && |Digits(value)| <= 22
      modifies this, buffer
      ensures Valid() && text == old(text) + Padded(value, width)
      ensures forall k :: 0 <= k < buffer.Length && (k < start || start + maxLength <= k) ==> buffer[k] == old(buffer[k])
    {
      var buf, cp := MakeDigits(value);
      ghost var shown, was := Reversed(buf[..cp]), text;
      var pad := Max(width - cp, 0);
      PaddedIs(value, width, shown);
      hide Padded, Digits, Reversed;
      Dup(48, pad);
      OutputReversed(buf, cp);
      assert was + Repeat(48, pad) + shown == was + (Repeat(48, pad) + shown);
    }

    /** The digits, which were produced from the right, in reverse order. */
    method OutputReversed(buf: array<byte>, cp0: nat)
      requires Valid() && cp0 <= buf.Length && buf != buffer
      modifies this, buffer
      ensures Valid() && text == old(text) + Reversed(buf[..cp0])
      ensures forall k :: 0 <= k < buffer.Length && (k < start || start + maxLength <= k) ==> buffer[k] == old(buffer[k])
    {
      var cp := cp0;
      assert text + Reversed(buf[..cp]) == old(text) + Reversed(buf[..cp0]);
      while cp > 0
        invariant 0 <= cp <= cp0 && Valid() && buf[..] == old(buf[..])
        invariant text + Reversed(buf[..cp]) == old(text) + Reversed(buf[..cp0])
        invariant forall k :: 0 <= k < buffer.Length && (k < start || start + maxLength <= k) ==> buffer[k] == old(buffer[k])
      {
        cp := cp - 1;
        assert buf[..cp + 1] == buf[..cp] + [buf[cp]];
        LastFirst(buf[..cp], buf[cp]);
        ghost var was := text;
        Put(buf[cp]);
        assert was + ([buf[cp]] + Reversed(buf[..cp])) == text + Reversed(buf[..cp]);
      }
      assert text + [] == text;
    }
  }

  /** The loops that accumulate digits from the right, at least one. */
  method MakeDigits(value0: nat) returns (buf: array<byte>, cp: nat)
    requires |Digits(value0)| <= 22
    ensures fresh(buf) && cp <= buf.Length
    ensures Reversed(buf[..cp]) == if value0 == 0 then [Zero()] else Digits(value0)
  {
    buf := new byte[64];
    var value;
    value, cp := value0, 0;
    DigitsReversed(value0, buf[..0], value0);
    while value > 0
      invariant cp + |Digits(value)| == |Digits(value0)| && cp <= 22
      invariant Digits(value) + Reversed(buf[..cp]) == Digits(value0)
    {
      buf[cp] := (48 + value % 8) as byte;
      ReversedMore(buf[..cp], buf[cp], Digits(value / 8));
      assert buf[..cp + 1] == buf[..cp] + [buf[cp]];
      cp := cp + 1;
      value := value / 8;
    }
    assert Reversed(buf[..cp]) == Digits(value0);
    while cp < 1
      invariant cp <= 22 && (cp == 0 ==> value0 == 0)
      invariant Reversed(buf[..cp]) == if value0 == 0 && cp == 1 then [Zero()] else Digits(value0)
    {
      buf[cp] := 48;
      assert buf[..1] == [48] && [48][1..] == [];
      cp := cp + 1;
    }
  }

  function Reversed(s: text): (r: text)
    ensures |r| == |s|
  {
    if s == [] then [] else Reversed(s[1..]) + [s[0]]
  }

  lemma {:induction false} LastFirst(s: text, x: byte)
    ensures Reversed(s + [x]) == [x] + Reversed(s)
  {
    if s != [] {
      LastFirst(s[1..], x);
      assert (s + [x])[1..] == s[1..] + [x];
    }
  }

  lemma ReversedMore(s: text, x: byte, ds: text)
    ensures (ds + [x]) + Reversed(s) == ds + Reversed(s + [x])
  {
    LastFirst(s, x);
  }

  lemma DigitsReversed(v: nat, s: text, v0: nat)
    requires s == [] && v == v0
    ensures Digits(v) + Reversed(s) == Digits(v0)
  {
  }

  lemma PaddedIs(v: nat, width: nat, shown: text)
    requires shown == if v == 0 then [Zero()] else Digits(v)
    ensures Repeat(48, Max(width - |shown|, 0)) + shown == Padded(v, width)
  {
    if v == 0 {
      assert Repeat(48, Max(width - 1, 0)) + [Zero()] == Repeat(48, Max(width, 1)) + [];
    }
  }

  /** The bytes `t` stand at `start`. */
  ghost predicate Holds(s: seq<byte>, start: nat, t: text) {
    start + |t| <= |s| && forall k :: start <= k < start + |t| ==> s[k] == t[k - start]
  }

  /** What snprintf leaves of a text in a field of `size` bytes. */
  function Stored(t: text, size: nat): (r: text)
    requires size > 0
    ensures |r| <= size
  {
    (if |t| < size then t else t[..size - 1]) + [0]
  }

  /** snprintf (buffer + start, size, "%0<width>o", value) */
  method PrintOctal(buffer: array<byte>, start: nat, size: nat, width: nat, value: nat)
    requires size > 0 && start + size <= buffer.Length && |Digits(value)| <= 22
    modifies buffer
    ensures Holds(buffer[..], start, Stored(Padded(value, width), size))
    ensures forall k :: 0 <= k < buffer.Length && (k < start || start + size <= k) ==> buffer[k] == old(buffer[k])
  {
    hide Padded, Digits, Stored;
    var out := new Output(buffer, start, size);
    out.FormatOctal(value, width);
    EmptyBefore(out.text, Padded(value, width));
    out.Terminate();
  }

  lemma EmptyBefore(t: text, r: text)
    requires t == [] + r
    ensures t == r
  {
  }

  /** A text that fills its field up to the terminator leaves nothing of what was there. */
  lemma FieldFilled(was: seq<byte>, now: seq<byte>, start: nat, size: nat, t: text)
    requires size > 0 && start + size <= |was| == |now| && |t| == size - 1
    requires Holds(now, start, Stored(t, size))
    requires forall k :: 0 <= k < |was| && (k < start || start + size <= k) ==> now[k] == was[k]
    ensures now == Overwrite(was, start, t + [0])
  {
    forall k | 0 <= k < |now| ensures now[k] == Overwrite(was, start, t + [0])[k] {
    }
  }

  // ---------------------------------------------------------------- values

  predicate IsDigits(s: text) {
    forall i :: 0 <= i < |s| ==> 48 <= s[i] <= 55
  }

  /** The value of octal digits read from the left, after `v`. */
  function Value(s: text, v: nat): nat
    requires IsDigits(s)
    decreases |s|
  {
    if s == [] then v else Value(s[1..], v * 8 + (s[0] as int - 48))
  }

  lemma {:induction false} DigitsAre(v: nat)
    ensures IsDigits(Digits(v))
  {
    if v > 0 {
      DigitsAre(v / 8);
    }
  }

  lemma {:induction false} ValueJoin(s: text, t: text, v: nat)
    requires IsDigits(s) && IsDigits(t)
    ensures IsDigits(s + t) && Value(s + t, v) == Value(t, Value(s, v))
    decreases |s|
  {
    if s == [] {
      assert s + t == t;
    } else {
      assert (s + t)[1..] == s[1..] + t;
      ValueJoin(s[1..], t, v * 8 + (s[0] as int - 48));
    }
  }

  lemma {:induction false} ValueOfZeros(n: nat)
    ensures IsDigits(Repeat(Zero(), n)) && Value(Repeat(Zero(), n), 0) == 0
  {
    if n > 0 {
      ValueOfZeros(n - 1);
      assert Repeat(Zero(), n)[1..] == Repeat(Zero(), n - 1);
    }
  }

  lemma {:induction false} ValueOfDigits(v: nat)
    ensures IsDigits(Digits(v)) && Value(Digits(v), 0) == v
  {
    DigitsAre(v);
    if v > 0 {
      ValueOfDigits(v / 8);
      var d: text := [(48 + v % 8) as byte];
      ValueJoin(Digits(v / 8), d, 0);
      assert Value(d, v / 8) == v / 8 * 8 + v % 8 by { assert d[1..] == []; }
    }
  }

  /** Padding does not change the value. */
  lemma ValueOfPadded(v: nat, width: nat)
    ensures IsDigits(Padded(v, width)) && Value(Padded(v, width), 0) == v
  {
    var ds := Digits(v);
    var n := Max(Max(width, 1), |ds|) - |ds|;
    ValueOfZeros(n);
    ValueOfDigits(v);
    ValueJoin(Repeat(Zero(), n), ds, 0);
  }

  function Pow8(n: nat): nat {
    if n == 0 then 1 else 8 * Pow8(n - 1)
  }

  lemma {:induction false} DigitCount(v: nat, n: nat)
    requires v < Pow8(n)
    ensures |Digits(v)| <= n
  {
    if v > 0 {
      DigitCount(v / 8, n - 1);
    }
  }

  // ---------------------------------------------------------------- parsing

  /** parse_octal_field from some offset on, with the value so far; unsigned long has 32 bits. */
  function Parse(s: text, value: nat, first: bool): Option<nat> {
    if s == [] then None
    else if 48 <= s[0] <= 55 then
      if value > (WORD - 1) / 8 then None else Parse(s[1..], (s[0] as int - 48) + value * 8, false)
    else if s[0] == 32 || s[0] == 0 then (if first then None else Some(value))
    else None
  }

  /** parse_octal_field on `size` bytes from `start` on. */
  method ParseField(buffer: array<byte>, start: nat, size: nat) returns (r: Option<nat>)
    requires start + size <= buffer.Length
    ensures r == Parse(buffer[start..start + size], 0, true)
  {
    var value: nat := 0;
    var ofs := 0;
    while ofs < size
      invariant ofs <= size
      invariant Parse(buffer[start..start + size], 0, true) == Parse(buffer[start + ofs..start + size], value, ofs == 0)
    {
      var c := buffer[start + ofs];
      assert buffer[start + ofs..start + size][1..] == buffer[start + ofs + 1..start + size];
      if 48 <= c <= 55 {
        if value > (WORD - 1) / 8 {
          return None;
        }
        value := (c as int - 48) + value * 8;
      } else if c == 32 || c == 0 {
        return if ofs > 0 then Some(value) else None;
      } else {
        return None;
      }
      ofs := ofs + 1;
    }
    return None;
  }

  lemma {:induction false} ValueGrows(s: text, v: nat)
    requires IsDigits(s)
    ensures Value(s, v) >= v
    decreases |s|
  {
    if s != [] {
      ValueGrows(s[1..], v * 8 + (s[0] as int - 48));
    }
  }

  /** `k` digits, read on from `v`, then a space or a null byte. */
  ghost predicate Reads(s: text, k: nat, v: nat, r: nat) {
    k < |s| && IsDigits(s[..k]) && (s[k] == 32 || s[k] == 0) && Value(s[..k], v) == r
  }

  lemma ReadsMore(s: text, k: nat, v: nat, r: nat)
    requires s != [] && 48 <= s[0] <= 55
    ensures Reads(s, k, v, r) <==> k > 0 && Reads(s[1..], k - 1, v * 8 + (s[0] as int - 48), r)
  {
    if 0 < k < |s| {
      assert s[..k][1..] == s[1..][..k - 1] && s[..k] == [s[0]] + s[1..][..k - 1];
    }
  }

  lemma ReadsNow(s: text, k: nat, v: nat, r: nat)
    requires s != [] && !(48 <= s[0] <= 55)
    ensures Reads(s, k, v, r) <==> k == 0 && (s[0] == 32 || s[0] == 0) && r == v
  {
    if 0 < k < |s| {
      assert s[..k][0] == s[0];
    }
  }

  lemma ReadsAtLeast(s: text, k: nat, v: nat, r: nat)
    requires Reads(s, k, v, r)
    ensures v <= r
  {
    ValueGrows(s[..k], v);
  }

  /** The parser accepts exactly the fields with digits, at least one, up to a space or a
      null byte, whose value fits 32 bits, and gives that value. */
  lemma {:induction false} ParseMeans(s: text, v: nat, first: bool, r: nat)
    requires v < WORD
    ensures Parse(s, v, first) == Some(r) <==> r < WORD && exists k: nat :: (first ==> k > 0) && Reads(s, k, v, r)
    decreases |s|
  {
    hide Reads;
    if s == [] {
      forall k: nat ensures !Reads(s, k, v, r) {
        NothingToRead(k, v, r);
      }
    } else if 48 <= s[0] <= 55 {
      var v' := v * 8 + (s[0] as int - 48);
      if k: nat :| Reads(s, k, v, r) {
        ReadsMore(s, k, v, r);
        ReadsAtLeast(s[1..], k - 1, v', r);
      }
      if v' < WORD {
        ParseMeans(s[1..], v', false, r);
        if k: nat :| Reads(s[1..], k, v', r) {
          ReadsMore(s, k + 1, v, r);
        }
      }
    } else {
      ReadsNow(s, 0, v, r);
      if k: nat :| (first ==> k > 0) && Reads(s, k, v, r) {
        ReadsNow(s, k, v, r);
      }
    }
  }

  lemma NothingToRead(k: nat, v: nat, r: nat)
    ensures !Reads([], k, v, r)
  {
  }

  /** Digits with a terminator are parsed as their value if that fits 32 bits. */
  lemma {:induction false} ParseValue(s: text, v: nat, first: bool)
    requires IsDigits(s) && Value(s, v) < WORD && (s != [] || !first)
    ensures Parse(s + [0], v, first) == Some(Value(s, v))
    decreases |s|
  {
    if s != [] {
      var v' := v * 8 + (s[0] as int - 48);
      ValueGrows(s[1..], v');
      assert (s + [0])[1..] == s[1..] + [0];
      ParseValue(s[1..], v', false);
    } else {
      assert (s + [0])[0] == 0;
    }
  }

  /** What is printed into a field that it fills is parsed back. */
  lemma PrintThenParse(v: nat, width: nat)
    requires v < WORD
    ensures Parse(Padded(v, width) + [0], 0, true) == Some(v)
  {
    ValueOfPadded(v, width);
    ParseValue(Padded(v, width), 0, true);
  }
}
