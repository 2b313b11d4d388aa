/** Names on disk are UTF-16, names at the interface are UTF-8: the two codecs and how they undo
    each other. Bits are written as arithmetic: masks and shifts are ranges and powers of two. */
module Utf {
  import opened Common
  import opened Format

  type Unit = u: nat | u < 0x1_0000

  const UTF8_NAME_BUFFER_MAX := 766

  datatype Result<T> = Ok(value: T) | IllegalSequence | TooLong

  /** One character taken off the front of an input, and how many elements it took. */
  datatype Step = Char(wc: nat, size: nat) | Illegal

  // ---- One character each way.

  function ToUtf8(wc: nat): seq<Byte>
    requires wc <= 0x7fff_ffff
  {
    if wc <= 0x7f then [wc]
    else if wc <= 0x7ff then [0xc0 + wc / 0x40, Tail(wc)]
    else if wc <= 0xffff then [0xe0 + wc / 0x1000, Tail(wc / 0x40), Tail(wc)]
    else if wc <= 0x1f_ffff then [0xf0 + wc / 0x4_0000, Tail(wc / 0x1000), Tail(wc / 0x40), Tail(wc)]
    else if wc <= 0x3ff_ffff then
      [0xf8 + wc / 0x100_0000, Tail(wc / 0x4_0000), Tail(wc / 0x1000), Tail(wc / 0x40), Tail(wc)]
    else
      [0xfc + wc / 0x4000_0000, Tail(wc / 0x100_0000), Tail(wc / 0x4_0000), Tail(wc / 0x1000), Tail(wc / 0x40), Tail(wc)]
  }

  function Tail(n: nat): Byte { 0x80 + n % 0x40 }

  predicate IsTail(b: Byte) { 0x80 <= b < 0xc0 }

  predicate Tails(s: seq<Byte>, n: nat) {
    n <= |s| && forall i :: 1 <= i < n ==> IsTail(s[i])
  }

  /** The number of bytes that the first one announces; 0 for a byte that cannot be first. */
  function Announced(b: Byte): nat {
    if b < 0x80 then 1
    else if b < 0xc0 then 0
    else if b < 0xe0 then 2
    else if b < 0xf0 then 3
    else if b < 0xf8 then 4
    else if b < 0xfc then 5
    else if b < 0xfe then 6
    else 0
  }

  function Bits(b: Byte): nat { b % 0x40 }

  /** utf8_to_wchar */
  function FromUtf8(s: seq<Byte>): (r: Step)
    requires s != []
    ensures r.Char? ==> 1 <= r.size <= |s| && r.wc <= 0x7fff_ffff
  {
    var n := Announced(s[0]);
    if n == 0 || !Tails(s, n) then Illegal
    else if n == 1 then Char(s[0], 1)
    else if n == 2 then Char((s[0] - 0xc0) * 0x40 + Bits(s[1]), 2)
    else if n == 3 then Char((s[0] - 0xe0) * 0x1000 + Bits(s[1]) * 0x40 + Bits(s[2]), 3)
    else if n == 4 then Char((s[0] - 0xf0) * 0x4_0000 + Bits(s[1]) * 0x1000 + Bits(s[2]) * 0x40 + Bits(s[3]), 4)
    else if n == 5 then
      Char((s[0] - 0xf8) * 0x100_0000 + Bits(s[1]) * 0x4_0000 + Bits(s[2]) * 0x1000 + Bits(s[3]) * 0x40 + Bits(s[4]), 5)
    else
      Char((s[0] - 0xfc) * 0x4000_0000 + Bits(s[1]) * 0x100_0000 + Bits(s[2]) * 0x4_0000 + Bits(s[3]) * 0x1000
           + Bits(s[4]) * 0x40 + Bits(s[5]), 6)
  }

  predicate High(u: Unit) { 0xd800 <= u < 0xdc00 }

  predicate Low(u: Unit) { 0xdc00 <= u < 0xe000 }

  /** utf16_to_wchar: a high surrogate needs a low one after it, a lone low one passes. */
  function FromUtf16(s: seq<Unit>): (r: Step)
    requires s != []
    ensures r.Char? ==> 1 <= r.size <= |s| && r.wc <= 0x10_ffff && r.size <= 2
  {
    if High(s[0]) then
      if |s| < 2 || !Low(s[1]) then Illegal
      else Char((s[0] as int - 0xd800) * 0x400 + (s[1] as int - 0xdc00) + 0x1_0000, 2)
    else Char(s[0], 1)
  }

  /** wchar_to_utf16. Beyond 0x10ffff the upper bits are lost. */
  function ToUtf16(wc: nat): seq<Unit> {
    if wc <= 0xffff then [wc]
    else [0xd800 + (wc - 0x1_0000) / 0x400 % 0x400, 0xdc00 + (wc - 0x1_0000) % 0x400]
  }

  // ---- Whole strings, as far as the first zero, with room for a terminator.

  function Utf8Of(s: seq<Unit>, room: nat): Result<seq<Byte>>
    decreases |s|
  {
    if s == [] then (if room < 1 then TooLong else Ok([]))
    else
      var c := FromUtf16(s);
      if c.Illegal? then IllegalSequence
      else if |ToUtf8(c.wc)| > room then TooLong
      else if c.wc == 0 then Ok([])
      else
        var r := Utf8Of(s[c.size..], room - |ToUtf8(c.wc)|);
        if r.Ok? then Ok(ToUtf8(c.wc) + r.value) else r
  }

  function Utf16Of(s: seq<Byte>, room: nat): Result<seq<Unit>>
    decreases |s|
  {
    if s == [] then (if room < 1 then TooLong else Ok([]))
    else
      var c := FromUtf8(s);
      if c.Illegal? then IllegalSequence
      else if |ToUtf16(c.wc)| > room then TooLong
      else if c.wc == 0 then (if room < 2 then TooLong else Ok([]))
      else
        var r := Utf16Of(s[c.size..], room - |ToUtf16(c.wc)|);
        if r.Ok? then Ok(ToUtf16(c.wc) + r.value) else r
  }

  /** exfat_utf16_to_utf8: the bytes before the terminator. */
  method Utf16ToUtf8(input: seq<Unit>, outsize: nat) returns (r: Result<seq<Byte>>)
    ensures r == Utf8Of(input, outsize)
  {
    hide FromUtf8, FromUtf16, ToUtf8, ToUtf16;
    assert input[0..] == input;
    ghost var whole := Utf8Of(input, outsize);
    PrependedNothing(whole);
    var output: seq<Byte> := [];
    var i := 0;
    while i < |input|
      invariant i <= |input| && |output| <= outsize
      invariant whole == Prepended(output, Utf8Of(input[i..], outsize - |output|))
    {
      var c := FromUtf16(input[i..]);
      if c.Illegal? {
        return IllegalSequence;
      }
      if |ToUtf8(c.wc)| > outsize - |output| {
        return TooLong;
      }
      if c.wc == 0 {
        assert output + [] == output;
        return Ok(output);
      }
      assert input[i..][c.size..] == input[i + c.size..];
      PrependedTwice(output, ToUtf8(c.wc), Utf8Of(input[i + c.size..], outsize - |output| - |ToUtf8(c.wc)|));
      output := output + ToUtf8(c.wc);
      i := i + c.size;
    }
    assert output + [] == output;
    if |output| >= outsize {
      return TooLong;
    }
    return Ok(output);
  }

  lemma PrependedNothing<T>(r: Result<seq<T>>)
    ensures Prepended([], r) == r
  {
    if r.Ok? {
      assert [] + r.value == r.value;
    }
  }

  lemma PrependedTwice<T>(a: seq<T>, b: seq<T>, r: Result<seq<T>>)
    ensures Prepended(a + b, r) == Prepended(a, Prepended(b, r))
  {
    if r.Ok? {
      assert a + b + r.value == a + (b + r.value);
    }
  }

  function Prepended<T>(head: seq<T>, r: Result<seq<T>>): Result<seq<T>> {
    if r.Ok? then Ok(head + r.value) else r
  }

  /** exfat_utf8_to_utf16: the units before the terminator. */
  method Utf8ToUtf16(input: seq<Byte>, outsize: nat) returns (r: Result<seq<Unit>>)
    ensures r == Utf16Of(input, outsize)
  {
    hide FromUtf8, FromUtf16, ToUtf8, ToUtf16;
    assert input[0..] == input;
    ghost var whole := Utf16Of(input, outsize);
    PrependedNothing(whole);
    var output: seq<Unit> := [];
    var i := 0;
    while i < |input|
      invariant i <= |input| && |output| <= outsize
      invariant whole == Prepended(output, Utf16Of(input[i..], outsize - |output|))
    {
      var c := FromUtf8(input[i..]);
      if c.Illegal? {
        return IllegalSequence;
      }
      if |ToUtf16(c.wc)| > outsize - |output| {
        return TooLong;
      }
      if c.wc == 0 {
        assert output + [] == output;
        return if |output| + 1 >= outsize then TooLong else Ok(output);
      }
      assert input[i..][c.size..] == input[i + c.size..];
      PrependedTwice(output, ToUtf16(c.wc), Utf16Of(input[i + c.size..], outsize - |output| - |ToUtf16(c.wc)|));
      output := output + ToUtf16(c.wc);
      i := i + c.size;
    }
    assert output + [] == output;
    if |output| >= outsize {
      return TooLong;
    }
    return Ok(output);
  }

  // ---- One character there and back.

  lemma BitsOfTail(n: nat)
    ensures IsTail(Tail(n)) && Bits(Tail(n)) == n % 0x40
  {
  }

  lemma TailOfBits(b: Byte)
    requires IsTail(b)
    ensures Tail(Bits(b)) == b && Bits(b) < 0x40
  {
  }

  /** The base-64 digits of a number. */
  lemma Digits(wc: nat)
    ensures wc == wc / 0x40 * 0x40 + wc % 0x40
    ensures wc / 0x40 == wc / 0x1000 * 0x40 + wc / 0x40 % 0x40
    ensures wc / 0x1000 == wc / 0x4_0000 * 0x40 + wc / 0x1000 % 0x40
  {
  }

  /** What is encoded is decoded again, whatever follows. */
  lemma Utf8Inverse(wc: nat, rest: seq<Byte>)
    requires wc <= 0x10_ffff
    ensures FromUtf8(ToUtf8(wc) + rest) == Char(wc, |ToUtf8(wc)|)
  {
    hide Bits, Tail, IsTail;
    Digits(wc);
    BitsOfTail(wc);
    BitsOfTail(wc / 0x40);
    BitsOfTail(wc / 0x1000);
    var s := ToUtf8(wc) + rest;
    assert forall i :: 0 <= i < |ToUtf8(wc)| ==> s[i] == ToUtf8(wc)[i];
  }

  lemma Utf16Inverse(wc: nat, rest: seq<Unit>)
    requires wc <= 0x10_ffff && !(0xd800 <= wc < 0xdc00)
    ensures FromUtf16(ToUtf16(wc) + rest) == Char(wc, |ToUtf16(wc)|)
  {
    assert wc > 0xffff ==> wc - 0x1_0000 == (wc - 0x1_0000) / 0x400 * 0x400 + (wc - 0x1_0000) % 0x400;
  }

  /** The two units, or the one, that a character came from. */
  lemma Utf16Back(s: seq<Unit>)
    requires s != [] && FromUtf16(s).Char?
    ensures var c := FromUtf16(s); ToUtf16(c.wc) == s[..c.size] && !(0xd800 <= c.wc < 0xdc00)
  {
    if High(s[0]) {
      var x := (s[0] as int - 0xd800) * 0x400 + (s[1] as int - 0xdc00);
      assert x / 0x400 == s[0] - 0xd800 && x % 0x400 == s[1] - 0xdc00;
    }
  }

  // ---- Well-formed UTF-8, section 4 of RFC 3629, byte by byte.

  /** Length of the well-formed character at the front, 0 when there is none. */
  function WellFormedChar(s: seq<Byte>): (n: nat)
    requires s != []
    ensures n <= |s|
  {
    if s[0] <= 0x7f then 1
    else if 0xc2 <= s[0] <= 0xdf && Tails(s, 2) then 2
    else if s[0] == 0xe0 && Tails(s, 3) && 0xa0 <= s[1] then 3
    else if (0xe1 <= s[0] <= 0xec || 0xee <= s[0] <= 0xef) && Tails(s, 3) then 3
    else if s[0] == 0xed && Tails(s, 3) && s[1] <= 0x9f then 3
    else if s[0] == 0xf0 && Tails(s, 4) && 0x90 <= s[1] then 4
    else if 0xf1 <= s[0] <= 0xf3 && Tails(s, 4) then 4
    else if s[0] == 0xf4 && Tails(s, 4) && s[1] <= 0x8f then 4
    else 0
  }

  predicate WellFormed(s: seq<Byte>)
    decreases |s|
  {
    s == [] || (WellFormedChar(s) > 0 && WellFormed(s[WellFormedChar(s)..]))
  }

  /** Digits below 64 are recovered by division. */
  lemma DigitsBack(h: nat, a: nat, b: nat, c: nat)
    requires a < 0x40 && b < 0x40 && c < 0x40
    ensures (h * 0x40 + a) / 0x40 == h && (h * 0x40 + a) % 0x40 == a
    ensures var w := h * 0x1000 + a * 0x40 + b; w / 0x40 == h * 0x40 + a && w % 0x40 == b && w / 0x1000 == h
    ensures var w := h * 0x4_0000 + a * 0x1000 + b * 0x40 + c;
      w / 0x40 == h * 0x1000 + a * 0x40 + b && w % 0x40 == c && w / 0x1000 == h * 0x40 + a && w / 0x4_0000 == h
  {
  }

  lemma TailMod(n: nat, b: Byte)
    requires IsTail(b) && n % 0x40 == Bits(b)
    ensures Tail(n) == b
  {
  }

  /** A well-formed character is decoded, and encoded to itself. */
  lemma WellFormedBack(s: seq<Byte>)
    requires s != [] && WellFormedChar(s) > 0
    ensures var c := FromUtf8(s);
      && c.Char? && c.size == WellFormedChar(s) && c.wc <= 0x10_ffff && !(0xd800 <= c.wc < 0xe000)
      && ToUtf8(c.wc) == s[..c.size] && (c.wc == 0 <==> s[0] == 0)
  {
    var n := WellFormedChar(s);
    if n == 2 {
      WellFormedTwo(s);
    } else if n == 3 {
      WellFormedThree(s);
    } else if n == 4 {
      WellFormedFour(s);
    }
  }

  lemma WellFormedTwo(s: seq<Byte>)
    requires s != [] && WellFormedChar(s) == 2
    ensures var c := FromUtf8(s); c.Char? && c.size == 2 && 0x80 <= c.wc <= 0x7ff && ToUtf8(c.wc) == s[..2]
  {
    hide Bits, Tail;
    TailOfBits(s[1]);
    DigitsBack(s[0] as int - 0xc0, Bits(s[1]), 0, 0);
    TailMod(FromUtf8(s).wc, s[1]);
  }

  lemma WellFormedThree(s: seq<Byte>)
    requires s != [] && WellFormedChar(s) == 3
    ensures var c := FromUtf8(s); c.Char? && c.size == 3 && 0x800 <= c.wc <= 0xffff && !(0xd800 <= c.wc < 0xe000)
    ensures ToUtf8(FromUtf8(s).wc) == s[..3]
  {
    hide Bits, Tail;
    TailOfBits(s[1]);
    TailOfBits(s[2]);
    SecondByte(s[1]);
    DigitsBack(s[0] as int - 0xe0, Bits(s[1]), Bits(s[2]), 0);
    var wc := FromUtf8(s).wc;
    DigitsBack(s[0] as int - 0xe0, Bits(s[1]), 0, 0);
    TailMod(wc, s[2]);
    TailMod(wc / 0x40, s[1]);
  }

  lemma WellFormedFour(s: seq<Byte>)
    requires s != [] && WellFormedChar(s) == 4
    ensures var c := FromUtf8(s); c.Char? && c.size == 4 && 0x1_0000 <= c.wc <= 0x10_ffff
    ensures ToUtf8(FromUtf8(s).wc) == s[..4]
  {
    hide Bits, Tail;
    TailOfBits(s[1]);
    TailOfBits(s[2]);
    TailOfBits(s[3]);
    SecondByte(s[1]);
    var h := s[0] as int - 0xf0;
    DigitsBack(h, Bits(s[1]), Bits(s[2]), Bits(s[3]));
    var wc := FromUtf8(s).wc;
    TailMod(wc, s[3]);
    TailMod(wc / 0x40, s[2]);
    TailMod(wc / 0x1000, s[1]);
  }

  lemma SecondByte(b: Byte)
    requires IsTail(b)
    ensures Bits(b) == b - 0x80
  {
  }

  // ---- The codecs undo each other.

  lemma CStringStep(s: seq<Unit>)
    requires s != [] && FromUtf16(s).Char?
    ensures var c := FromUtf16(s);
      CString(s) == if c.wc == 0 then [] else s[..c.size] + CString(s[c.size..])
  {
    var c := FromUtf16(s);
    if c.wc != 0 {
      if c.size == 2 {
        assert s[1..][1..] == s[2..];
        assert s[..2] == [s[0], s[1]];
      } else {
        assert s[..1] == [s[0]];
      }
    }
  }

  /** Every name that has a UTF-8 form gets its UTF-16 form back from it. */
  lemma {:induction false} Utf16RoundTrip(s: seq<Unit>, room: nat, room': nat)
    requires Utf8Of(s, room).Ok? && |CString(s)| < room'
    ensures Utf16Of(Utf8Of(s, room).value, room') == Ok(CString(s))
    decreases |s|
  {
    hide FromUtf16, FromUtf8, ToUtf8, ToUtf16, CString;
    if s == [] {
      CStringEmpty();
    } else {
      var c := FromUtf16(s);
      CStringStep(s);
      if c.wc != 0 {
        var enc := ToUtf8(c.wc);
        Utf16Back(s);
        var rest := s[c.size..];
        Utf16RoundTrip(rest, room - |enc|, room' - c.size);
        var b := Utf8Of(rest, room - |enc|).value;
        Utf8Inverse(c.wc, b);
        Utf8NotEmpty(c.wc);
        assert (enc + b)[|enc|..] == b;
      }
    }
  }

  lemma CStringEmpty()
    ensures CString([]) == []
  {
  }

  lemma Utf8NotEmpty(wc: nat)
    requires wc <= 0x10_ffff
    ensures 1 <= |ToUtf8(wc)| <= 4 && (wc <= 0xffff ==> |ToUtf8(wc)| <= 3)
  {
  }

  /** Every well-formed UTF-8 name without a zero gets its bytes back from its UTF-16 form. */
  lemma {:induction false} Utf8RoundTrip(s: seq<Byte>, room: nat, room': nat)
    requires WellFormed(s) && 0 !in s && Utf16Of(s, room).Ok? && |s| < room'
    ensures Utf8Of(Utf16Of(s, room).value, room') == Ok(s)
    decreases |s|
  {
    hide FromUtf16, FromUtf8, ToUtf8, ToUtf16, WellFormedChar;
    if s != [] {
      var c := FromUtf8(s);
      WellFormedBack(s);
      assert s[0] in s;
      var units, rest := ToUtf16(c.wc), s[c.size..];
      assert forall b :: b in rest ==> b in s;
      Utf8RoundTrip(rest, room - |units|, room' - c.size);
      var u := Utf16Of(rest, room - |units|).value;
      Utf16Inverse(c.wc, u);
      Utf16NotEmpty(c.wc);
      assert (units + u)[|units|..] == u;
      assert s == s[..c.size] + rest;
    }
  }

  lemma Utf16NotEmpty(wc: nat)
    ensures 1 <= |ToUtf16(wc)| <= 2
  {
  }

  /** Well-formed input is never illegal, and needs no more units than it has bytes. */
  lemma {:induction false} WellFormedFits(s: seq<Byte>, room: nat)
    requires WellFormed(s) && 0 !in s && |s| < room
    ensures Utf16Of(s, room).Ok?
    decreases |s|
  {
    hide FromUtf8, ToUtf16, WellFormedChar, ToUtf8;
    if s != [] {
      var c := FromUtf8(s);
      WellFormedBack(s);
      assert s[0] in s;
      UnitsPerBytes(s);
      var rest := s[c.size..];
      assert forall b :: b in rest ==> b in s;
      WellFormedFits(rest, room - |ToUtf16(c.wc)|);
    }
  }

  lemma UnitsPerBytes(s: seq<Byte>)
    requires s != [] && WellFormedChar(s) > 0
    ensures |ToUtf16(FromUtf8(s).wc)| <= WellFormedChar(s)
  {
    var n := WellFormedChar(s);
    if n == 2 {
      WellFormedTwo(s);
    } else if n == 3 {
      WellFormedThree(s);
    } else if n == 4 {
      WellFormedFour(s);
    }
  }

  /** Whether every high surrogate before the first zero has its low surrogate. */
  predicate Paired(s: seq<Unit>)
    decreases |s|
  {
    s == [] || (FromUtf16(s).Char? && (FromUtf16(s).wc == 0 || Paired(s[FromUtf16(s).size..])))
  }

  /** Three bytes for each unit and one for the terminator are enough; what is refused is an
      unpaired high surrogate, and nothing else. */
  lemma {:induction false} UnitsFit(s: seq<Unit>, room: nat)
    requires 3 * |s| < room
    ensures if Paired(s) then Utf8Of(s, room).Ok? else Utf8Of(s, room) == IllegalSequence
    decreases |s|
  {
    hide FromUtf16, ToUtf8;
    if s != [] {
      var c := FromUtf16(s);
      if c.Char? {
        BytesPerUnits(s);
        Utf8NotEmpty(c.wc);
        if c.wc != 0 {
          UnitsFit(s[c.size..], room - |ToUtf8(c.wc)|);
        }
      }
    }
  }

  lemma BytesPerUnits(s: seq<Unit>)
    requires s != [] && FromUtf16(s).Char?
    ensures |ToUtf8(FromUtf16(s).wc)| <= 3 * FromUtf16(s).size
  {
  }

  /** A name of up to 255 units always fits the 766-byte buffer. */
  lemma NameFits(s: seq<Unit>)
    requires |s| <= NAME_MAX
    ensures Utf8Of(s, UTF8_NAME_BUFFER_MAX) != TooLong
    ensures Utf8Of(s, UTF8_NAME_BUFFER_MAX).Ok? <==> Paired(s)
  {
    UnitsFit(s, UTF8_NAME_BUFFER_MAX);
  }
}
