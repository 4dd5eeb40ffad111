/**
 UTF-8 as RFC 3629 defines it: section 3 gives the encoding of a scalar value, section 4 the grammar
 of octets. The standard library's checks are stated with the grammar; the two are proved to agree.
 */
module Utf8 {
  type Byte = b: int | 0 <= b < 256

  predicate Scalar(c: int) { 0 <= c < 0xD800 || 0xE000 <= c < 0x110000 }

  /** Section 3 of RFC 3629. */
  function Encode(c: int): (bs: seq<Byte>)
    requires Scalar(c)
    ensures 1 <= |bs| <= 4
  {
    if c < 0x80 then [c]
    else if c < 0x800 then [0xC0 + c / 0x40, 0x80 + c % 0x40]
    else if c < 0x10000 then [0xE0 + c / 0x1000, 0x80 + c / 0x40 % 0x40, 0x80 + c % 0x40]
    else [0xF0 + c / 0x40000, 0x80 + c / 0x1000 % 0x40, 0x80 + c / 0x40 % 0x40, 0x80 + c % 0x40]
  }

  predicate Scalars(cs: seq<int>) { forall i :: 0 <= i < |cs| ==> Scalar(cs[i]) }

  function EncodeAll(cs: seq<int>): seq<Byte>
    requires Scalars(cs)
  {
    if cs == [] then [] else Encode(cs[0]) + EncodeAll(cs[1..])
  }

  /** Some text encodes to these bytes. */
  ghost predicate WellFormed(bs: seq<Byte>) {
    exists cs :: Scalars(cs) && EncodeAll(cs) == bs
  }

  // --- The size of a text ---------------------------------------------------------------------

  function CharBytes(c: char): nat {
    if c as int < 0x80 then 1 else if c as int < 0x800 then 2 else if c as int < 0x10000 then 3 else 4
  }

  /** The number of bytes a text takes. */
  function ByteLen(s: string): nat {
    if s == "" then 0 else CharBytes(s[0]) + ByteLen(s[1..])
  }

  function CodePoints(s: string): (cs: seq<int>)
    ensures |cs| == |s| && Scalars(cs)
  {
    seq(|s|, i requires 0 <= i < |s| => s[i] as int)
  }

  /** A text takes as many bytes as its encoding has. */
  lemma {:induction false} ByteLenIsEncoded(s: string)
    ensures ByteLen(s) == |EncodeAll(CodePoints(s))|
  {
    if s != "" {
      ByteLenIsEncoded(s[1..]);
      assert CodePoints(s)[1..] == CodePoints(s[1..]);
    }
  }

  // --- The grammar -------------------------------------------------------------------------

  predicate Tail(b: Byte) { 0x80 <= b <= 0xBF }

  /** How many octets a leading octet announces, and 0 if it cannot lead. */
  function Announced(b: Byte): (n: nat)
    ensures n <= 4
  {
    if b <= 0x7F then 1
    else if 0xC2 <= b <= 0xDF then 2
    else if 0xE0 <= b <= 0xEF then 3
    else if 0xF0 <= b <= 0xF4 then 4
    else 0
  }

  /** The second octet that a leading octet of three or four allows. */
  predicate Second(lead: Byte, b: Byte) {
    if lead == 0xE0 then 0xA0 <= b <= 0xBF
    else if lead == 0xED then 0x80 <= b <= 0x9F
    else if lead == 0xF0 then 0x90 <= b <= 0xBF
    else if lead == 0xF4 then 0x80 <= b <= 0x8F
    else Tail(b)
  }

  /** Section 4 of RFC 3629: the octets of exactly one character. */
  predicate IsChar(bs: seq<Byte>) {
    && |bs| > 0 && |bs| == Announced(bs[0])
    && (|bs| > 1 ==> Second(bs[0], bs[1]))
    && (|bs| > 2 ==> Tail(bs[2]))
    && (|bs| > 3 ==> Tail(bs[3]))
  }

  /** The grammar of a string, read from the left. */
  predicate Valid(bs: seq<Byte>) {
    bs == [] ||
    var n := Announced(bs[0]);
    0 < n <= |bs| && IsChar(bs[..n]) && Valid(bs[n..])
  }

  function DecodeChar(bs: seq<Byte>): int
    requires IsChar(bs)
  {
    var (b0, n) := (bs[0] as int, |bs|);
    if n == 1 then b0
    else if n == 2 then Join(b0 - 0xC0, bs[1])
    else if n == 3 then Join(Join(b0 - 0xE0, bs[1]), bs[2])
    else Join(Join(Join(b0 - 0xF0, bs[1]), bs[2]), bs[3])
  }

  /** Append the six payload bits of a tail. */
  function Join(high: int, tail: Byte): int { high * 0x40 + (tail as int - 0x80) }

  lemma JoinSplits(high: int, tail: Byte)
    requires Tail(tail)
    ensures Join(high, tail) / 0x40 == high && Join(high, tail) % 0x40 == tail as int - 0x80
  {
  }

  /** A character's octets give back a scalar value that encodes to them. */
  lemma CharIsScalar(bs: seq<Byte>)
    requires IsChar(bs)
    ensures Scalar(DecodeChar(bs)) && Encode(DecodeChar(bs)) == bs
  {
    hide Join, Encode, Scalar;
    var n := |bs|;
    if n == 1 {
      OneByte(bs[0]);
    } else if n == 2 {
      TwoBytes(bs[0], bs[1]);
    } else if n == 3 {
      ThreeBytes(bs[0], bs[1], bs[2]);
    } else {
      FourBytes(bs[0], bs[1], bs[2], bs[3]);
    }
  }

  lemma OneByte(b0: Byte)
    requires b0 <= 0x7F
    ensures Scalar(b0) && Encode(b0) == [b0]
  {
  }

  lemma TwoBytes(b0: Byte, b1: Byte)
    requires 0xC2 <= b0 <= 0xDF && Tail(b1)
    ensures var c := Join(b0 - 0xC0, b1); Scalar(c) && Encode(c) == [b0, b1]
  {
    JoinSplits(b0 - 0xC0, b1);
  }

  lemma ThreeBytes(b0: Byte, b1: Byte, b2: Byte)
    requires 0xE0 <= b0 <= 0xEF && Second(b0, b1) && Tail(b2)
    ensures var c := Join(Join(b0 - 0xE0, b1), b2); Scalar(c) && Encode(c) == [b0, b1, b2]
  {
    var high := Join(b0 - 0xE0, b1);
    JoinSplits(b0 - 0xE0, b1);
    JoinSplits(high, b2);
    assert Join(high, b2) / 0x1000 == high / 0x40;
  }

  /** Where the payload bits of four octets stand in a scalar value. */
  lemma FourSplit(lead: int, b1: Byte, b2: Byte, b3: Byte)
    requires Tail(b1) && Tail(b2) && Tail(b3)
    ensures var c := Join(Join(Join(lead, b1), b2), b3);
      && c / 0x40000 == lead && c / 0x1000 % 0x40 == b1 as int - 0x80
      && c / 0x40 % 0x40 == b2 as int - 0x80 && c % 0x40 == b3 as int - 0x80
  {
    hide Tail;
    var top := Join(lead, b1);
    var high := Join(top, b2);
    JoinSplits(lead, b1);
    JoinSplits(top, b2);
    JoinSplits(high, b3);
    DividedTwice(Join(high, b3));
  }

  lemma DividedTwice(c: int)
    ensures c / 0x1000 == c / 0x40 / 0x40 && c / 0x40000 == c / 0x1000 / 0x40
  {
  }

  lemma FourInRange(b0: Byte, b1: Byte, b2: Byte, b3: Byte)
    requires 0xF0 <= b0 <= 0xF4 && Second(b0, b1) && Tail(b2) && Tail(b3)
    ensures 0x10000 <= Join(Join(Join(b0 - 0xF0, b1), b2), b3) <= 0x10FFFF
  {
  }

  lemma FourBytes(b0: Byte, b1: Byte, b2: Byte, b3: Byte)
    requires 0xF0 <= b0 <= 0xF4 && Second(b0, b1) && Tail(b2) && Tail(b3)
    ensures var c := Join(Join(Join(b0 - 0xF0, b1), b2), b3); Scalar(c) && Encode(c) == [b0, b1, b2, b3]
  {
    hide Join;
    FourSplit(b0 - 0xF0, b1, b2, b3);
    FourInRange(b0, b1, b2, b3);
  }

  lemma ThreeAreAChar(c: int)
    requires Scalar(c) && 0x800 <= c < 0x10000
    ensures IsChar([0xE0 + c / 0x1000, 0x80 + c / 0x40 % 0x40, 0x80 + c % 0x40])
  {
    var lead, second := c / 0x1000, c / 0x40 % 0x40;
    assert c / 0x40 == lead * 0x40 + second;
  }

  lemma FourAreAChar(c: int)
    requires Scalar(c) && 0x10000 <= c
    ensures IsChar([0xF0 + c / 0x40000, 0x80 + c / 0x1000 % 0x40, 0x80 + c / 0x40 % 0x40, 0x80 + c % 0x40])
  {
    var lead, second := c / 0x40000, c / 0x1000 % 0x40;
    assert c / 0x1000 == lead * 0x40 + second;
  }

  /** The encoding of a scalar value is the octets of one character. */
  lemma ScalarIsChar(c: int)
    requires Scalar(c)
    ensures IsChar(Encode(c))
  {
    if 0x800 <= c < 0x10000 {
      hide IsChar;
      ThreeAreAChar(c);
    } else if 0x10000 <= c {
      hide IsChar;
      FourAreAChar(c);
    }
  }

  /** The grammar accepts exactly the encodings. */
  lemma {:induction false} ValidIsWellFormed(bs: seq<Byte>)
    ensures Valid(bs) <==> WellFormed(bs)
  {
    if Valid(bs) {
      var cs := TextOf(bs);
      assert EncodeAll(cs) == bs;
    }
    if WellFormed(bs) {
      var cs :| Scalars(cs) && EncodeAll(cs) == bs;
      EncodingsAreValid(cs);
    }
  }

  lemma {:induction false} EncodingsAreValid(cs: seq<int>)
    requires Scalars(cs)
    ensures Valid(EncodeAll(cs))
  {
    if cs != [] {
      ScalarIsChar(cs[0]);
      EncodingsAreValid(cs[1..]);
      ValidCons(Encode(cs[0]), EncodeAll(cs[1..]));
    }
  }

  lemma ValidCons(first: seq<Byte>, rest: seq<Byte>)
    requires IsChar(first)
    ensures Valid(first + rest) <==> Valid(rest)
  {
    assert (first + rest)[..|first|] == first && (first + rest)[|first|..] == rest;
  }

  lemma EncodeCons(first: int, rest: seq<int>)
    requires Scalar(first) && Scalars(rest)
    ensures Scalars([first] + rest) && EncodeAll([first] + rest) == Encode(first) + EncodeAll(rest)
  {
    assert ([first] + rest)[1..] == rest;
  }

  lemma FirstCharacter(bs: seq<Byte>)
    requires Valid(bs) && bs != []
    ensures var n := Announced(bs[0]); 0 < n <= |bs| && IsChar(bs[..n]) && Valid(bs[n..])
  {
    hide IsChar, Announced;
  }

  /** The text that valid bytes encode. */
  lemma {:induction false} TextOf(bs: seq<Byte>) returns (cs: seq<int>)
    requires Valid(bs)
    ensures Scalars(cs) && EncodeAll(cs) == bs
  {
    hide Valid, IsChar, Announced, Scalar, Encode, DecodeChar;
    if bs == [] {
      cs := [];
    } else {
      var n := Announced(bs[0]);
      FirstCharacter(bs);
      CharIsScalar(bs[..n]);
      var rest := TextOf(bs[n..]);
      EncodeCons(DecodeChar(bs[..n]), rest);
      assert bs == bs[..n] + bs[n..];
      cs := [DecodeChar(bs[..n])] + rest;
    }
  }

  // --- Where a check stops -------------------------------------------------------------------

  /** The length of the longest valid prefix (`Utf8Error::valid_up_to`). */
  function ValidUpTo(bs: seq<Byte>): (n: nat)
    ensures n <= |bs|
  {
    if bs == [] then 0
    else
      var n := Announced(bs[0]);
      if 0 < n <= |bs| && IsChar(bs[..n]) then n + ValidUpTo(bs[n..]) else 0
  }

  lemma {:induction false} ValidUpToIsAPrefix(bs: seq<Byte>)
    ensures Valid(bs[..ValidUpTo(bs)])
    ensures ValidUpTo(bs) == |bs| <==> Valid(bs)
  {
    hide IsChar, Announced;
    if bs != [] {
      var n := Announced(bs[0]);
      if 0 < n <= |bs| && IsChar(bs[..n]) {
        ValidUpToIsAPrefix(bs[n..]);
        var m := ValidUpTo(bs[n..]);
        assert bs[..n + m] == bs[..n] + bs[n..][..m];
        ValidCons(bs[..n], bs[n..][..m]);
      }
    }
  }

  /** No longer prefix is valid. */
  lemma {:induction false} ValidUpToIsLongest(bs: seq<Byte>, n: nat)
    requires n <= |bs| && Valid(bs[..n])
    ensures n <= ValidUpTo(bs)
  {
    hide IsChar, Announced;
    if n > 0 {
      var k := Announced(bs[0]);
      assert bs[..n][0] == bs[0];
      assert bs[..n][..k] == bs[..k] && bs[..n][k..] == bs[k..][..n - k];
      ValidUpToIsLongest(bs[k..], n - k);
    }
  }

  /** The bytes begin a character and end before it does (`error_len()` is `None`). */
  predicate Incomplete(bs: seq<Byte>) {
    && 0 < |bs| < Announced(bs[0])
    && (|bs| > 1 ==> Second(bs[0], bs[1]))
    && (|bs| > 2 ==> Tail(bs[2]))
  }

  ghost predicate BeginsAChar(bs: seq<Byte>) {
    exists more: seq<Byte> :: more != [] && IsChar(bs + more)
  }

  lemma IncompleteBeginsAChar(bs: seq<Byte>)
    requires bs != []
    ensures Incomplete(bs) <==> BeginsAChar(bs)
    ensures Incomplete(bs) ==> |bs| <= 3
  {
    if Incomplete(bs) {
      var second := if bs[0] == 0xE0 then 0xA0 else if bs[0] == 0xF0 then 0x90 else 0x80;
      var more: seq<Byte> :=
        if |bs| == 1 then [second, 0x80, 0x80][..Announced(bs[0]) - 1]
        else [0x80, 0x80][..Announced(bs[0]) - |bs|];
      assert IsChar(bs + more);
    }
    if BeginsAChar(bs) {
      var more: seq<Byte> :| more != [] && IsChar(bs + more);
      assert (bs + more)[0] == bs[0];
      assert |bs| > 1 ==> (bs + more)[1] == bs[1];
      assert |bs| > 2 ==> (bs + more)[2] == bs[2];
    }
  }
}
