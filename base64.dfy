/** Base64 as `atob` decodes it: the alphabet and padding of section 4 of
    RFC 4648, read strictly (length a multiple of four, padding only at the
    end). As `atob` does, the unused low bits of a padded final group are
    discarded rather than checked. */
module Base64 {
  import opened Wrappers

  type Byte = b: int | 0 <= b < 256
  type Sextet = d: int | 0 <= d < 64

  const Pad: char := '='

  /** Table 1 of RFC 4648: the character encoding a 6-bit value. */
  function CharOf(d: Sextet): char {
    if d < 26 then ('A' as int + d) as char
    else if d < 52 then ('a' as int + (d - 26)) as char
    else if d < 62 then ('0' as int + (d - 52)) as char
    else if d == 62 then '+'
    else '/'
  }

  /** The 6-bit value a character encodes, or `None` outside the alphabet. */
  function IndexOf(c: char): Option<Sextet> {
    if 'A' <= c <= 'Z' then Some(c as int - 'A' as int)
    else if 'a' <= c <= 'z' then Some(c as int - 'a' as int + 26)
    else if '0' <= c <= '9' then Some(c as int - '0' as int + 52)
    else if c == '+' then Some(62)
    else if c == '/' then Some(63)
    else None
  }

  predicate InAlphabet(c: char) {
    IndexOf(c).Some?
  }

  /** The alphabet is a bijection between 6-bit values and its 64 characters,
      and the pad character is not one of them. */
  lemma AlphabetBijection(d: Sextet, c: char)
    ensures IndexOf(CharOf(d)) == Some(d)
    ensures IndexOf(c).Some? ==> CharOf(IndexOf(c).value) == c
    ensures !InAlphabet(Pad)
  {
  }

  /** Three bytes as four characters. */
  function EncodeGroup(b0: Byte, b1: Byte, b2: Byte): string {
    [CharOf(b0 / 4), CharOf((b0 % 4) * 16 + b1 / 16), CharOf((b1 % 16) * 4 + b2 / 64), CharOf(b2 % 64)]
  }

  /** A final single byte: two characters and two pads. */
  function EncodeOne(b0: Byte): string {
    [CharOf(b0 / 4), CharOf((b0 % 4) * 16), Pad, Pad]
  }

  /** A final pair of bytes: three characters and one pad. */
  function EncodeTwo(b0: Byte, b1: Byte): string {
    [CharOf(b0 / 4), CharOf((b0 % 4) * 16 + b1 / 16), CharOf((b1 % 16) * 4), Pad]
  }

  /** The base64 encoding of a byte sequence (the inverse of `atob`). The
      output is whole four-character groups, one per started three bytes. */
  function Encode(bs: seq<Byte>): (s: string)
    ensures |s| % 4 == 0 && |s| / 4 == (|bs| + 2) / 3
    decreases |bs|
  {
    if |bs| == 0 then ""
    else if |bs| == 1 then EncodeOne(bs[0])
    else if |bs| == 2 then EncodeTwo(bs[0], bs[1])
    else
      EncodeGroup(bs[0], bs[1], bs[2]) + Encode(bs[3..])
  }

  /** The byte spread over the first two sextets of a group. */
  function First(s0: Sextet, s1: Sextet): Byte {
    s0 * 4 + s1 / 16
  }

  /** The byte spread over the second and third sextets of a group. */
  function Second(s1: Sextet, s2: Sextet): Byte {
    (s1 % 16) * 16 + s2 / 4
  }

  /** The byte spread over the last two sextets of a group. */
  function Third(s2: Sextet, s3: Sextet): Byte {
    (s2 % 4) * 64 + s3
  }

  /** An encoding uses only the alphabet and the pad character (so, among
      others, never the `,` that ends a data URI's body). */
  lemma {:induction false} EncodeAlphabet(bs: seq<Byte>)
    ensures forall i :: 0 <= i < |Encode(bs)| ==> InAlphabet(Encode(bs)[i]) || Encode(bs)[i] == Pad
    decreases |bs|
  {
    if |bs| > 3 {
      EncodeAlphabet(bs[3..]);
      var g := EncodeGroup(bs[0], bs[1], bs[2]);
      assert Encode(bs) == g + Encode(bs[3..]);
      forall i | 0 <= i < 4
        ensures InAlphabet(g[i])
      {
        AlphabetBijection(if i == 0 then bs[0] / 4 else if i == 1 then (bs[0] % 4) * 16 + bs[1] / 16
                          else if i == 2 then (bs[1] % 16) * 4 + bs[2] / 64 else bs[2] % 64, g[i]);
      }
    } else if |bs| == 3 {
      var g := EncodeGroup(bs[0], bs[1], bs[2]);
      assert Encode(bs) == g + Encode([]);
      forall i | 0 <= i < 4
        ensures InAlphabet(g[i])
      {
        AlphabetBijection(if i == 0 then bs[0] / 4 else if i == 1 then (bs[0] % 4) * 16 + bs[1] / 16
                          else if i == 2 then (bs[1] % 16) * 4 + bs[2] / 64 else bs[2] % 64, g[i]);
      }
    } else if |bs| == 2 {
      AlphabetBijection(bs[0] / 4, 'A');
      AlphabetBijection((bs[0] % 4) * 16 + bs[1] / 16, 'A');
      AlphabetBijection((bs[1] % 16) * 4, 'A');
    } else if |bs| == 1 {
      AlphabetBijection(bs[0] / 4, 'A');
      AlphabetBijection((bs[0] % 4) * 16, 'A');
    }
  }

  /** The value of an alphabet character. */
  function Value(c: char): Sextet
    requires InAlphabet(c)
  {
    IndexOf(c).value
  }

  /** Four alphabet characters as three bytes. */
  function DecodeFull(q: string): Option<seq<Byte>>
    requires |q| == 4
  {
    if InAlphabet(q[0]) && InAlphabet(q[1]) && InAlphabet(q[2]) && InAlphabet(q[3]) then
      Some([First(Value(q[0]), Value(q[1])), Second(Value(q[1]), Value(q[2])), Third(Value(q[2]), Value(q[3]))])
    else None
  }

  /** The final group, which may end in one or two pad characters. */
  function DecodeFinal(q: string): Option<seq<Byte>>
    requires |q| == 4
  {
    if q[2] == Pad && q[3] == Pad then
      if InAlphabet(q[0]) && InAlphabet(q[1]) then Some([First(Value(q[0]), Value(q[1]))]) else None
    else if q[3] == Pad then
      if InAlphabet(q[0]) && InAlphabet(q[1]) && InAlphabet(q[2]) then
        Some([First(Value(q[0]), Value(q[1])), Second(Value(q[1]), Value(q[2]))])
      else None
    else
      DecodeFull(q)
  }

  /** The number of pad characters ending `s`, up to two. */
  function PadCount(s: string): (n: nat)
    ensures n <= 2 && n <= |s|
    ensures forall k :: |s| - n <= k < |s| ==> s[k] == Pad
  {
    if |s| >= 2 && s[|s| - 1] == Pad && s[|s| - 2] == Pad then 2
    else if |s| >= 1 && s[|s| - 1] == Pad then 1
    else 0
  }

  /** Strict decoding; `None` where `atob` throws. A successful decode has
      three bytes per group, less one per pad character at the end. */
  function Decode(s: string): (r: Option<seq<Byte>>)
    ensures r.Some? ==> |s| % 4 == 0 && 3 * (|s| / 4) - 2 <= |r.value| <= 3 * (|s| / 4)
    ensures r.Some? ==> |r.value| == 3 * (|s| / 4) - PadCount(s)
    decreases |s|
  {
    if |s| % 4 != 0 then None
    else if |s| == 0 then Some([])
    else if |s| == 4 then DecodeFinal(s)
    else
      var group := DecodeFull(s[..4]);
      var rest := Decode(s[4..]);
      if group.Some? && rest.Some? then Some(group.value + rest.value) else None
  }

  lemma FirstSplit(b0: Byte, b1: Byte)
    ensures First(b0 / 4, (b0 % 4) * 16 + b1 / 16) == b0
  {
    assert ((b0 % 4) * 16 + b1 / 16) / 16 == b0 % 4;
  }

  lemma SecondSplit(b0: Byte, b1: Byte, b2: Byte)
    ensures Second((b0 % 4) * 16 + b1 / 16, (b1 % 16) * 4 + b2 / 64) == b1
  {
    assert ((b0 % 4) * 16 + b1 / 16) % 16 == b1 / 16;
    assert ((b1 % 16) * 4 + b2 / 64) / 4 == b1 % 16;
  }

  lemma ThirdSplit(b1: Byte, b2: Byte)
    ensures Third((b1 % 16) * 4 + b2 / 64, b2 % 64) == b2
  {
    assert ((b1 % 16) * 4 + b2 / 64) % 4 == b2 / 64;
  }

  lemma GroupRoundTrip(b0: Byte, b1: Byte, b2: Byte)
    ensures DecodeFull(EncodeGroup(b0, b1, b2)) == Some([b0, b1, b2])
  {
    var q := EncodeGroup(b0, b1, b2);
    AlphabetBijection(b0 / 4, q[0]);
    AlphabetBijection((b0 % 4) * 16 + b1 / 16, q[1]);
    AlphabetBijection((b1 % 16) * 4 + b2 / 64, q[2]);
    AlphabetBijection(b2 % 64, q[3]);
    FirstSplit(b0, b1);
    SecondSplit(b0, b1, b2);
    ThirdSplit(b1, b2);
  }

  lemma OneByteRoundTrip(b0: Byte)
    ensures Decode(Encode([b0])) == Some([b0])
  {
    var e := Encode([b0]);
    assert e == [CharOf(b0 / 4), CharOf((b0 % 4) * 16), Pad, Pad];
    AlphabetBijection(b0 / 4, e[0]);
    AlphabetBijection((b0 % 4) * 16, e[1]);
    FirstSplit(b0, 0);
  }

  lemma TwoByteRoundTrip(b0: Byte, b1: Byte)
    ensures Decode(Encode([b0, b1])) == Some([b0, b1])
  {
    var e := Encode([b0, b1]);
    assert e == [CharOf(b0 / 4), CharOf((b0 % 4) * 16 + b1 / 16), CharOf((b1 % 16) * 4), Pad];
    AlphabetBijection(b0 / 4, e[0]);
    AlphabetBijection((b0 % 4) * 16 + b1 / 16, e[1]);
    AlphabetBijection((b1 % 16) * 4, e[2]);
    FirstSplit(b0, b1);
    SecondSplit(b0, b1, 0);
  }

  lemma ThreeByteRoundTrip(b0: Byte, b1: Byte, b2: Byte)
    ensures Decode(Encode([b0, b1, b2])) == Some([b0, b1, b2])
  {
    var g := EncodeGroup(b0, b1, b2);
    assert [b0, b1, b2][3..] == [];
    assert Encode([b0, b1, b2]) == g + Encode([]);
    assert Encode([b0, b1, b2]) == g;
    GroupRoundTrip(b0, b1, b2);
    AlphabetBijection(b2 % 64, g[3]);
    AlphabetBijection((b1 % 16) * 4 + b2 / 64, g[2]);
  }

  /** The first four characters of a longer encoding are its first group,
      and the rest is the encoding of the remaining bytes. */
  lemma EncodeLonger(bs: seq<Byte>)
    requires |bs| > 3
    ensures |Encode(bs)| > 4
    ensures DecodeFull(Encode(bs)[..4]) == Some(bs[..3])
    ensures Encode(bs)[4..] == Encode(bs[3..])
  {
    var g := EncodeGroup(bs[0], bs[1], bs[2]);
    assert Encode(bs) == g + Encode(bs[3..]);
    assert Encode(bs)[..4] == g;
    GroupRoundTrip(bs[0], bs[1], bs[2]);
    assert bs[..3] == [bs[0], bs[1], bs[2]];
  }

  /** The inductive step: more than three bytes round-trip when the bytes
      after the first group do. */
  lemma LongerRoundTrip(bs: seq<Byte>)
    requires |bs| > 3
    requires Decode(Encode(bs[3..])) == Some(bs[3..])
    ensures Decode(Encode(bs)) == Some(bs)
  {
    EncodeLonger(bs);
    GroupwiseDecode(Encode(bs), bs);
  }

  /** A string of more than one group decodes to its first group's bytes
      followed by the rest's. */
  lemma GroupwiseDecode(s: string, bs: seq<Byte>)
    requires |s| > 4 && |s| % 4 == 0 && |bs| > 3
    requires DecodeFull(s[..4]) == Some(bs[..3]) && Decode(s[4..]) == Some(bs[3..])
    ensures Decode(s) == Some(bs)
  {
    assert bs[..3] + bs[3..] == bs;
  }

  /** Decoding the encoding of any byte sequence gives that sequence back. */
  lemma {:induction false} DecodeEncode(bs: seq<Byte>)
    ensures Decode(Encode(bs)) == Some(bs)
    decreases |bs|
  {
    if |bs| == 0 {
    } else if |bs| == 1 {
      assert bs == [bs[0]];
      OneByteRoundTrip(bs[0]);
    } else if |bs| == 2 {
      assert bs == [bs[0], bs[1]];
      TwoByteRoundTrip(bs[0], bs[1]);
    } else if |bs| == 3 {
      assert bs == [bs[0], bs[1], bs[2]];
      ThreeByteRoundTrip(bs[0], bs[1], bs[2]);
    } else {
      DecodeEncode(bs[3..]);
      LongerRoundTrip(bs);
    }
  }
}
