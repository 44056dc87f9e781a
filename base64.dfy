/**
 * The base 64 encoding with the URL and filename safe alphabet and `=`
 * padding (section 5 of RFC 4648), as Go's `base64.URLEncoding` writes and
 * reads it. The decoder is Go's non-strict one: it skips carriage returns
 * and line feeds anywhere, and ignores the unused low bits of a padded final
 * quantum.
 */
module Base64 {
  import opened Wrappers

  /** The character for a 6-bit value, in the order of Table 2 of RFC 4648. */
  function SextetChar(i: nat): char
    requires i < 64
  {
    if i < 26 then ('A' as int + i) as char
    else if i < 52 then ('a' as int + (i - 26)) as char
    else if i < 62 then ('0' as int + (i - 52)) as char
    else if i == 62 then '-'
    else '_'
  }

  predicate IsAlphabet(c: char) {
    ('A' <= c <= 'Z') || ('a' <= c <= 'z') || ('0' <= c <= '9') || c == '-' || c == '_'
  }

  /** The 6-bit value of an alphabet character. */
  function SextetValue(c: char): (i: nat)
    requires IsAlphabet(c)
    ensures i < 64
  {
    if 'A' <= c <= 'Z' then c as int - 'A' as int
    else if 'a' <= c <= 'z' then c as int - 'a' as int + 26
    else if '0' <= c <= '9' then c as int - '0' as int + 52
    else if c == '-' then 62
    else 63
  }

  /** Every 6-bit value has its own alphabet character, and reading it gives the value back. */
  lemma SextetRoundTrip(i: nat)
    requires i < 64
    ensures IsAlphabet(SextetChar(i)) && SextetValue(SextetChar(i)) == i
  {
  }

  /** Three bytes as four characters. */
  function EncodeQuantum(b0: byte, b1: byte, b2: byte): string {
    [SextetChar(b0 / 4), SextetChar((b0 % 4) * 16 + b1 / 16),
     SextetChar((b1 % 16) * 4 + b2 / 64), SextetChar(b2 % 64)]
  }

  function Encode(b: seq<byte>): (s: string)
    decreases |b|
  {
    if |b| == 0 then ""
    else if |b| == 1 then [SextetChar(b[0] / 4), SextetChar((b[0] % 4) * 16), '=', '=']
    else if |b| == 2 then
      [SextetChar(b[0] / 4), SextetChar((b[0] % 4) * 16 + b[1] / 16), SextetChar((b[1] % 16) * 4), '=']
    else EncodeQuantum(b[0], b[1], b[2]) + Encode(b[3..])
  }

  lemma EncodeFront(b: seq<byte>)
    requires |b| >= 3
    ensures Encode(b) == EncodeQuantum(b[0], b[1], b[2]) + Encode(b[3..])
  {
  }

  /** Text made only of alphabet characters and `=`. */
  predicate EncodingText(s: string) {
    forall i :: 0 <= i < |s| ==> IsAlphabet(s[i]) || s[i] == '='
  }

  lemma EncodingTextConcat(s: string, t: string)
    requires EncodingText(s) && EncodingText(t)
    ensures EncodingText(s + t)
  {
    forall i | 0 <= i < |s + t| ensures IsAlphabet((s + t)[i]) || (s + t)[i] == '=' {
      if i >= |s| {
        assert (s + t)[i] == t[i - |s|];
      }
    }
  }

  lemma {:induction false} EncodeLength(b: seq<byte>)
    ensures |Encode(b)| == 4 * ((|b| + 2) / 3)
  {
    if |b| >= 3 {
      EncodeFront(b);
      EncodeLength(b[3..]);
      assert (|b| + 2) / 3 == (|b[3..]| + 2) / 3 + 1;
    }
  }

  lemma {:induction false} EncodeAlphabet(b: seq<byte>)
    ensures EncodingText(Encode(b))
  {
    if |b| >= 3 {
      EncodeFront(b);
      EncodeAlphabet(b[3..]);
      QuantumText(b[0], b[1], b[2]);
      EncodingTextConcat(EncodeQuantum(b[0], b[1], b[2]), Encode(b[3..]));
    } else if |b| > 0 {
      ShortText(b);
    }
  }

  lemma QuantumText(b0: byte, b1: byte, b2: byte)
    ensures EncodingText(EncodeQuantum(b0, b1, b2))
  {
    var i0, i1, i2, i3 := b0 / 4, (b0 % 4) * 16 + b1 / 16, (b1 % 16) * 4 + b2 / 64, b2 % 64;
    SextetRoundTrip(i0);
    SextetRoundTrip(i1);
    SextetRoundTrip(i2);
    SextetRoundTrip(i3);
    FourText(SextetChar(i0), SextetChar(i1), SextetChar(i2), SextetChar(i3));
  }

  lemma FourText(c0: char, c1: char, c2: char, c3: char)
    requires IsAlphabet(c0) && IsAlphabet(c1) && IsAlphabet(c2) && IsAlphabet(c3)
    ensures EncodingText([c0, c1, c2, c3])
  {
  }

  /** The padded final quantum of one or two bytes. */
  lemma ShortText(b: seq<byte>)
    requires 0 < |b| < 3
    ensures EncodingText(Encode(b))
  {
    SextetRoundTrip(b[0] / 4);
    if |b| == 2 {
      SextetRoundTrip((b[0] % 4) * 16 + b[1] / 16);
      SextetRoundTrip((b[1] % 16) * 4);
    } else {
      SextetRoundTrip((b[0] % 4) * 16);
    }
  }

  /** The encoding is four characters per started group of three bytes, all URL-safe. */
  lemma EncodeShape(b: seq<byte>)
    ensures |Encode(b)| == 4 * ((|b| + 2) / 3)
    ensures forall i :: 0 <= i < |Encode(b)| ==> IsAlphabet(Encode(b)[i]) || Encode(b)[i] == '='
  {
    EncodeLength(b);
    EncodeAlphabet(b);
  }

  /** The decoder's skipping of `\r` and `\n`. */
  function StripNewlines(s: string): string {
    if s == [] then []
    else if s[0] == '\r' || s[0] == '\n' then StripNewlines(s[1..])
    else [s[0]] + StripNewlines(s[1..])
  }

  /** The first byte of a quantum: the six bits of `c0` and the top two of `c1`. */
  function DecodeByte0(c0: char, c1: char): byte
    requires IsAlphabet(c0) && IsAlphabet(c1)
  {
    SextetValue(c0) * 4 + SextetValue(c1) / 16
  }

  /** The second byte of a quantum: the low four bits of `c1` and the top four of `c2`. */
  function DecodeByte1(c1: char, c2: char): byte
    requires IsAlphabet(c1) && IsAlphabet(c2)
  {
    (SextetValue(c1) % 16) * 16 + SextetValue(c2) / 4
  }

  /** The third byte of a quantum: the low two bits of `c2` and the six of `c3`. */
  function DecodeByte2(c2: char, c3: char): byte
    requires IsAlphabet(c2) && IsAlphabet(c3)
  {
    (SextetValue(c2) % 4) * 64 + SextetValue(c3)
  }

  function DecodeFull(c0: char, c1: char, c2: char, c3: char): seq<byte>
    requires IsAlphabet(c0) && IsAlphabet(c1) && IsAlphabet(c2) && IsAlphabet(c3)
  {
    [DecodeByte0(c0, c1), DecodeByte1(c1, c2), DecodeByte2(c2, c3)]
  }

  /** The final quantum, which alone may end in `==` (one byte) or `=` (two bytes). */
  function DecodeFinal(c0: char, c1: char, c2: char, c3: char): Option<seq<byte>> {
    if !IsAlphabet(c0) || !IsAlphabet(c1) then None
    else if IsAlphabet(c2) && IsAlphabet(c3) then Some(DecodeFull(c0, c1, c2, c3))
    else if c2 == '=' && c3 == '=' then Some([DecodeByte0(c0, c1)])
    else if IsAlphabet(c2) && c3 == '=' then Some([DecodeByte0(c0, c1), DecodeByte1(c1, c2)])
    else None
  }

  /**
   * Decoding of newline-free text: whole quanta of four alphabet characters,
   * the last of which may end in `==` or `=`; None for anything else.
   */
  function DecodeQuanta(t: string): Option<seq<byte>>
    decreases |t|
  {
    if t == [] then Some([])
    else if |t| < 4 then None
    else if |t| == 4 then DecodeFinal(t[0], t[1], t[2], t[3])
    else if IsAlphabet(t[0]) && IsAlphabet(t[1]) && IsAlphabet(t[2]) && IsAlphabet(t[3]) then
      match DecodeQuanta(t[4..])
      case None => None
      case Some(rest) => Some(DecodeFull(t[0], t[1], t[2], t[3]) + rest)
    else None
  }

  datatype DecodeError = CorruptInput

  /** `base64.URLEncoding.DecodeString`. */
  function Decode(s: string): Result<seq<byte>, DecodeError> {
    match DecodeQuanta(StripNewlines(s))
    case None => Failure(CorruptInput)
    case Some(b) => Success(b)
  }

  lemma StripNewlinesOfEncoding(s: string)
    requires forall i :: 0 <= i < |s| ==> IsAlphabet(s[i]) || s[i] == '='
    ensures StripNewlines(s) == s
  {
    if s != [] {
      StripNewlinesOfEncoding(s[1..]);
      assert s == [s[0]] + s[1..];
    }
  }

  lemma Byte0RoundTrip(b0: byte, b1: byte)
    ensures IsAlphabet(SextetChar(b0 / 4)) && IsAlphabet(SextetChar((b0 % 4) * 16 + b1 / 16))
    ensures DecodeByte0(SextetChar(b0 / 4), SextetChar((b0 % 4) * 16 + b1 / 16)) == b0
  {
    var i0, i1 := b0 / 4, (b0 % 4) * 16 + b1 / 16;
    SextetRoundTrip(i0);
    SextetRoundTrip(i1);
    assert i1 / 16 == b0 % 4;
  }

  lemma Byte1RoundTrip(b0: byte, b1: byte, b2: byte)
    ensures IsAlphabet(SextetChar((b0 % 4) * 16 + b1 / 16)) && IsAlphabet(SextetChar((b1 % 16) * 4 + b2 / 64))
    ensures DecodeByte1(SextetChar((b0 % 4) * 16 + b1 / 16), SextetChar((b1 % 16) * 4 + b2 / 64)) == b1
  {
    var i1, i2 := (b0 % 4) * 16 + b1 / 16, (b1 % 16) * 4 + b2 / 64;
    SextetRoundTrip(i1);
    SextetRoundTrip(i2);
    assert i1 % 16 == b1 / 16 && i2 / 4 == b1 % 16;
  }

  lemma Byte2RoundTrip(b1: byte, b2: byte)
    ensures IsAlphabet(SextetChar((b1 % 16) * 4 + b2 / 64)) && IsAlphabet(SextetChar(b2 % 64))
    ensures DecodeByte2(SextetChar((b1 % 16) * 4 + b2 / 64), SextetChar(b2 % 64)) == b2
  {
    var i2, i3 := (b1 % 16) * 4 + b2 / 64, b2 % 64;
    SextetRoundTrip(i2);
    SextetRoundTrip(i3);
    assert i2 % 4 == b2 / 64;
  }

  lemma QuantumRoundTrip(b0: byte, b1: byte, b2: byte)
    ensures var q := EncodeQuantum(b0, b1, b2);
      IsAlphabet(q[0]) && IsAlphabet(q[1]) && IsAlphabet(q[2]) && IsAlphabet(q[3]) &&
      DecodeFull(q[0], q[1], q[2], q[3]) == [b0, b1, b2]
  {
    Byte0RoundTrip(b0, b1);
    Byte1RoundTrip(b0, b1, b2);
    Byte2RoundTrip(b1, b2);
  }

  lemma DecodeQuantaOneByte(b: seq<byte>)
    requires |b| == 1
    ensures DecodeQuanta(Encode(b)) == Some(b)
  {
    var i0, i1 := b[0] / 4, (b[0] % 4) * 16;
    SextetRoundTrip(i0);
    SextetRoundTrip(i1);
    var c0, c1 := SextetChar(i0), SextetChar(i1);
    assert Encode(b) == [c0, c1, '=', '='];
    assert DecodeByte0(c0, c1) == b[0];
    var t := [c0, c1, '=', '='];
    assert DecodeQuanta(t) == DecodeFinal(t[0], t[1], t[2], t[3]);
    assert DecodeFinal(c0, c1, '=', '=') == Some([b[0]]);
    assert [b[0]] == b;
  }

  lemma DecodeQuantaTwoBytes(b: seq<byte>)
    requires |b| == 2
    ensures DecodeQuanta(Encode(b)) == Some(b)
  {
    var i0, i1, i2 := b[0] / 4, (b[0] % 4) * 16 + b[1] / 16, (b[1] % 16) * 4;
    SextetRoundTrip(i0);
    SextetRoundTrip(i1);
    SextetRoundTrip(i2);
    var c0, c1, c2 := SextetChar(i0), SextetChar(i1), SextetChar(i2);
    assert Encode(b) == [c0, c1, c2, '='];
    assert i1 / 16 == b[0] % 4 && i1 % 16 == b[1] / 16 && i2 / 4 == b[1] % 16;
    assert DecodeByte0(c0, c1) == b[0];
    assert DecodeByte1(c1, c2) == b[1];
    var t := [c0, c1, c2, '='];
    assert DecodeQuanta(t) == DecodeFinal(t[0], t[1], t[2], t[3]);
    assert DecodeFinal(c0, c1, c2, '=') == Some([b[0], b[1]]);
    assert [b[0], b[1]] == b;
  }

  lemma DecodeQuantaSingle(q: string)
    requires |q| == 4 && IsAlphabet(q[0]) && IsAlphabet(q[1]) && IsAlphabet(q[2]) && IsAlphabet(q[3])
    ensures DecodeQuanta(q) == Some(DecodeFull(q[0], q[1], q[2], q[3]))
  {
  }

  lemma DecodeQuantaThreeBytes(b: seq<byte>)
    requires |b| == 3
    ensures DecodeQuanta(Encode(b)) == Some(b)
  {
    assert b == [b[0], b[1], b[2]];
    EncodeFront(b);
    var q := EncodeQuantum(b[0], b[1], b[2]);
    assert Encode(b[3..]) == "";
    assert Encode(b) == q;
    QuantumRoundTrip(b[0], b[1], b[2]);
    DecodeQuantaSingle(q);
  }

  lemma DecodeQuantaFront(q: string, rest: string)
    requires |q| == 4 && IsAlphabet(q[0]) && IsAlphabet(q[1]) && IsAlphabet(q[2]) && IsAlphabet(q[3])
    requires rest != []
    ensures DecodeQuanta(q + rest) ==
      match DecodeQuanta(rest)
      case None => None
      case Some(r) => Some(DecodeFull(q[0], q[1], q[2], q[3]) + r)
  {
    var t := q + rest;
    assert t[..4] == q && t[4..] == rest;
  }

  lemma SplitThree(b: seq<byte>)
    requires |b| >= 3
    ensures b == [b[0], b[1], b[2]] + b[3..]
  {
  }

  /** Three more bytes in front add one full quantum in front of the decoding. */
  lemma DecodeQuantaStep(b: seq<byte>)
    requires |b| > 3 && DecodeQuanta(Encode(b[3..])) == Some(b[3..])
    ensures DecodeQuanta(Encode(b)) == Some(b)
  {
    SplitThree(b);
    var q := EncodeQuantum(b[0], b[1], b[2]);
    var rest := Encode(b[3..]);
    EncodeFront(b);
    EncodeShape(b[3..]);
    QuantumRoundTrip(b[0], b[1], b[2]);
    DecodeQuantaFront(q, rest);
  }

  lemma {:induction false} DecodeQuantaOfEncoding(b: seq<byte>)
    ensures DecodeQuanta(Encode(b)) == Some(b)
  {
    if |b| > 3 {
      DecodeQuantaOfEncoding(b[3..]);
      DecodeQuantaStep(b);
    } else if |b| == 3 {
      DecodeQuantaThreeBytes(b);
    } else if |b| == 2 {
      DecodeQuantaTwoBytes(b);
    } else if |b| == 1 {
      DecodeQuantaOneByte(b);
    }
  }

  /** Decoding an encoding gives back the bytes. */
  lemma DecodeEncode(b: seq<byte>)
    ensures Decode(Encode(b)) == Success(b)
  {
    EncodeShape(b);
    StripNewlinesOfEncoding(Encode(b));
    DecodeQuantaOfEncoding(b);
  }

  lemma FinalShape(c0: char, c1: char, c2: char, c3: char)
    requires DecodeFinal(c0, c1, c2, c3).Some?
    ensures IsAlphabet(c0) && IsAlphabet(c1)
    ensures IsAlphabet(c2) || c2 == '='
    ensures IsAlphabet(c3) || c3 == '='
  {
  }

  /** Text longer than one quantum decodes only if it starts with four alphabet characters and the rest decodes. */
  lemma QuantaFront(t: string)
    requires |t| > 4 && DecodeQuanta(t).Some?
    ensures IsAlphabet(t[0]) && IsAlphabet(t[1]) && IsAlphabet(t[2]) && IsAlphabet(t[3])
    ensures EncodingText(t[..4]) && DecodeQuanta(t[4..]).Some?
  {
  }

  lemma {:induction false} DecodedQuantaShape(t: string)
    requires DecodeQuanta(t).Some?
    ensures |t| % 4 == 0 && EncodingText(t)
  {
    if |t| == 4 {
      FinalShape(t[0], t[1], t[2], t[3]);
    } else if |t| > 4 {
      QuantaFront(t);
      DecodedQuantaShape(t[4..]);
      EncodingTextConcat(t[..4], t[4..]);
      assert t == t[..4] + t[4..];
    }
  }

  lemma {:induction false} StripNewlinesKeeps(s: string, i: nat)
    requires i < |s| && s[i] != '\r' && s[i] != '\n'
    ensures s[i] in StripNewlines(s)
  {
    if i > 0 {
      StripNewlinesKeeps(s[1..], i - 1);
    }
  }

  /** A character outside the alphabet, other than `=` and the skipped newlines, is an error. */
  lemma RejectsForeignCharacter(s: string, i: nat)
    requires i < |s|
    requires !IsAlphabet(s[i]) && s[i] != '=' && s[i] != '\r' && s[i] != '\n'
    ensures Decode(s).Failure?
  {
    var t := StripNewlines(s);
    StripNewlinesKeeps(s, i);
    if DecodeQuanta(t).Some? {
      DecodedQuantaShape(t);
    }
  }

  /** Text whose non-newline length is not a multiple of four is an error. */
  lemma RejectsPartialQuantum(s: string)
    requires |StripNewlines(s)| % 4 != 0
    ensures Decode(s).Failure?
  {
    if DecodeQuanta(StripNewlines(s)).Some? {
      DecodedQuantaShape(StripNewlines(s));
    }
  }
}
