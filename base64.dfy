/**
 * URL-safe base64 decoding as Python's `base64.urlsafe_b64decode` performs it
 * on a `str`: the text must be ASCII, `-` and `_` stand for `+` and `/` (which
 * are accepted too), and the result is what CPython's `binascii.a2b_base64`
 * produces in its default, non-strict mode:
 *   - characters outside the alphabet are discarded;
 *   - once at least two data characters of a quantum have been read, enough
 *     `=` to complete the quantum stop decoding, and anything after is ignored;
 *   - input that ends in the middle of a quantum is an error.
 * Failure is `None`; the body decoder maps it to the empty text.
 */
module Base64 {
  import opened Wrappers

  type byte = x: int | 0 <= x < 256

  /** The value of an alphabet character, after `-`/`_` are read as `+`/`/`. */
  function SextetOf(c: char): (r: Option<nat>)
    ensures r.Some? ==> r.value < 64
  {
    if 'A' <= c <= 'Z' then Some(c as int - 'A' as int)
    else if 'a' <= c <= 'z' then Some(c as int - 'a' as int + 26)
    else if '0' <= c <= '9' then Some(c as int - '0' as int + 52)
    else if c == '+' || c == '-' then Some(62)
    else if c == '/' || c == '_' then Some(63)
    else None
  }

  /**
   * Decoder state between characters: `quad` data characters of the current
   * quantum have been read, `left` holds their bits not yet output, and `pads`
   * counts the `=` seen since the last data character.
   */
  ghost predicate StateOk(quad: nat, left: nat) {
    quad < 4 &&
    (quad == 0 ==> left == 0) &&
    (quad == 1 ==> left < 64) &&
    (quad == 2 ==> left < 16) &&
    (quad == 3 ==> left < 4)
  }

  /** The decoding loop of `a2b_base64`, one character at a time. */
  function Decode64(s: string, quad: nat, left: nat, pads: nat, out: seq<byte>): Option<seq<byte>>
    requires StateOk(quad, left)
    decreases |s|
  {
    if s == [] then
      (if quad == 0 then Some(out) else None)
    else if s[0] == '=' then
      if quad >= 2 then
        if quad + pads + 1 >= 4 then Some(out)
        else Decode64(s[1..], quad, left, pads + 1, out)
      else Decode64(s[1..], quad, left, pads, out)
    else
      match SextetOf(s[0])
      case None => Decode64(s[1..], quad, left, pads, out)
      case Some(v) =>
        if quad == 0 then Decode64(s[1..], 1, v, 0, out)
        else if quad == 1 then Decode64(s[1..], 2, v % 16, 0, out + [left * 4 + v / 16])
        else if quad == 2 then Decode64(s[1..], 3, v % 4, 0, out + [left * 16 + v / 4])
        else Decode64(s[1..], 0, 0, 0, out + [left * 64 + v])
  }

  predicate IsAscii(s: string) {
    forall i :: 0 <= i < |s| ==> s[i] as int < 128
  }

  /** `base64.urlsafe_b64decode(s)`; `None` where Python raises. */
  function UrlSafeDecode(s: string): (r: Option<seq<byte>>)
    ensures r.Some? ==> IsAscii(s)
  {
    if IsAscii(s) then Decode64(s, 0, 0, 0, []) else None
  }

  // ---------------------------------------------------------------------------
  // The encoder, as the partner of the decoder: the padded URL-safe encoding.

  function Char64(v: nat): (c: char)
    requires v < 64
    ensures SextetOf(c) == Some(v)
    ensures (c as int) < 128
  {
    if v < 26 then (v + 'A' as int) as char
    else if v < 52 then (v - 26 + 'a' as int) as char
    else if v < 62 then (v - 52 + '0' as int) as char
    else if v == 62 then '-'
    else '_'
  }

  // The four sextets of a quantum of three bytes.
  function Sext0(b0: byte): (v: nat)
    ensures v < 64
  {
    b0 / 4
  }

  function Sext1(b0: byte, b1: byte): (v: nat)
    ensures v < 64
  {
    b0 % 4 * 16 + b1 / 16
  }

  function Sext2(b1: byte, b2: byte): (v: nat)
    ensures v < 64
  {
    b1 % 16 * 4 + b2 / 64
  }

  function Sext3(b2: byte): (v: nat)
    ensures v < 64
  {
    b2 % 64
  }

  /** The last quantum of an encoding of one byte: two characters and `==`. */
  function TailOne(b0: byte): (s: string)
    ensures |s| == 4 && IsAscii(s)
  {
    [Char64(Sext0(b0)), Char64(Sext1(b0, 0)), '=', '=']
  }

  /** The last quantum of an encoding of two bytes: three characters and `=`. */
  function TailTwo(b0: byte, b1: byte): (s: string)
    ensures |s| == 4 && IsAscii(s)
  {
    [Char64(Sext0(b0)), Char64(Sext1(b0, b1)), Char64(Sext2(b1, 0)), '=']
  }

  /** A full quantum: three bytes as four characters. */
  function Quantum(b0: byte, b1: byte, b2: byte): (s: string)
    ensures |s| == 4 && IsAscii(s)
  {
    [Char64(Sext0(b0)), Char64(Sext1(b0, b1)), Char64(Sext2(b1, b2)), Char64(Sext3(b2))]
  }

  lemma AsciiConcat(a: string, b: string)
    requires IsAscii(a) && IsAscii(b)
    ensures IsAscii(a + b)
  {
    assert forall i :: 0 <= i < |a + b| ==> (a + b)[i] == if i < |a| then a[i] else b[i - |a|];
  }

  function Encode(b: seq<byte>): (s: string)
    ensures IsAscii(s)
    decreases |b|
  {
    if |b| == 0 then ""
    else if |b| == 1 then TailOne(b[0])
    else if |b| == 2 then TailTwo(b[0], b[1])
    else
      var q, r := Quantum(b[0], b[1], b[2]), Encode(b[3..]);
      AsciiConcat(q, r);
      q + r
  }

  /** Every three bytes, and a last one or two, take four characters. */
  lemma {:induction false} EncodeLength(b: seq<byte>)
    ensures |Encode(b)| == (|b| + 2) / 3 * 4
    decreases |b|
  {
    if |b| >= 3 {
      EncodeLength(b[3..]);
      assert Encode(b) == Quantum(b[0], b[1], b[2]) + Encode(b[3..]);
      assert (|b| + 2) / 3 == (|b[3..]| + 2) / 3 + 1;
    }
  }

  /** The bit arithmetic of one full quantum: the decoder's three output bytes are the encoder's inputs. */
  lemma QuantumArith(b0: byte, b1: byte, b2: byte)
    ensures Sext0(b0) * 4 + Sext1(b0, b1) / 16 == b0
    ensures Sext1(b0, b1) % 16 * 16 + Sext2(b1, b2) / 4 == b1
    ensures Sext2(b1, b2) % 4 * 64 + Sext3(b2) == b2
  {
  }

  // One data character, in each of the four positions of a quantum: the decoder
  // takes in its sextet `v`, outputs the byte it completes, and moves on.

  lemma StepFirst(s: string, v: nat, pads: nat, out: seq<byte>)
    requires |s| > 0 && SextetOf(s[0]) == Some(v)
    ensures Decode64(s, 0, 0, pads, out) == Decode64(s[1..], 1, v, 0, out)
  {
  }

  lemma StepSecond(s: string, left: nat, v: nat, out: seq<byte>)
    requires left < 64 && |s| > 0 && SextetOf(s[0]) == Some(v)
    ensures left * 4 + v / 16 < 256
    ensures Decode64(s, 1, left, 0, out) == Decode64(s[1..], 2, v % 16, 0, out + [left * 4 + v / 16])
  {
  }

  lemma StepThird(s: string, left: nat, v: nat, out: seq<byte>)
    requires left < 16 && |s| > 0 && SextetOf(s[0]) == Some(v)
    ensures left * 16 + v / 4 < 256
    ensures Decode64(s, 2, left, 0, out) == Decode64(s[1..], 3, v % 4, 0, out + [left * 16 + v / 4])
  {
  }

  lemma StepFourth(s: string, left: nat, v: nat, out: seq<byte>)
    requires left < 4 && |s| > 0 && SextetOf(s[0]) == Some(v)
    ensures left * 64 + v < 256
    ensures Decode64(s, 3, left, 0, out) == Decode64(s[1..], 0, 0, 0, out + [left * 64 + v])
  {
  }

  /** A final quantum holding one byte, `xx==`, decodes to that byte. */
  lemma DecodeLastOne(b0: byte, out: seq<byte>)
    ensures Decode64(TailOne(b0), 0, 0, 0, out) == Some(out + [b0])
  {
    var v0, v1 := Sext0(b0), Sext1(b0, 0);
    var s := TailOne(b0);
    var s1 := s[1..];
    var s2 := s1[1..];
    assert s[0] == Char64(v0) && s1[0] == Char64(v1) && s2 == ['=', '='];
    QuantumArith(b0, 0, 0);
    StepFirst(s, v0, 0, out);
    StepSecond(s1, v0, v1, out);
    assert Decode64(s2, 2, v1 % 16, 0, out + [b0]) == Decode64(['='], 2, v1 % 16, 1, out + [b0]);
  }

  /** A final quantum holding two bytes, `xxx=`, decodes to those bytes. */
  lemma DecodeLastTwo(b0: byte, b1: byte, out: seq<byte>)
    ensures Decode64(TailTwo(b0, b1), 0, 0, 0, out) == Some(out + [b0, b1])
  {
    var v0, v1, v2 := Sext0(b0), Sext1(b0, b1), Sext2(b1, 0);
    var s := TailTwo(b0, b1);
    var s1 := s[1..];
    var s2 := s1[1..];
    var s3 := s2[1..];
    assert s[0] == Char64(v0) && s1[0] == Char64(v1) && s2[0] == Char64(v2) && s3 == ['='];
    QuantumArith(b0, b1, 0);
    StepFirst(s, v0, 0, out);
    StepSecond(s1, v0, v1, out);
    StepThird(s2, v1 % 16, v2, out + [b0]);
    assert out + [b0] + [b1] == out + [b0, b1];
  }

  /** A full quantum decodes to its three bytes and leaves the decoder ready for the next one. */
  lemma DecodeQuantum(b0: byte, b1: byte, b2: byte, rest: string, out: seq<byte>)
    ensures Decode64(Quantum(b0, b1, b2) + rest, 0, 0, 0, out) == Decode64(rest, 0, 0, 0, out + [b0, b1, b2])
  {
    var v0, v1, v2, v3 := Sext0(b0), Sext1(b0, b1), Sext2(b1, b2), Sext3(b2);
    var s := Quantum(b0, b1, b2) + rest;
    var s1 := s[1..];
    var s2 := s1[1..];
    var s3 := s2[1..];
    assert s[0] == Char64(v0) && s1[0] == Char64(v1) && s2[0] == Char64(v2) && s3[0] == Char64(v3) && s3[1..] == rest;
    QuantumArith(b0, b1, b2);
    StepFirst(s, v0, 0, out);
    StepSecond(s1, v0, v1, out);
    StepThird(s2, v1 % 16, v2, out + [b0]);
    StepFourth(s3, v2 % 4, v3, out + [b0] + [b1]);
    assert out + [b0] + [b1] + [b2] == out + [b0, b1, b2];
  }

  // The three shapes of the encoding's first quantum, each as a step of the decoder.

  lemma DecodeOneByte(b: seq<byte>, out: seq<byte>)
    requires |b| == 1
    ensures Decode64(Encode(b), 0, 0, 0, out) == Some(out + b)
  {
    assert Encode(b) == TailOne(b[0]) && b == [b[0]];
    DecodeLastOne(b[0], out);
  }

  lemma DecodeTwoBytes(b: seq<byte>, out: seq<byte>)
    requires |b| == 2
    ensures Decode64(Encode(b), 0, 0, 0, out) == Some(out + b)
  {
    assert Encode(b) == TailTwo(b[0], b[1]) && b == [b[0], b[1]];
    DecodeLastTwo(b[0], b[1], out);
  }

  lemma DecodeFirstQuantum(b: seq<byte>, out: seq<byte>)
    requires |b| >= 3
    ensures Decode64(Encode(b), 0, 0, 0, out) == Decode64(Encode(b[3..]), 0, 0, 0, out + b[..3])
  {
    assert Encode(b) == Quantum(b[0], b[1], b[2]) + Encode(b[3..]);
    assert b[..3] == [b[0], b[1], b[2]];
    DecodeQuantum(b[0], b[1], b[2], Encode(b[3..]), out);
  }

  lemma {:induction false} DecodeEncode(b: seq<byte>, out: seq<byte>)
    ensures Decode64(Encode(b), 0, 0, 0, out) == Some(out + b)
    decreases |b|
  {
    if |b| == 0 {
      assert out + b == out;
    } else if |b| == 1 {
      DecodeOneByte(b, out);
    } else if |b| == 2 {
      DecodeTwoBytes(b, out);
    } else {
      DecodeFirstQuantum(b, out);
      DecodeEncode(b[3..], out + b[..3]);
      assert out + b[..3] + b[3..] == out + b;
    }
  }

  /** Decoding undoes encoding: well-formed body data always decodes to the bytes it encodes. */
  lemma UrlSafeRoundTrip(b: seq<byte>)
    ensures UrlSafeDecode(Encode(b)) == Some(b)
  {
    DecodeEncode(b, []);
    assert [] + b == b;
  }

  /** A quantum cut short without its padding is "Incorrect padding": the decoder fails. */
  lemma UnpaddedFails()
    ensures UrlSafeDecode("aGk") == None
  {
  }

  /** Non-ASCII text is refused before decoding starts. */
  lemma NonAsciiFails(s: string, i: nat)
    requires i < |s| && s[i] as int >= 128
    ensures UrlSafeDecode(s) == None
  {
  }
}
