/**
 * Go's `base64.StdEncoding`: the padded standard alphabet of section 4 of RFC 4648,
 * as used by `EncodeToString` (jws.go:78, 87, 105) and `DecodeString` (jws.go:66).
 * The decoder is Go's non-strict one: it skips CR and LF anywhere in the input,
 * ignores non-zero padding bits, and on malformed input returns the bytes of the
 * quanta it decoded before the fault together with an error.
 */
module Base64 {
  import opened GoBytes

  const Pad: byte := 61  // '='
  const CR: byte := 13
  const LF: byte := 10

  /** The character for a 6-bit value, Table 1 of RFC 4648: A-Z, a-z, 0-9, '+', '/'. */
  function Char(v: int): (c: byte)
    requires 0 <= v < 64
  {
    if v < 26 then (65 + v) as byte
    else if v < 52 then (97 + v - 26) as byte
    else if v < 62 then (48 + v - 52) as byte
    else if v == 62 then 43 as byte
    else 47 as byte
  }

  /** True when `c` is one of the 64 characters of the alphabet (padding excluded). */
  predicate InAlphabet(c: byte)
  {
    (65 <= c <= 90) || (97 <= c <= 122) || (48 <= c <= 57) || c == 43 || c == 47
  }

  /** The 6-bit value of an alphabet character: the inverse of Char. */
  function Sextet(c: byte): (v: int)
    requires InAlphabet(c)
    ensures 0 <= v < 64 && Char(v) == c
  {
    if 65 <= c <= 90 then c as int - 65
    else if 97 <= c <= 122 then c as int - 97 + 26
    else if 48 <= c <= 57 then c as int - 48 + 52
    else if c == 43 then 62
    else 63
  }

  lemma CharInAlphabet(v: int)
    requires 0 <= v < 64
    ensures InAlphabet(Char(v)) && Sextet(Char(v)) == v
  {
  }

  /** A character that may appear in encoder output: the alphabet or the pad. */
  predicate IsEncodedChar(c: byte)
  {
    InAlphabet(c) || c == Pad
  }

  /** The four characters encoding the three bytes x, y, z. */
  function Quad(x: byte, y: byte, z: byte): (q: Bytes)
    ensures |q| == 4
  {
    var x', y', z' := x as int, y as int, z as int;
    [Char(x' / 4), Char(x' % 4 * 16 + y' / 16), Char(y' % 16 * 4 + z' / 64), Char(z' % 64)]
  }

  /** Every character of a quantum is in the alphabet. */
  lemma QuadInAlphabet(x: byte, y: byte, z: byte)
    ensures var q := Quad(x, y, z); |q| == 4 && forall i :: 0 <= i < 4 ==> InAlphabet(q[i])
  {
    var x', y', z' := x as int, y as int, z as int;
    CharInAlphabet(x' / 4);
    CharInAlphabet(x' % 4 * 16 + y' / 16);
    CharInAlphabet(y' % 16 * 4 + z' / 64);
    CharInAlphabet(z' % 64);
  }

  /** The last one or two bytes, padded to a full quantum of four characters. */
  function Tail(s: Bytes): (r: Bytes)
    requires |s| < 3
    ensures |r| == (if s == [] then 0 else 4)
    ensures forall i :: 0 <= i < |r| ==> IsEncodedChar(r[i])
  {
    if |s| == 0 then []
    else if |s| == 1 then QuadInAlphabet(s[0], 0, 0); Quad(s[0], 0, 0)[..2] + [Pad, Pad]
    else QuadInAlphabet(s[0], s[1], 0); Quad(s[0], s[1], 0)[..3] + [Pad]
  }

  /** `EncodeToString`: every three bytes become four characters, and a final one or two are padded. */
  function Encode(s: Bytes): (r: Bytes)
    ensures |r| == 4 * ((|s| + 2) / 3)
    ensures forall i :: 0 <= i < |r| ==> IsEncodedChar(r[i])
    decreases |s|
  {
    if |s| < 3 then Tail(s)
    else QuadInAlphabet(s[0], s[1], s[2]); Quad(s[0], s[1], s[2]) + Encode(s[3..])
  }

  /** Encoding peels off one group of three bytes at a time. */
  lemma EncodeGroup(s: Bytes)
    requires |s| >= 3
    ensures Encode(s) == Quad(s[0], s[1], s[2]) + Encode(s[3..])
  {
  }

  /** What `DecodeString` returns: the decoded bytes and whether the error result is nil. */
  datatype Decoding = Decoding(data: Bytes, ok: bool)

  /** Go's decoder skips every CR and LF wherever it occurs. */
  function StripNewlines(s: Bytes): (r: Bytes)
    ensures |r| <= |s|
    ensures forall i :: 0 <= i < |r| ==> r[i] != CR && r[i] != LF
  {
    if s == [] then []
    else if s[0] == CR || s[0] == LF then StripNewlines(s[1..])
    else [s[0]] + StripNewlines(s[1..])
  }

  /** The first byte of a quantum whose first two characters are a, b. */
  function Byte0(a: byte, b: byte): (x: byte)
    requires InAlphabet(a) && InAlphabet(b)
  {
    (Sextet(a) * 4 + Sextet(b) / 16) as byte
  }

  /** The second byte of a quantum whose characters at positions 1, 2 are b, c. */
  function Byte1(b: byte, c: byte): (y: byte)
    requires InAlphabet(b) && InAlphabet(c)
  {
    (Sextet(b) % 16 * 16 + Sextet(c) / 4) as byte
  }

  /** The third byte of a quantum whose characters at positions 2, 3 are c, d. */
  function Byte2(c: byte, d: byte): (z: byte)
    requires InAlphabet(c) && InAlphabet(d)
  {
    (Sextet(c) % 4 * 64 + Sextet(d)) as byte
  }

  /** True when the first four characters of `s` are all alphabet characters. */
  predicate FullQuantum(s: Bytes)
  {
    |s| >= 4 && InAlphabet(s[0]) && InAlphabet(s[1]) && InAlphabet(s[2]) && InAlphabet(s[3])
  }

  /**
   * The last quantum Go reads: one that is not four alphabet characters. It yields bytes
   * only when it is `xx==` or `xxx=`; if anything follows that padding, the bytes are
   * still produced but the error is set.
   */
  function FinalQuantum(s: Bytes): (r: Decoding)
    requires s != [] && !FullQuantum(s)
    ensures r.ok ==> |s| == 4 && s[3] == Pad
    ensures |r.data| <= 2
    ensures r.data != [] ==> |s| >= 4
  {
    if !InAlphabet(s[0]) || |s| == 1 || !InAlphabet(s[1]) then Decoding([], false)
    else if |s| == 2 then Decoding([], false)
    else if !InAlphabet(s[2]) then
      if s[2] == Pad && |s| >= 4 && s[3] == Pad
      then Decoding([Byte0(s[0], s[1])], |s| == 4)
      else Decoding([], false)
    else if |s| == 3 || s[3] != Pad then Decoding([], false)
    else Decoding([Byte0(s[0], s[1]), Byte1(s[1], s[2])], |s| == 4)
  }

  /** Decodes quantum after quantum; on a fault keeps the bytes of the quanta before it. */
  function DecodeQuanta(s: Bytes): (r: Decoding)
    ensures r.ok ==> |s| % 4 == 0
    ensures |r.data| * 4 <= |s| * 3
    decreases |s|
  {
    if s == [] then Decoding([], true)
    else if FullQuantum(s) then
      var rest := DecodeQuanta(s[4..]);
      var group := [Byte0(s[0], s[1]), Byte1(s[1], s[2]), Byte2(s[2], s[3])];
      assert |group + rest.data| == 3 + |rest.data| && |s[4..]| == |s| - 4;
      Decoding(group + rest.data, rest.ok)
    else FinalQuantum(s)
  }

  /**
   * `DecodeString`: at most three bytes for every four characters, and no error only when
   * the characters other than CR and LF make whole quanta.
   */
  function Decode(s: Bytes): (r: Decoding)
    ensures |r.data| * 4 <= |s| * 3
    ensures r.ok ==> |StripNewlines(s)| % 4 == 0
  {
    DecodeQuanta(StripNewlines(s))
  }

  // ---------------------------------------------------------------- properties

  /** Encoder output contains no byte outside the alphabet and the pad; in particular no '.' (46). */
  lemma EncodeHasNo(s: Bytes, c: byte)
    requires !IsEncodedChar(c)
    ensures Count(Encode(s), c) == 0
  {
    NoneCounted(Encode(s), c);
  }

  lemma {:induction false} NoneCounted(s: Bytes, c: byte)
    requires forall i :: 0 <= i < |s| ==> s[i] != c
    ensures Count(s, c) == 0
  {
    if s != [] {
      NoneCounted(s[1..], c);
    }
  }

  lemma {:induction false} StripNewlinesNoop(s: Bytes)
    requires forall i :: 0 <= i < |s| ==> s[i] != CR && s[i] != LF
    ensures StripNewlines(s) == s
  {
    if s != [] {
      StripNewlinesNoop(s[1..]);
    }
  }

  /** A single character survives stripping unless it is CR or LF. */
  lemma StripNewlinesOne(c: byte)
    ensures StripNewlines([c]) == if c == CR || c == LF then [] else [c]
  {
    assert [c][1..] == [];
  }

  /** Stripping works piecewise, so the characters other than CR and LF survive in order. */
  lemma {:induction false} StripNewlinesAppend(a: Bytes, b: Bytes)
    ensures StripNewlines(a + b) == StripNewlines(a) + StripNewlines(b)
  {
    if a == [] {
      assert a + b == b;
    } else {
      assert (a + b)[0] == a[0] && (a + b)[1..] == a[1..] + b;
      StripNewlinesAppend(a[1..], b);
    }
  }

  lemma DivSum16(k: int, t: int)
    requires 0 <= t < 16
    ensures (k * 16 + t) / 16 == k && (k * 16 + t) % 16 == t
  {
  }

  lemma DivSum4(k: int, t: int)
    requires 0 <= t < 4
    ensures (k * 4 + t) / 4 == k && (k * 4 + t) % 4 == t
  {
  }

  /** Each byte of a group is recovered from the two characters that carry its bits. */
  lemma QuadDecodes(x: byte, y: byte, z: byte)
    ensures var q := Quad(x, y, z);
            && InAlphabet(q[0]) && InAlphabet(q[1]) && InAlphabet(q[2]) && InAlphabet(q[3])
            && Byte0(q[0], q[1]) == x && Byte1(q[1], q[2]) == y && Byte2(q[2], q[3]) == z
  {
    QuadInAlphabet(x, y, z);
    FirstByte(x, y);
    SecondByte(x, y, z);
    ThirdByte(y, z);
  }

  lemma FirstByte(x: byte, y: byte)
    ensures var hi, lo := x as int / 4, x as int % 4 * 16 + y as int / 16;
            0 <= hi < 64 && 0 <= lo < 64 && Byte0(Char(hi), Char(lo)) == x
  {
    var hi, lo := x as int / 4, x as int % 4 * 16 + y as int / 16;
    CharInAlphabet(hi);
    CharInAlphabet(lo);
    DivSum16(x as int % 4, y as int / 16);
  }

  lemma SecondByte(x: byte, y: byte, z: byte)
    ensures var hi, lo := x as int % 4 * 16 + y as int / 16, y as int % 16 * 4 + z as int / 64;
            0 <= hi < 64 && 0 <= lo < 64 && Byte1(Char(hi), Char(lo)) == y
  {
    var hi, lo := x as int % 4 * 16 + y as int / 16, y as int % 16 * 4 + z as int / 64;
    CharInAlphabet(hi);
    CharInAlphabet(lo);
    DivSum16(x as int % 4, y as int / 16);
    DivSum4(y as int % 16, z as int / 64);
  }

  lemma ThirdByte(y: byte, z: byte)
    ensures var hi, lo := y as int % 16 * 4 + z as int / 64, z as int % 64;
            0 <= hi < 64 && 0 <= lo < 64 && Byte2(Char(hi), Char(lo)) == z
  {
    var hi, lo := y as int % 16 * 4 + z as int / 64, z as int % 64;
    CharInAlphabet(hi);
    CharInAlphabet(lo);
    DivSum4(y as int % 16, z as int / 64);
  }

  /** A final `xx==` quantum decodes to one byte. */
  lemma DecodeLastOne(t: Bytes)
    requires |t| == 4 && InAlphabet(t[0]) && InAlphabet(t[1]) && t[2] == Pad && t[3] == Pad
    ensures DecodeQuanta(t) == Decoding([Byte0(t[0], t[1])], true)
  {
    assert !FullQuantum(t);
  }

  /** A final `xxx=` quantum decodes to two bytes. */
  lemma DecodeLastTwo(t: Bytes)
    requires |t| == 4 && InAlphabet(t[0]) && InAlphabet(t[1]) && InAlphabet(t[2]) && t[3] == Pad
    ensures DecodeQuanta(t) == Decoding([Byte0(t[0], t[1]), Byte1(t[1], t[2])], true)
  {
    assert !FullQuantum(t);
  }

  lemma OneByteRoundTrip(s: Bytes)
    requires |s| == 1
    ensures DecodeQuanta(Encode(s)) == Decoding(s, true)
  {
    assert s == [s[0]];
    var q := Quad(s[0], 0, 0);
    var e := Encode(s);
    assert e == q[..2] + [Pad, Pad];
    assert e[0] == q[0] && e[1] == q[1] && e[2] == Pad && e[3] == Pad;
    QuadDecodes(s[0], 0, 0);
    DecodeLastOne(e);
  }

  lemma TwoByteRoundTrip(s: Bytes)
    requires |s| == 2
    ensures DecodeQuanta(Encode(s)) == Decoding(s, true)
  {
    assert s == [s[0], s[1]];
    var q := Quad(s[0], s[1], 0);
    var e := Encode(s);
    assert e == q[..3] + [Pad];
    assert e[0] == q[0] && e[1] == q[1] && e[2] == q[2] && e[3] == Pad;
    QuadDecodes(s[0], s[1], 0);
    DecodeLastTwo(e);
  }

  /** One group of three: the first quantum of the encoding decodes to the first three bytes. */
  lemma GroupStep(s: Bytes)
    requires |s| >= 3
    ensures var e := Encode(s);
            FullQuantum(e) && e[4..] == Encode(s[3..]) &&
            Byte0(e[0], e[1]) == s[0] && Byte1(e[1], e[2]) == s[1] && Byte2(e[2], e[3]) == s[2]
  {
    var q := Quad(s[0], s[1], s[2]);
    var e := Encode(s);
    assert e == q + Encode(s[3..]);
    assert e[0] == q[0] && e[1] == q[1] && e[2] == q[2] && e[3] == q[3];
    QuadDecodes(s[0], s[1], s[2]);
  }

  /** A full quantum that decodes to the first three bytes of `s`, followed by the rest of `s`. */
  lemma DecodeQuantumOf(t: Bytes, s: Bytes)
    requires FullQuantum(t) && |s| >= 3
    requires Byte0(t[0], t[1]) == s[0] && Byte1(t[1], t[2]) == s[1] && Byte2(t[2], t[3]) == s[2]
    requires DecodeQuanta(t[4..]) == Decoding(s[3..], true)
    ensures DecodeQuanta(t) == Decoding(s, true)
  {
    assert s == [s[0], s[1], s[2]] + s[3..];
  }

  /** A round trip for `s[3..]` extends to one for `s`. */
  lemma GroupRoundTrip(s: Bytes)
    requires |s| >= 3
    requires DecodeQuanta(Encode(s[3..])) == Decoding(s[3..], true)
    ensures DecodeQuanta(Encode(s)) == Decoding(s, true)
  {
    GroupStep(s);
    DecodeQuantumOf(Encode(s), s);
  }

  /** Decoding after encoding gives back exactly the encoded bytes, without error. */
  lemma {:induction false} QuantaRoundTrip(s: Bytes)
    ensures DecodeQuanta(Encode(s)) == Decoding(s, true)
    decreases |s|
  {
    if |s| == 0 {
    } else if |s| == 1 {
      OneByteRoundTrip(s);
    } else if |s| == 2 {
      TwoByteRoundTrip(s);
    } else {
      QuantaRoundTrip(s[3..]);
      GroupRoundTrip(s);
    }
  }

  /** `DecodeString(EncodeToString(s))` is `s` with a nil error. */
  lemma RoundTrip(s: Bytes)
    ensures Decode(Encode(s)) == Decoding(s, true)
  {
    StripNewlinesNoop(Encode(s));
    QuantaRoundTrip(s);
  }

  /**
   * The decoder ignores the unused low bits of a padded final quantum, so the encoding of
   * a byte string is not the only string that decodes to it: "AB==" decodes to the byte 0
   * with no error, yet the encoding of that byte is "AA==".
   */
  lemma PadBitsIgnored()
    ensures Decode([65, 66, 61, 61]) == Decoding([0], true)
    ensures Encode([0]) == [65, 65, 61, 61]
  {
    assert StripNewlines([61]) == [61];
    assert StripNewlines([61, 61]) == [61, 61];
    assert StripNewlines([66, 61, 61]) == [66, 61, 61];
    assert StripNewlines([65, 66, 61, 61]) == [65, 66, 61, 61];
    assert Sextet(65) == 0 && Sextet(66) == 1;
  }
}
