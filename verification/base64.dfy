/** The base64 encoding of section 4 of RFC 4648 (alphabet of Table 1, `=`
    padding), as Python's `base64.b64encode` writes it and `base64.b64decode`
    reads it back. */
module Base64 {
  import opened Base

  /** A 6-bit group, the value one alphabet character stands for. */
  type Sextet = i: int | 0 <= i < 64

  /** Table 1 of RFC 4648: value -> character. */
  function Char(i: Sextet): (c: char)
    ensures c != '='
  {
    if i < 26 then ('A' as int + i) as char
    else if i < 52 then ('a' as int + (i - 26)) as char
    else if i < 62 then ('0' as int + (i - 52)) as char
    else if i == 62 then '+'
    else '/'
  }

  /** Table 1 of RFC 4648 read backwards: character -> value, `None` outside
      the alphabet. */
  function Value(c: char): (r: Option<Sextet>)
    ensures r.Some? ==> Char(r.value) == c
  {
    if 'A' <= c <= 'Z' then Some(c as int - 'A' as int)
    else if 'a' <= c <= 'z' then Some(c as int - 'a' as int + 26)
    else if '0' <= c <= '9' then Some(c as int - '0' as int + 52)
    else if c == '+' then Some(62)
    else if c == '/' then Some(63)
    else None
  }

  lemma ValueOfChar(i: Sextet)
    ensures Value(Char(i)) == Some(i)
  {
  }

  /** Three bytes become four characters. */
  function EncodeGroup(a: Byte, b: Byte, c: Byte): string
  {
    [Char(a / 4), Char((a % 4) * 16 + b / 16), Char((b % 16) * 4 + c / 64), Char(c % 64)]
  }

  /** `b64encode`: full groups, then a final group padded with `=` when the
      length is not a multiple of three. */
  function Encode(bs: Bytes): (r: string)
    decreases |bs|
  {
    if |bs| == 0 then ""
    else if |bs| == 1 then [Char(bs[0] / 4), Char((bs[0] % 4) * 16), '=', '=']
    else if |bs| == 2 then
      [Char(bs[0] / 4), Char((bs[0] % 4) * 16 + bs[1] / 16), Char((bs[1] % 16) * 4), '=']
    else EncodeGroup(bs[0], bs[1], bs[2]) + Encode(bs[3..])
  }

  /** Every three input bytes, and a final partial group, take four
      characters. */
  lemma {:induction false} EncodeLength(bs: Bytes)
    ensures |Encode(bs)| == 4 * ((|bs| + 2) / 3)
    ensures |Encode(bs)| % 4 == 0
    decreases |bs|
  {
    if |bs| >= 3 {
      var rest := bs[3..];
      EncodeLength(rest);
      assert |Encode(bs)| == 4 + |Encode(rest)|;
      assert (|bs| + 2) / 3 == (|rest| + 2) / 3 + 1;
    }
  }

  /** Decodes one four-character group; a group ending in `=` or `==` carries
      two or one bytes. */
  function DecodeGroup(q: string): (r: Option<Bytes>)
    requires |q| == 4
    ensures r.Some? ==> 1 <= |r.value| <= 3
    ensures r.Some? && |r.value| < 3 ==> q[3] == '='
  {
    match (Value(q[0]), Value(q[1]))
    case (Some(i0), Some(i1)) =>
      if q[2] == '=' && q[3] == '=' then
        Some([i0 * 4 + i1 / 16])
      else (
        match Value(q[2])
        case None => None
        case Some(i2) =>
          if q[3] == '=' then
            Some([i0 * 4 + i1 / 16, (i1 % 16) * 16 + i2 / 4])
          else (
            match Value(q[3])
            case None => None
            case Some(i3) =>
              Some([i0 * 4 + i1 / 16, (i1 % 16) * 16 + i2 / 4, (i2 % 4) * 64 + i3])
          )
      )
    case _ => None
  }

  /** `b64decode` of well-formed text: a length that is a multiple of four,
      alphabet characters only, padding only in the last group. */
  function Decode(s: string): (r: Option<Bytes>)
    decreases |s|
  {
    if |s| == 0 then Some([])
    else if |s| < 4 then None
    else
      match DecodeGroup(s[..4])
      case None => None
      case Some(g) =>
        if |g| < 3 && |s| > 4 then None
        else
          match Decode(s[4..])
          case None => None
          case Some(rest) => Some(g + rest)
  }

  lemma DecodeEncodeGroup(a: Byte, b: Byte, c: Byte)
    ensures DecodeGroup(EncodeGroup(a, b, c)) == Some([a, b, c])
  {
    var q := EncodeGroup(a, b, c);
    ValueOfChar(a / 4);
    ValueOfChar((a % 4) * 16 + b / 16);
    ValueOfChar((b % 16) * 4 + c / 64);
    ValueOfChar(c % 64);
    assert ((a % 4) * 16 + b / 16) / 16 == a % 4;
    assert ((a % 4) * 16 + b / 16) % 16 == b / 16;
    assert ((b % 16) * 4 + c / 64) / 4 == b % 16;
    assert ((b % 16) * 4 + c / 64) % 4 == c / 64;
  }

  /** One trailing byte: two characters and `==`. */
  lemma DecodeEncodeOne(a: Byte)
    ensures DecodeGroup(Encode([a])) == Some([a])
  {
    ValueOfChar(a / 4);
    ValueOfChar((a % 4) * 16);
    assert ((a % 4) * 16) / 16 == a % 4;
  }

  /** Two trailing bytes: three characters and `=`. */
  lemma DecodeEncodeTwo(a: Byte, b: Byte)
    ensures DecodeGroup(Encode([a, b])) == Some([a, b])
  {
    ValueOfChar(a / 4);
    ValueOfChar((a % 4) * 16 + b / 16);
    ValueOfChar((b % 16) * 4);
    assert ((a % 4) * 16 + b / 16) / 16 == a % 4;
    assert ((a % 4) * 16 + b / 16) % 16 == b / 16;
    assert ((b % 16) * 4) / 4 == b % 16;
  }

  /** A single final group decodes on its own. */
  lemma DecodeSingleGroup(q: string, x: Bytes)
    requires |q| == 4 && DecodeGroup(q) == Some(x)
    ensures Decode(q) == Some(x)
  {
    assert q[..4] == q;
    assert q[4..] == [];
    assert x + [] == x;
  }

  /** A full leading group is decoded, then the rest. */
  lemma DecodeFullGroupThenRest(q: string, x: Bytes, rest: string, y: Bytes)
    requires |q| == 4 && DecodeGroup(q) == Some(x) && |x| == 3
    requires Decode(rest) == Some(y)
    ensures Decode(q + rest) == Some(x + y)
  {
    var s := q + rest;
    assert s[..4] == q;
    assert s[4..] == rest;
  }

  /** Section 4 round trip: decoding what was encoded gives back the bytes. */
  lemma {:induction false} DecodeEncode(bs: Bytes)
    ensures Decode(Encode(bs)) == Some(bs)
    decreases |bs|
  {
    if |bs| == 0 {
    } else if |bs| == 1 {
      assert bs == [bs[0]];
      DecodeEncodeOne(bs[0]);
      DecodeSingleGroup(Encode(bs), bs);
    } else if |bs| == 2 {
      assert bs == [bs[0], bs[1]];
      DecodeEncodeTwo(bs[0], bs[1]);
      DecodeSingleGroup(Encode(bs), bs);
    } else {
      var g := EncodeGroup(bs[0], bs[1], bs[2]);
      assert Encode(bs) == g + Encode(bs[3..]);
      DecodeEncodeGroup(bs[0], bs[1], bs[2]);
      DecodeEncode(bs[3..]);
      DecodeFullGroupThenRest(g, [bs[0], bs[1], bs[2]], Encode(bs[3..]), bs[3..]);
      assert bs == [bs[0], bs[1], bs[2]] + bs[3..];
    }
  }

  /** Every character `b64encode` writes is in the alphabet or is padding. */
  lemma {:induction false} EncodeAlphabet(bs: Bytes)
    ensures forall i :: 0 <= i < |Encode(bs)| ==> Encode(bs)[i] == '=' || Value(Encode(bs)[i]).Some?
    decreases |bs|
  {
    if |bs| >= 3 {
      EncodeAlphabet(bs[3..]);
      var g := EncodeGroup(bs[0], bs[1], bs[2]);
      forall i | 0 <= i < 4 ensures Value(g[i]).Some? {
        var s: Sextet :| Char(s) == g[i];
        ValueOfChar(s);
      }
    } else if |bs| > 0 {
      var e := Encode(bs);
      forall i | 0 <= i < |e| ensures e[i] == '=' || Value(e[i]).Some? {
        if e[i] != '=' {
          var s: Sextet :| Char(s) == e[i];
          ValueOfChar(s);
        }
      }
    }
  }
}
