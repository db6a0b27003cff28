/**
 * Base64 as defined in section 4 of RFC 4648 (alphabet A-Z a-z 0-9 + /, padding '='),
 * and Convert.FromBase64String, which decodes it after skipping the blanks ' ', '\t',
 * '\r' and '\n' and throws FormatException on anything else that is not well formed.
 */
module Base64 {
  import opened Wrappers
  import Text

  type Byte = b: int | 0 <= b < 256

  /** The 6-bit value a character of the alphabet stands for. */
  function SextetOf(c: char): Option<int> {
    if 'A' <= c <= 'Z' then Some(c as int - 'A' as int)
    else if 'a' <= c <= 'z' then Some(c as int - 'a' as int + 26)
    else if '0' <= c <= '9' then Some(c as int - '0' as int + 52)
    else if c == '+' then Some(62)
    else if c == '/' then Some(63)
    else None
  }

  /** The alphabet character of a 6-bit value. */
  function CharOf(v: int): (c: char)
    requires 0 <= v < 64
    ensures SextetOf(c) == Some(v)
    ensures c != '=' && c != ',' && !Text.IsWhiteSpace(c)
  {
    if v < 26 then ('A' as int + v) as char
    else if v < 52 then ('a' as int + v - 26) as char
    else if v < 62 then ('0' as int + v - 52) as char
    else if v == 62 then '+'
    else '/'
  }

  /** The characters an encoding may hold. */
  predicate IsEncodingChar(c: char) {
    SextetOf(c).Some? || c == '='
  }

  /** Encoding: each group of 3 bytes becomes 4 characters; a final group of 1 or 2 bytes is padded with '='. */
  function Encode(b: seq<Byte>): (r: string)
    ensures |r| == (|b| + 2) / 3 * 4
    ensures forall i :: 0 <= i < |r| ==> IsEncodingChar(r[i])
    decreases |b|
  {
    if |b| == 0 then []
    else if |b| == 1 then
      [CharOf(b[0] / 4), CharOf(b[0] % 4 * 16), '=', '=']
    else if |b| == 2 then
      [CharOf(b[0] / 4), CharOf(b[0] % 4 * 16 + b[1] / 16), CharOf(b[1] % 16 * 4), '=']
    else Quantum(b[0], b[1], b[2]) + Encode(b[3..])
  }

  /** Three bytes as four characters. */
  function Quantum(x: Byte, y: Byte, z: Byte): (r: string)
    ensures |r| == 4 && forall i :: 0 <= i < 4 ==> SextetOf(r[i]).Some?
  {
    [CharOf(x / 4), CharOf(x % 4 * 16 + y / 16), CharOf(y % 16 * 4 + z / 64), CharOf(z % 64)]
  }

  /** Four alphabet characters without padding: three bytes. */
  function DecodeFull(q: string): Option<seq<Byte>>
    requires |q| == 4
  {
    match (SextetOf(q[0]), SextetOf(q[1]), SextetOf(q[2]), SextetOf(q[3]))
    case (Some(a), Some(b), Some(c), Some(d)) =>
      Some([a * 4 + b / 16, b % 16 * 16 + c / 4, c % 4 * 64 + d])
    case _ => None
  }

  /** The last quantum, which may end in "==" (one byte) or "=" (two bytes); unused low bits are ignored. */
  function DecodeLast(q: string): Option<seq<Byte>>
    requires |q| == 4
  {
    if q[2] == '=' && q[3] == '=' then
      match (SextetOf(q[0]), SextetOf(q[1]))
      case (Some(a), Some(b)) => Some([a * 4 + b / 16])
      case _ => None
    else if q[3] == '=' then
      match (SextetOf(q[0]), SextetOf(q[1]), SextetOf(q[2]))
      case (Some(a), Some(b), Some(c)) => Some([a * 4 + b / 16, b % 16 * 16 + c / 4])
      case _ => None
    else DecodeFull(q)
  }

  /** Strict decoding: a multiple of four characters, padding only at the very end. */
  function Decode(s: string): Option<seq<Byte>>
    decreases |s|
  {
    if |s| == 0 then Some([])
    else if |s| < 4 then None
    else if |s| == 4 then DecodeLast(s)
    else
      match (DecodeFull(s[..4]), Decode(s[4..]))
      case (Some(q), Some(rest)) => Some(q + rest)
      case _ => None
  }

  /** The blanks Convert.FromBase64String skips wherever they occur. */
  predicate IsBase64Blank(c: char) {
    c == ' ' || c == '\t' || c == '\r' || c == '\n'
  }

  /** The text strict decoding accepts: whole quanta of alphabet characters and '=', where '='
      may only be one of the last two characters, and a '=' next to last is followed by another. */
  predicate WellFormed(e: string) {
    && |e| % 4 == 0
    && (forall i :: 0 <= i < |e| ==> IsEncodingChar(e[i]))
    && (forall i :: 0 <= i < |e| - 2 ==> e[i] != '=')
    && (|e| >= 2 && e[|e| - 2] == '=' ==> e[|e| - 1] == '=')
  }

  /** Convert.FromBase64String: once the blanks are skipped, it succeeds exactly on well-formed
      text and throws FormatException on anything else. */
  function FromBase64String(s: string): (r: Result<seq<Byte>>)
    ensures r.Ok? <==> WellFormed(Text.Filter(s, c => !IsBase64Blank(c)))
    ensures r.Err? ==> r.error == Format
  {
    var e := Text.Filter(s, c => !IsBase64Blank(c));
    DecodeWellFormed(e);
    match Decode(e)
    case Some(b) => Ok(b)
    case None => Err(Format)
  }

  /** Strict decoding succeeds exactly on well-formed text. */
  lemma {:induction false} DecodeWellFormed(e: string)
    ensures Decode(e).Some? <==> WellFormed(e)
    decreases |e|
  {
    if |e| == 4 {
      DecodeLastWellFormed(e);
    } else if |e| > 4 {
      var q, t := e[..4], e[4..];
      DecodeWellFormed(t);
      assert forall i :: 0 <= i < |t| ==> t[i] == e[i + 4];
      assert WellFormed(e) <==> (forall i :: 0 <= i < 4 ==> SextetOf(q[i]).Some?) && WellFormed(t) by {
        if WellFormed(e) {
          assert forall i :: 0 <= i < 4 ==> e[i] != '=' && IsEncodingChar(e[i]);
        }
        if (forall i :: 0 <= i < 4 ==> SextetOf(q[i]).Some?) && WellFormed(t) {
          assert forall i :: 0 <= i < |e| ==> i < 4 || e[i] == t[i - 4];
          assert forall i :: 0 <= i < 4 ==> SextetOf(e[i]).Some?;
        }
      }
    }
  }

  lemma DecodeLastWellFormed(q: string)
    requires |q| == 4
    ensures DecodeLast(q).Some? <==> WellFormed(q)
  {
  }

  lemma ThreeBytes(x: Byte, y: Byte, z: Byte)
    ensures var a, b, c, d := x / 4, x % 4 * 16 + y / 16, y % 16 * 4 + z / 64, z % 64;
      && 0 <= a < 64 && 0 <= b < 64 && 0 <= c < 64 && 0 <= d < 64
      && a * 4 + b / 16 == x && b % 16 * 16 + c / 4 == y && c % 4 * 64 + d == z
  {
  }

  lemma DecodeOneByte(x: Byte)
    ensures DecodeLast(Encode([x])) == Some([x])
  {
    ThreeBytes(x, 0, 0);
    var e := Encode([x]);
    assert SextetOf(e[0]) == Some(x / 4) && SextetOf(e[1]) == Some(x % 4 * 16);
  }

  lemma DecodeTwoBytes(x: Byte, y: Byte)
    ensures DecodeLast(Encode([x, y])) == Some([x, y])
  {
    ThreeBytes(x, y, 0);
    var e := Encode([x, y]);
    var a, b, c := x / 4, x % 4 * 16 + y / 16, y % 16 * 4;
    assert SextetOf(e[0]) == Some(a) && SextetOf(e[1]) == Some(b) && SextetOf(e[2]) == Some(c);
    assert e[2] != '=' && e[3] == '=';
  }

  lemma DecodeThreeBytes(x: Byte, y: Byte, z: Byte)
    ensures DecodeFull(Quantum(x, y, z)) == Some([x, y, z])
    ensures DecodeLast(Quantum(x, y, z)) == Some([x, y, z])
  {
    ThreeBytes(x, y, z);
    var e := Quantum(x, y, z);
    var a, b, c, d := x / 4, x % 4 * 16 + y / 16, y % 16 * 4 + z / 64, z % 64;
    assert SextetOf(e[0]) == Some(a) && SextetOf(e[1]) == Some(b);
    assert SextetOf(e[2]) == Some(c) && SextetOf(e[3]) == Some(d);
  }

  lemma DecodeOfFour(e: string)
    requires |e| == 4
    ensures Decode(e) == DecodeLast(e)
  {
  }

  lemma DecodeOfLonger(q: string, t: string)
    requires |q| == 4 && |t| > 0
    ensures Decode(q + t) == match (DecodeFull(q), Decode(t))
      case (Some(x), Some(y)) => Some(x + y)
      case _ => None
  {
    var e := q + t;
    assert e[..4] == q && e[4..] == t;
  }

  lemma DecodeEncodeShort(b: seq<Byte>)
    requires 1 <= |b| <= 2
    ensures Decode(Encode(b)) == Some(b)
  {
    DecodeOfFour(Encode(b));
    if |b| == 1 {
      DecodeOneByte(b[0]);
      assert b == [b[0]];
    } else {
      DecodeTwoBytes(b[0], b[1]);
      assert b == [b[0], b[1]];
    }
  }

  lemma {:induction false} DecodeEncode(b: seq<Byte>)
    ensures Decode(Encode(b)) == Some(b)
    decreases |b|
  {
    if 1 <= |b| <= 2 {
      DecodeEncodeShort(b);
    } else if |b| >= 3 {
      var q, tail := Quantum(b[0], b[1], b[2]), b[3..];
      DecodeThreeBytes(b[0], b[1], b[2]);
      DecodeEncode(tail);
      assert Encode(b) == q + Encode(tail);
      assert b == [b[0], b[1], b[2]] + tail;
      if |b| == 3 {
        assert Encode(tail) == [];
        assert Encode(b) == q;
        assert b == [b[0], b[1], b[2]];
        DecodeOfFour(q);
      } else {
        DecodeOfLonger(q, Encode(tail));
      }
    }
  }

  /** Round trip: the encoding of any byte sequence is read back by Convert.FromBase64String. */
  lemma FromBase64StringEncode(b: seq<Byte>)
    ensures FromBase64String(Encode(b)) == Ok(b)
  {
    var e := Encode(b);
    NoBlanksFiltered(e);
    DecodeEncode(b);
  }

  lemma {:induction false} NoBlanksFiltered(e: string)
    requires forall i :: 0 <= i < |e| ==> IsEncodingChar(e[i])
    ensures Text.Filter(e, c => !IsBase64Blank(c)) == e
  {
    if e != [] {
      NoBlanksFiltered(e[1..]);
      assert [e[0]] + e[1..] == e;
    }
  }

  /** An encoding holds no comma and no white space, and is empty only for no bytes. */
  lemma EncodeIsPlain(b: seq<Byte>)
    ensures ',' !in Encode(b)
    ensures Text.NoWhiteSpace(Encode(b))
    ensures Encode(b) == [] <==> b == []
  {
    var e := Encode(b);
    forall i | 0 <= i < |e| ensures e[i] != ',' && !Text.IsWhiteSpace(e[i]) {
      assert IsEncodingChar(e[i]);
    }
  }
}
