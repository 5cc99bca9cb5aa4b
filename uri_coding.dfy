/**
 * A model of JavaScript's `decodeURIComponent`, which turns the `data-info`
 * attribute of a mention span back into JSON text, together with the
 * matching `encodeURIComponent` that writes such attributes. Characters are
 * Unicode scalar values; an escape sequence must spell out one well-formed,
 * shortest-form UTF-8 sequence, otherwise the call throws `URIError`
 * (modelled as `None`).
 */
module UriCoding {
  import opened Wrappers

  predicate IsHexDigit(c: char) {
    '0' <= c <= '9' || 'a' <= c <= 'f' || 'A' <= c <= 'F'
  }

  function HexValue(c: char): (v: nat)
    requires IsHexDigit(c)
    ensures v < 16
  {
    if '0' <= c <= '9' then c as int - '0' as int
    else if 'a' <= c <= 'f' then c as int - 'a' as int + 10
    else c as int - 'A' as int + 10
  }

  /** The octet written as `%XY` at the start of `s`, if `s` starts with a well-formed escape. */
  function EscapedOctet(s: string): (b: Option<nat>)
    ensures b.Some? ==> |s| >= 3 && s[0] == '%' && b.value < 256
  {
    if |s| >= 3 && s[0] == '%' && IsHexDigit(s[1]) && IsHexDigit(s[2])
    then Some(16 * HexValue(s[1]) + HexValue(s[2]))
    else None
  }

  /** The low six bits of a continuation octet `10xxxxxx` escaped at `s[i..i + 3]`. */
  function ContinuationBits(s: string, i: nat): (r: Option<nat>)
    ensures r.Some? ==> i + 3 <= |s| && r.value < 64
  {
    if i > |s| then None
    else match EscapedOctet(s[i..])
      case Some(b) => if 0x80 <= b < 0xC0 then Some(b - 0x80) else None
      case None => None
  }

  /**
   * The first decoded character of non-empty `s` and the number of input
   * characters it takes: a character other than `%` stands for itself; an
   * escape starts a UTF-8 sequence of one to four escaped octets.
   */
  function DecodeUnit(s: string): (r: Option<(char, nat)>)
    requires s != []
    ensures r.Some? ==> 1 <= r.value.1 <= |s|
    ensures s[0] != '%' ==> r == Some((s[0], 1))
  {
    if s[0] != '%' then Some((s[0], 1))
    else match EscapedOctet(s)
      case None => None
      case Some(b0) =>
        if b0 < 0x80 then Some((b0 as char, 3))
        else if 0xC0 <= b0 < 0xE0 then
          match ContinuationBits(s, 3)
          case None => None
          case Some(c1) =>
            var cp := (b0 - 0xC0) * 64 + c1;
            if cp >= 0x80 then Some((cp as char, 6)) else None
        else if 0xE0 <= b0 < 0xF0 then
          match (ContinuationBits(s, 3), ContinuationBits(s, 6))
          case (Some(c1), Some(c2)) =>
            var cp := (b0 - 0xE0) * 4096 + c1 * 64 + c2;
            if cp >= 0x800 && !(0xD800 <= cp <= 0xDFFF) then Some((cp as char, 9)) else None
          case _ => None
        else if 0xF0 <= b0 < 0xF8 then
          match (ContinuationBits(s, 3), ContinuationBits(s, 6), ContinuationBits(s, 9))
          case (Some(c1), Some(c2), Some(c3)) =>
            var cp := (b0 - 0xF0) * 262144 + c1 * 4096 + c2 * 64 + c3;
            if 0x10000 <= cp <= 0x10FFFF then Some((cp as char, 12)) else None
          case _ => None
        else None
  }

  /** `decodeURIComponent(s)`; `None` when it throws `URIError`. */
  function Decode(s: string): (r: Option<string>)
    ensures r.Some? ==> |r.value| <= |s|
    ensures r.Some? ==> (r.value == [] <==> s == [])
    decreases |s|
  {
    if s == [] then Some([])
    else match DecodeUnit(s)
      case None => None
      case Some((c, n)) =>
        match Decode(s[n..])
        case None => None
        case Some(rest) => Some([c] + rest)
  }

  /** Text with no `%` decodes to itself. */
  lemma {:induction false} DecodePlainText(s: string)
    requires forall i :: 0 <= i < |s| ==> s[i] != '%'
    ensures Decode(s) == Some(s)
    decreases |s|
  {
    if s != [] {
      DecodePlainText(s[1..]);
      assert s == [s[0]] + s[1..];
    }
  }

  /** A lone `%`, or one not followed by two hex digits, makes the call throw. */
  lemma DecodeBadEscape(s: string)
    requires s != [] && s[0] == '%' && EscapedOctet(s).None?
    ensures Decode(s) == None
  {
  }

  // ---------------------------------------------------------------------------
  // encodeURIComponent: the writer of `data-info` and the decoder's partner.

  /** The characters `encodeURIComponent` leaves as they are. */
  predicate IsUnreserved(c: char) {
    || 'A' <= c <= 'Z' || 'a' <= c <= 'z' || '0' <= c <= '9'
    || c == '-' || c == '_' || c == '.' || c == '!' || c == '~' || c == '*' || c == '\'' || c == '(' || c == ')'
  }

  function HexDigit(v: nat): (c: char)
    requires v < 16
    ensures IsHexDigit(c) && HexValue(c) == v
  {
    if v < 10 then ('0' as int + v) as char else ('A' as int + v - 10) as char
  }

  function EscapeOctet(b: nat): (e: string)
    requires b < 256
    ensures |e| == 3
  {
    ['%', HexDigit(b / 16), HexDigit(b % 16)]
  }

  /** The UTF-8 encoding of a Unicode scalar value. */
  function Utf8Octets(c: char): (bs: seq<nat>)
    ensures 1 <= |bs| <= 4
    ensures forall i :: 0 <= i < |bs| ==> bs[i] < 256
  {
    var cp := c as int;
    if cp < 0x80 then [cp]
    else if cp < 0x800 then [0xC0 + cp / 64, 0x80 + cp % 64]
    else if cp < 0x10000 then [0xE0 + cp / 4096, 0x80 + (cp / 64) % 64, 0x80 + cp % 64]
    else [0xF0 + cp / 262144, 0x80 + (cp / 4096) % 64, 0x80 + (cp / 64) % 64, 0x80 + cp % 64]
  }

  function EscapeOctets(bs: seq<nat>): (e: string)
    requires forall i :: 0 <= i < |bs| ==> bs[i] < 256
    ensures |e| == 3 * |bs|
  {
    if bs == [] then [] else EscapeOctet(bs[0]) + EscapeOctets(bs[1..])
  }

  function EncodeChar(c: char): (e: string)
    ensures 1 <= |e| <= 12
  {
    if IsUnreserved(c) then [c] else EscapeOctets(Utf8Octets(c))
  }

  /** `encodeURIComponent(s)`. */
  function Encode(s: string): (e: string)
    decreases |s|
  {
    if s == [] then [] else EncodeChar(s[0]) + Encode(s[1..])
  }

  lemma EscapedOctetOf(b: nat, rest: string)
    requires b < 256
    ensures EscapedOctet(EscapeOctet(b) + rest) == Some(b)
  {
  }

  lemma ContinuationOf(pre: string, b: nat, rest: string)
    requires 0x80 <= b < 0xC0
    ensures ContinuationBits(pre + EscapeOctet(b) + rest, |pre|) == Some(b - 0x80)
  {
    var s := pre + EscapeOctet(b) + rest;
    assert s[|pre|..] == EscapeOctet(b) + rest;
    EscapedOctetOf(b, rest);
  }

  lemma EscapeOctetsTwo(bs: seq<nat>)
    requires |bs| == 2 && bs[0] < 256 && bs[1] < 256
    ensures EscapeOctets(bs) == EscapeOctet(bs[0]) + EscapeOctet(bs[1])
  {
    var t := bs[1..];
    assert t[1..] == [];
    assert EscapeOctets(t) == EscapeOctet(bs[1]) + [];
  }

  lemma EscapeOctetsThree(bs: seq<nat>)
    requires |bs| == 3 && bs[0] < 256 && bs[1] < 256 && bs[2] < 256
    ensures EscapeOctets(bs) == EscapeOctet(bs[0]) + EscapeOctet(bs[1]) + EscapeOctet(bs[2])
  {
    EscapeOctetsTwo(bs[1..]);
    AppendAssoc(EscapeOctet(bs[0]), EscapeOctet(bs[1]), EscapeOctet(bs[2]));
  }

  lemma EscapeOctetsFour(bs: seq<nat>)
    requires |bs| == 4 && bs[0] < 256 && bs[1] < 256 && bs[2] < 256 && bs[3] < 256
    ensures EscapeOctets(bs) == EscapeOctet(bs[0]) + EscapeOctet(bs[1]) + EscapeOctet(bs[2]) + EscapeOctet(bs[3])
  {
    EscapeOctetsThree(bs[1..]);
    var c, d, e, f := EscapeOctet(bs[0]), EscapeOctet(bs[1]), EscapeOctet(bs[2]), EscapeOctet(bs[3]);
    AppendAssoc(c, d + e, f);
    AppendAssoc(c, d, e);
  }


  lemma DecodeOne(b0: nat, rest: string)
    requires b0 < 0x80
    ensures DecodeUnit(EscapeOctet(b0) + rest) == Some((b0 as char, 3))
  {
    EscapedOctetOf(b0, rest);
  }

  lemma DecodeTwo(b0: nat, b1: nat, rest: string)
    requires 0xC0 <= b0 < 0xE0 && 0x80 <= b1 < 0xC0
    requires (b0 - 0xC0) * 64 + (b1 - 0x80) >= 0x80
    ensures DecodeUnit(EscapeOctet(b0) + EscapeOctet(b1) + rest)
         == Some((((b0 - 0xC0) * 64 + (b1 - 0x80)) as char, 6))
  {
    var e0 := EscapeOctet(b0);
    var s := e0 + EscapeOctet(b1) + rest;
    assert s == e0 + (EscapeOctet(b1) + rest);
    EscapedOctetOf(b0, EscapeOctet(b1) + rest);
    ContinuationOf(e0, b1, rest);
  }

  lemma DecodeThree(b0: nat, b1: nat, b2: nat, rest: string)
    requires 0xE0 <= b0 < 0xF0 && 0x80 <= b1 < 0xC0 && 0x80 <= b2 < 0xC0
    requires var cp := (b0 - 0xE0) * 4096 + (b1 - 0x80) * 64 + (b2 - 0x80);
      cp >= 0x800 && !(0xD800 <= cp <= 0xDFFF)
    ensures DecodeUnit(EscapeOctet(b0) + EscapeOctet(b1) + EscapeOctet(b2) + rest)
         == Some((((b0 - 0xE0) * 4096 + (b1 - 0x80) * 64 + (b2 - 0x80)) as char, 9))
  {
    var e0, e1, e2 := EscapeOctet(b0), EscapeOctet(b1), EscapeOctet(b2);
    var s := e0 + e1 + e2 + rest;
    assert s == e0 + (e1 + e2 + rest);
    EscapedOctetOf(b0, e1 + e2 + rest);
    assert s == e0 + e1 + (e2 + rest);
    ContinuationOf(e0, b1, e2 + rest);
    ContinuationOf(e0 + e1, b2, rest);
  }

  lemma DecodeFour(b0: nat, b1: nat, b2: nat, b3: nat, rest: string)
    requires 0xF0 <= b0 < 0xF8 && 0x80 <= b1 < 0xC0 && 0x80 <= b2 < 0xC0 && 0x80 <= b3 < 0xC0
    requires var cp := (b0 - 0xF0) * 262144 + (b1 - 0x80) * 4096 + (b2 - 0x80) * 64 + (b3 - 0x80);
      0x10000 <= cp <= 0x10FFFF
    ensures DecodeUnit(EscapeOctet(b0) + EscapeOctet(b1) + EscapeOctet(b2) + EscapeOctet(b3) + rest)
         == Some((((b0 - 0xF0) * 262144 + (b1 - 0x80) * 4096 + (b2 - 0x80) * 64 + (b3 - 0x80)) as char, 12))
  {
    var e0, e1, e2, e3 := EscapeOctet(b0), EscapeOctet(b1), EscapeOctet(b2), EscapeOctet(b3);
    var s := e0 + e1 + e2 + e3 + rest;
    assert s == e0 + (e1 + e2 + e3 + rest);
    EscapedOctetOf(b0, e1 + e2 + e3 + rest);
    assert s == e0 + e1 + (e2 + e3 + rest);
    ContinuationOf(e0, b1, e2 + e3 + rest);
    assert s == e0 + e1 + e2 + (e3 + rest);
    ContinuationOf(e0 + e1, b2, e3 + rest);
    ContinuationOf(e0 + e1 + e2, b3, rest);
  }

  lemma Utf8Arith2(cp: int)
    requires 0x80 <= cp < 0x800
    ensures 0xC0 <= 0xC0 + cp / 64 < 0xE0 && 0x80 <= 0x80 + cp % 64 < 0xC0
    ensures (cp / 64) * 64 + cp % 64 == cp
  {
  }

  lemma Utf8Arith3(cp: int)
    requires 0x800 <= cp < 0x10000
    ensures 0xE0 <= 0xE0 + cp / 4096 < 0xF0 && 0x80 <= 0x80 + (cp / 64) % 64 < 0xC0 && 0x80 <= 0x80 + cp % 64 < 0xC0
    ensures (cp / 4096) * 4096 + ((cp / 64) % 64) * 64 + cp % 64 == cp
  {
    var q := cp / 64;
    assert q * 64 + cp % 64 == cp;
    assert (q / 64) * 64 + q % 64 == q;
    assert cp / 4096 == q / 64;
  }

  lemma Utf8Arith4(cp: int)
    requires 0x10000 <= cp < 0x110000
    ensures 0xF0 <= 0xF0 + cp / 262144 < 0xF8
    ensures 0x80 <= 0x80 + (cp / 4096) % 64 < 0xC0 && 0x80 <= 0x80 + (cp / 64) % 64 < 0xC0 && 0x80 <= 0x80 + cp % 64 < 0xC0
    ensures (cp / 262144) * 262144 + ((cp / 4096) % 64) * 4096 + ((cp / 64) % 64) * 64 + cp % 64 == cp
  {
    var q := cp / 64;
    var r := q / 64;
    assert q * 64 + cp % 64 == cp;
    assert r * 64 + q % 64 == q;
    assert (r / 64) * 64 + r % 64 == r;
    assert cp / 4096 == r;
    assert cp / 262144 == r / 64;
  }

  lemma DecodeUnitEscaped1(c: char, rest: string)
    requires c as int < 0x80
    ensures DecodeUnit(EscapeOctets(Utf8Octets(c)) + rest) == Some((c, 3 * |Utf8Octets(c)|))
  {
    var bs := Utf8Octets(c);
    assert bs[1..] == [];
    assert EscapeOctets(bs) == EscapeOctet(bs[0]) + [];
    DecodeOne(bs[0], rest);
  }

  lemma DecodeUnitEscaped2(c: char, rest: string)
    requires 0x80 <= c as int < 0x800
    ensures DecodeUnit(EscapeOctets(Utf8Octets(c)) + rest) == Some((c, 3 * |Utf8Octets(c)|))
  {
    var bs := Utf8Octets(c);
    EscapeOctetsTwo(bs);
    Utf8Arith2(c as int);
    DecodeTwo(bs[0], bs[1], rest);
  }

  lemma DecodeUnitEscaped3(c: char, rest: string)
    requires 0x800 <= c as int < 0x10000
    ensures DecodeUnit(EscapeOctets(Utf8Octets(c)) + rest) == Some((c, 3 * |Utf8Octets(c)|))
  {
    var bs := Utf8Octets(c);
    EscapeOctetsThree(bs);
    Utf8Arith3(c as int);
    DecodeThree(bs[0], bs[1], bs[2], rest);
  }

  lemma DecodeUnitEscaped4(c: char, rest: string)
    requires 0x10000 <= c as int
    ensures DecodeUnit(EscapeOctets(Utf8Octets(c)) + rest) == Some((c, 3 * |Utf8Octets(c)|))
  {
    var bs := Utf8Octets(c);
    EscapeOctetsFour(bs);
    Utf8Arith4(c as int);
    DecodeFour(bs[0], bs[1], bs[2], bs[3], rest);
  }

  /** Decoding the UTF-8 escapes of a character gives back that character. */
  lemma DecodeUnitEscaped(c: char, rest: string)
    ensures DecodeUnit(EscapeOctets(Utf8Octets(c)) + rest) == Some((c, 3 * |Utf8Octets(c)|))
  {
    var cp := c as int;
    if cp < 0x80 {
      DecodeUnitEscaped1(c, rest);
    } else if cp < 0x800 {
      DecodeUnitEscaped2(c, rest);
    } else if cp < 0x10000 {
      DecodeUnitEscaped3(c, rest);
    } else {
      DecodeUnitEscaped4(c, rest);
    }
  }

  /** Decoding the encoding of one character gives back that character and consumes all of it. */
  lemma DecodeUnitEncodeChar(c: char, rest: string)
    ensures DecodeUnit(EncodeChar(c) + rest) == Some((c, |EncodeChar(c)|))
  {
    if !IsUnreserved(c) {
      DecodeUnitEscaped(c, rest);
    }
  }

  /** Round trip: `decodeURIComponent(encodeURIComponent(s)) == s` for every string. */
  lemma {:induction false} DecodeEncode(s: string)
    ensures Decode(Encode(s)) == Some(s)
    decreases |s|
  {
    if s != [] {
      var e, rest := EncodeChar(s[0]), Encode(s[1..]);
      assert Encode(s) == e + rest;
      DecodeUnitEncodeChar(s[0], rest);
      DecodeEncode(s[1..]);
      DecodeFront(e, rest, s[0], s[1..]);
      assert s == [s[0]] + s[1..];
    }
  }

  /** A first unit that decodes to `c` and takes all of `e`, followed by a text that decodes to `tail`. */
  lemma DecodeFront(e: string, rest: string, c: char, tail: string)
    requires e + rest != [] && DecodeUnit(e + rest) == Some((c, |e|)) && Decode(rest) == Some(tail)
    ensures Decode(e + rest) == Some([c] + tail)
  {
    assert (e + rest)[|e|..] == rest;
  }

  /** The alphabet of `encodeURIComponent`'s output: unreserved characters and the `%` of escapes. */
  predicate IsUriText(e: string) {
    forall i :: 0 <= i < |e| ==> IsUnreserved(e[i]) || e[i] == '%'
  }

  lemma UriTextAppend(a: string, b: string)
    requires IsUriText(a) && IsUriText(b)
    ensures IsUriText(a + b)
  {
    forall i | 0 <= i < |a + b| ensures IsUnreserved((a + b)[i]) || (a + b)[i] == '%' {
      if i >= |a| {
        assert (a + b)[i] == b[i - |a|];
      }
    }
  }

  lemma {:induction false} EscapeOctetsAlphabet(bs: seq<nat>)
    requires forall i :: 0 <= i < |bs| ==> bs[i] < 256
    ensures IsUriText(EscapeOctets(bs))
    decreases |bs|
  {
    if bs != [] {
      EscapeOctetsAlphabet(bs[1..]);
      UriTextAppend(EscapeOctet(bs[0]), EscapeOctets(bs[1..]));
    }
  }

  /** `encodeURIComponent` writes only unreserved characters and escapes. */
  lemma {:induction false} EncodeAlphabet(s: string)
    ensures IsUriText(Encode(s))
    decreases |s|
  {
    if s != [] {
      if !IsUnreserved(s[0]) {
        EscapeOctetsAlphabet(Utf8Octets(s[0]));
      }
      EncodeAlphabet(s[1..]);
      UriTextAppend(EncodeChar(s[0]), Encode(s[1..]));
    }
  }

  /** Only the empty string encodes to the empty string. */
  lemma EncodeEmpty(s: string)
    ensures Encode(s) == [] <==> s == []
  {
  }

  /** `encodeURIComponent` works character by character. */
  lemma {:induction false} EncodeAppend(a: string, b: string)
    ensures Encode(a + b) == Encode(a) + Encode(b)
    decreases |a|
  {
    if a == [] {
      assert a + b == b;
    } else {
      assert (a + b)[0] == a[0] && (a + b)[1..] == a[1..] + b;
      EncodeAppend(a[1..], b);
    }
  }

  /** Text made of unreserved characters is written as it is. */
  lemma {:induction false} EncodeUnreserved(s: string)
    requires forall i :: 0 <= i < |s| ==> IsUnreserved(s[i])
    ensures Encode(s) == s
    decreases |s|
  {
    if s != [] {
      EncodeUnreserved(s[1..]);
    }
  }
}
