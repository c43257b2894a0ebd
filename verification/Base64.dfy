/** Unpadded base64url: section 5 of RFC 4648, decoded as leniently as Go's RawURLEncoding does. */
module Base64 {
  import opened Prelude

  type Byte = n: nat | n < 256
  type Sextet = n: nat | n < 64

  function Digit(v: Sextet): char {
    if v < 26 then ('A' as int + v) as char
    else if v < 52 then ('a' as int + v - 26) as char
    else if v < 62 then ('0' as int + v - 52) as char
    else if v == 62 then '-'
    else '_'
  }

  function Value(c: char): Option<Sextet> {
    if 'A' <= c <= 'Z' then Some(c as int - 'A' as int)
    else if 'a' <= c <= 'z' then Some(c as int - 'a' as int + 26)
    else if '0' <= c <= '9' then Some(c as int - '0' as int + 52)
    else if c == '-' then Some(62)
    else if c == '_' then Some(63)
    else None
  }

  lemma DigitValue(v: Sextet)
    ensures Value(Digit(v)) == Some(v)
    ensures Digit(v) != '\n' && Digit(v) != '\r' && Digit(v) != ':' && Digit(v) != '&'
  {}

  // Three bytes are four groups of six bits.

  function First(a: Byte): Sextet { a / 4 }

  function Second(a: Byte, b: Byte): Sextet { a % 4 * 16 + b / 16 }

  function Third(b: Byte, c: Byte): Sextet { b % 16 * 4 + c / 64 }

  function Fourth(c: Byte): Sextet { c % 64 }

  function Byte0(p: Sextet, q: Sextet): Byte { var a: nat := p; a * 4 + q / 16 }

  function Byte1(q: Sextet, r: Sextet): Byte { var b: nat := q % 16; b * 16 + r / 4 }

  function Byte2(r: Sextet, s: Sextet): Byte { var c: nat := r % 4; c * 64 + s }

  lemma Regroup(a: Byte, b: Byte, c: Byte)
    ensures Byte0(First(a), Second(a, b)) == a
    ensures Byte1(Second(a, b), Third(b, c)) == b
    ensures Byte2(Third(b, c), Fourth(c)) == c
  {}

  function Encode(bs: seq<Byte>): string {
    if bs == [] then ""
    else if |bs| == 1 then
      [Digit(First(bs[0])), Digit(Second(bs[0], 0))]
    else if |bs| == 2 then
      [Digit(First(bs[0])), Digit(Second(bs[0], bs[1])), Digit(Third(bs[1], 0))]
    else
      [Digit(First(bs[0])), Digit(Second(bs[0], bs[1])), Digit(Third(bs[1], bs[2])), Digit(Fourth(bs[2]))]
      + Encode(bs[3..])
  }

  /** Line breaks are skipped. */
  function DropBreaks(s: string): string {
    if s == "" then ""
    else (if s[0] == '\n' || s[0] == '\r' then "" else [s[0]]) + DropBreaks(s[1..])
  }

  function Values(s: string): Option<seq<Sextet>> {
    if s == "" then Some([])
    else
      match (Value(s[0]), Values(s[1..]))
      case (Some(v), Some(vs)) => Some([v] + vs)
      case _ => None
  }

  /** The bits left over in the last digit are not looked at. */
  function Pack(vs: seq<Sextet>): Option<seq<Byte>> {
    if vs == [] then Some([])
    else if |vs| == 1 then None
    else if |vs| == 2 then Some([Byte0(vs[0], vs[1])])
    else if |vs| == 3 then Some([Byte0(vs[0], vs[1]), Byte1(vs[1], vs[2])])
    else
      match Pack(vs[4..])
      case Some(bs) => Some([Byte0(vs[0], vs[1]), Byte1(vs[1], vs[2]), Byte2(vs[2], vs[3])] + bs)
      case None => None
  }

  function Decode(s: string): Option<seq<Byte>> {
    match Values(DropBreaks(s))
    case Some(vs) => Pack(vs)
    case None => None
  }

  /** The sextets that Encode writes down. */
  function Unpack(bs: seq<Byte>): seq<Sextet> {
    if bs == [] then []
    else if |bs| == 1 then [First(bs[0]), Second(bs[0], 0)]
    else if |bs| == 2 then [First(bs[0]), Second(bs[0], bs[1]), Third(bs[1], 0)]
    else [First(bs[0]), Second(bs[0], bs[1]), Third(bs[1], bs[2]), Fourth(bs[2])] + Unpack(bs[3..])
  }

  lemma {:induction false} PackUnpack(bs: seq<Byte>)
    ensures Pack(Unpack(bs)) == Some(bs)
  {
    hide First, Second, Third, Fourth, Byte0, Byte1, Byte2;
    if |bs| == 1 {
      Regroup(bs[0], 0, 0);
      assert bs == [bs[0]];
    } else if |bs| == 2 {
      Regroup(bs[0], bs[1], 0);
      assert bs == [bs[0], bs[1]];
    } else if |bs| >= 3 {
      Regroup(bs[0], bs[1], bs[2]);
      PackUnpack(bs[3..]);
      assert Unpack(bs)[4..] == Unpack(bs[3..]);
      assert bs == [bs[0], bs[1], bs[2]] + bs[3..];
    }
  }

  function Digits(vs: seq<Sextet>): (r: string)
    ensures |r| == |vs|
  {
    if vs == [] then "" else [Digit(vs[0])] + Digits(vs[1..])
  }

  lemma {:induction false} DigitsOfConcat(a: seq<Sextet>, b: seq<Sextet>)
    ensures Digits(a + b) == Digits(a) + Digits(b)
  {
    if a == [] {
      assert a + b == b;
    } else {
      DigitsOfConcat(a[1..], b);
      assert (a + b)[1..] == a[1..] + b;
    }
  }

  lemma DigitsOfFour(a: Sextet, b: Sextet, c: Sextet, d: Sextet)
    ensures Digits([a, b, c, d]) == [Digit(a), Digit(b), Digit(c), Digit(d)]
    ensures Digits([a, b, c]) == [Digit(a), Digit(b), Digit(c)]
    ensures Digits([a, b]) == [Digit(a), Digit(b)]
  {
    hide Digit;
    var none: seq<Sextet> := [];
    DigitsCons(a, [b, c, d]);
    DigitsCons(b, [c, d]);
    DigitsCons(c, [d]);
    DigitsCons(d, none);
    DigitsCons(a, [b, c]);
    DigitsCons(b, [c]);
    DigitsCons(c, none);
    DigitsCons(a, [b]);
    DigitsCons(b, none);
  }

  lemma DigitsCons(v: Sextet, vs: seq<Sextet>)
    ensures Digits([v] + vs) == [Digit(v)] + Digits(vs)
  {
    assert ([v] + vs)[1..] == vs;
  }

  lemma {:induction false} EncodeIs(bs: seq<Byte>)
    ensures Encode(bs) == Digits(Unpack(bs))
  {
    hide Digit, First, Second, Third, Fourth;
    if |bs| == 1 {
      DigitsOfFour(First(bs[0]), Second(bs[0], 0), 0, 0);
    } else if |bs| == 2 {
      DigitsOfFour(First(bs[0]), Second(bs[0], bs[1]), Third(bs[1], 0), 0);
    } else if |bs| >= 3 {
      EncodeIs(bs[3..]);
      DigitsOfFour(First(bs[0]), Second(bs[0], bs[1]), Third(bs[1], bs[2]), Fourth(bs[2]));
      DigitsOfConcat(Unpack(bs)[..4], Unpack(bs[3..]));
      assert Unpack(bs) == Unpack(bs)[..4] + Unpack(bs[3..]);
    }
  }

  lemma {:induction false} DigitsRead(vs: seq<Sextet>)
    ensures DropBreaks(Digits(vs)) == Digits(vs) && Values(Digits(vs)) == Some(vs)
    ensures ':' !in Digits(vs) && '&' !in Digits(vs)
  {
    hide Digit, Value;
    if vs != [] {
      DigitsRead(vs[1..]);
      DigitValue(vs[0]);
      var s := Digits(vs);
      assert s[0] == Digit(vs[0]) && s[1..] == Digits(vs[1..]);
      assert DropBreaks(s) == [s[0]] + DropBreaks(s[1..]) == s;
      assert vs == [vs[0]] + vs[1..];
    }
  }

  lemma EncodeThree(a: Byte, b: Byte, c: Byte, rest: seq<Byte>)
    ensures Encode([a, b, c] + rest) ==
      [Digit(First(a)), Digit(Second(a, b)), Digit(Third(b, c)), Digit(Fourth(c))] + Encode(rest)
  {
    assert ([a, b, c] + rest)[3..] == rest;
  }

  /** A length that leaves two bytes over, and the end of the alphabet, on examples. */
  lemma KnownEncodings()
    ensures Encode([102, 111, 111, 98, 97]) == "Zm9vYmE"
    ensures Encode([251, 255, 191]) == "-_-_"
  {
    EncodesFooba();
    EncodesLastDigits();
  }

  lemma EncodesFooba()
    ensures Encode([102, 111, 111, 98, 97]) == "Zm9vYmE"
  {
    var tail: seq<Byte> := [98, 97];
    EncodeThree(102, 111, 111, tail);
    assert [102, 111, 111] + tail == [102, 111, 111, 98, 97];
    assert Encode(tail) == "YmE";
  }

  lemma EncodesLastDigits()
    ensures Encode([251, 255, 191]) == "-_-_"
  {
    var none: seq<Byte> := [];
    EncodeThree(251, 255, 191, none);
    assert [251, 255, 191] + none == [251, 255, 191];
    assert Encode(none) == "";
  }

  /** Decoding undoes encoding; and an encoding never holds a colon or an ampersand. */
  lemma DecodeEncode(bs: seq<Byte>)
    ensures Decode(Encode(bs)) == Some(bs) && ':' !in Encode(bs) && '&' !in Encode(bs)
  {
    EncodeIs(bs);
    DigitsRead(Unpack(bs));
    PackUnpack(bs);
  }
}
