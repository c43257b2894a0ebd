/** The decimal and UUID text forms that a preview grant is made of. */
module Fields {
  import opened Prelude
  import Shas
  import opened Base64

  const TWO_63: int := 0x8000_0000_0000_0000

  predicate Int64(n: int) {
    -TWO_63 <= n < TWO_63
  }

  // ---- strconv.FormatInt and strconv.ParseInt, base 10 ----

  function DecimalDigit(d: nat): char
    requires d < 10
  {
    ('0' as int + d) as char
  }

  function FormatNat(n: nat): (r: string)
    ensures r != ""
    ensures forall c :: c in r ==> '0' <= c <= '9'
  {
    if n < 10 then [DecimalDigit(n)] else FormatNat(n / 10) + [DecimalDigit(n % 10)]
  }

  function FormatInt(n: int): string {
    if n < 0 then "-" + FormatNat(-n) else FormatNat(n)
  }

  function ParseNat(s: string): Option<nat> {
    if s == "" then None
    else
      var last := s[|s| - 1];
      if !('0' <= last <= '9') then None
      else
        var d := last as int - '0' as int;
        if |s| == 1 then Some(d)
        else
          match ParseNat(s[..|s| - 1])
          case Some(n) => Some(10 * n + d)
          case None => None
  }

  /** Bit size 64: a value out of range is an error. */
  function ParseInt(s: string): Option<int> {
    if s == "" then None
    else
      var signed := s[0] == '-' || s[0] == '+';
      match ParseNat(if signed then s[1..] else s)
      case None => None
      case Some(n) =>
        var v: int := if s[0] == '-' then -(n as int) else n;
        if Int64(v) then Some(v) else None
  }

  lemma {:induction false} ParseFormatNat(n: nat)
    ensures ParseNat(FormatNat(n)) == Some(n)
  {
    if n >= 10 {
      ParseFormatNat(n / 10);
      var s := FormatNat(n);
      assert s[..|s| - 1] == FormatNat(n / 10);
    }
  }

  lemma ParseFormatInt(n: int)
    ensures ParseInt(FormatInt(n)) == if Int64(n) then Some(n) else None
    ensures ':' !in FormatInt(n) && '&' !in FormatInt(n)
  {
    hide FormatNat, ParseNat;
    var digits := FormatNat(if n < 0 then -n else n);
    ParseFormatNat(if n < 0 then -n else n);
    assert digits[0] in digits;
    if n < 0 {
      assert ("-" + digits)[1..] == digits;
      assert forall c :: c in "-" + digits ==> c == '-' || c in digits;
    }
  }

  // ---- uuid.UUID: String and Parse ----

  type Uuid = u: seq<Byte> | |u| == 16 witness [0, 0, 0, 0, 0, 0, 0, 0, 0, 0, 0, 0, 0, 0, 0, 0]

  function HexPairs(bs: seq<Byte>): (r: string)
    ensures |r| == 2 * |bs|
  {
    if bs == [] then "" else [Shas.HexDigit(bs[0] / 16), Shas.HexDigit(bs[0] % 16)] + HexPairs(bs[1..])
  }

  function FormatUuid(u: Uuid): string {
    var h := HexPairs(u);
    h[..8] + "-" + h[8..12] + "-" + h[12..16] + "-" + h[16..20] + "-" + h[20..]
  }

  function HexValue(c: char): Option<nat> {
    if '0' <= c <= '9' then Some(c as int - '0' as int)
    else if 'a' <= c <= 'f' then Some(c as int - 'a' as int + 10)
    else if 'A' <= c <= 'F' then Some(c as int - 'A' as int + 10)
    else None
  }

  function ReadPairs(s: string): (r: Option<seq<Byte>>)
    ensures r.Some? ==> 2 * |r.value| == |s|
  {
    if s == "" then Some([])
    else if |s| == 1 then None
    else
      match (HexValue(s[0]), HexValue(s[1]), ReadPairs(s[2..]))
      case (Some(a), Some(b), Some(rest)) => Some([HexByte(a, b)] + rest)
      case _ => None
  }

  function HexByte(a: nat, b: nat): Byte {
    (16 * a + b) % 256
  }

  /** The 36-character form, in either letter case. */
  function ParseUuid(s: string): Option<Uuid> {
    if |s| != 36 || s[8] != '-' || s[13] != '-' || s[18] != '-' || s[23] != '-' then None
    else
      match ReadPairs(s[..8] + s[9..13] + s[14..18] + s[19..23] + s[24..])
      case Some(bs) => Some(bs)
      case None => None
  }

  lemma HexDigitReads(d: nat)
    requires d < 16
    ensures HexValue(Shas.HexDigit(d)) == Some(d)
    ensures Shas.HexDigit(d) != ':' && Shas.HexDigit(d) != '&' && Shas.HexDigit(d) != '-'
  {}

  lemma HexByteOf(b: Byte)
    ensures HexByte(b / 16, b % 16) == b
  {}

  lemma {:induction false} ReadHexPairs(bs: seq<Byte>)
    ensures ReadPairs(HexPairs(bs)) == Some(bs)
    ensures ':' !in HexPairs(bs) && '&' !in HexPairs(bs) && '-' !in HexPairs(bs)
  {
    hide HexValue, Shas.HexDigit, HexByte;
    if bs != [] {
      var s := HexPairs(bs);
      HexDigitReads(bs[0] / 16);
      HexDigitReads(bs[0] % 16);
      ReadHexPairs(bs[1..]);
      assert s[2..] == HexPairs(bs[1..]);
      HexByteOf(bs[0]);
      assert bs == [bs[0]] + bs[1..];
    }
  }

  lemma ParseFormatUuid(u: Uuid)
    ensures ParseUuid(FormatUuid(u)) == Some(u)
    ensures
      var s := FormatUuid(u);
      |s| == 36 && s[8] == s[13] == s[18] == s[23] == '-' && '-' !in HexPairs(u) &&
      s[..8] + s[9..13] + s[14..18] + s[19..23] + s[24..] == HexPairs(u)
    ensures ':' !in FormatUuid(u) && '&' !in FormatUuid(u)
  {
    hide ReadPairs, HexPairs;
    var h, s := HexPairs(u), FormatUuid(u);
    ReadHexPairs(u);
    assert |s| == 36 && s[8] == s[13] == s[18] == s[23] == '-';
    assert s[..8] + s[9..13] + s[14..18] + s[19..23] + s[24..] == h by {
      assert s[..8] == h[..8] && s[9..13] == h[8..12] && s[14..18] == h[12..16];
      assert s[19..23] == h[16..20] && s[24..] == h[20..];
    }
    assert forall c :: c in s ==> c in h || c == '-';
  }
}
