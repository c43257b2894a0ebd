/** The synthetic commit ids of the in-memory store: a counter printed with "%040x". */
module Shas {
  const SHA_LEN: nat := 40

  function HexDigit(d: nat): char
    requires d < 16
  {
    "0123456789abcdef"[d]
  }

  /** The value of one hex digit, 0 for any other character. */
  function DigitValue(c: char): (d: nat)
    ensures d < 16
  {
    if '0' <= c <= '9' then c as int - '0' as int
    else if 'a' <= c <= 'f' then c as int - 'a' as int + 10
    else 0
  }

  function Hex(n: nat): (r: string)
    ensures r != []
  {
    if n < 16 then [HexDigit(n)] else Hex(n / 16) + [HexDigit(n % 16)]
  }

  function Zeros(n: nat): string {
    seq(n, _ => '0')
  }

  /** fmt.Sprintf("%040x", n). */
  function Sha(n: nat): (r: string)
    ensures |r| >= SHA_LEN
  {
    var h := Hex(n);
    if |h| >= SHA_LEN then h else Zeros(SHA_LEN - |h|) + h
  }

  /** The counter value a sha was printed from. */
  function Number(sha: string): nat {
    if sha == [] then 0
    else 16 * Number(sha[..|sha| - 1]) + DigitValue(sha[|sha| - 1])
  }

  lemma NumberSnoc(s: string, c: char)
    ensures Number(s + [c]) == 16 * Number(s) + DigitValue(c)
  {
    assert (s + [c])[..|s|] == s;
  }

  lemma DigitOfValue(d: nat)
    requires d < 16
    ensures DigitValue(HexDigit(d)) == d
  {}

  lemma {:induction false} NumberHex(n: nat)
    ensures Number(Hex(n)) == n
  {
    DigitOfValue(n % 16);
    if n < 16 {
      NumberSnoc([], HexDigit(n));
      assert [] + [HexDigit(n)] == Hex(n);
    } else {
      NumberHex(n / 16);
      NumberSnoc(Hex(n / 16), HexDigit(n % 16));
    }
  }

  lemma {:induction false} NumberPadded(k: nat, s: string)
    ensures Number(Zeros(k) + s) == Number(s)
  {
    if s != [] {
      NumberPadded(k, s[..|s| - 1]);
      assert (Zeros(k) + s)[..k + |s| - 1] == Zeros(k) + s[..|s| - 1];
    } else if k > 0 {
      NumberPadded(k - 1, s);
      assert (Zeros(k) + s)[..k - 1] == Zeros(k - 1) + s;
    }
  }

  /** Distinct counter values print as distinct shas. */
  lemma NumberSha(n: nat)
    ensures Number(Sha(n)) == n
  {
    NumberHex(n);
    if |Hex(n)| < SHA_LEN { NumberPadded(SHA_LEN - |Hex(n)|, Hex(n)); }
  }

  lemma ShasDiffer(a: nat, b: nat)
    requires a != b
    ensures Sha(a) != Sha(b)
  {
    NumberSha(a);
    NumberSha(b);
  }

  /** A sha handed out by a counter that now stands at `n`. */
  ghost predicate Issued(sha: string, n: nat) {
    exists k: nat :: 1 <= k <= n && sha == Sha(k)
  }

  /** The next sha is a new one. */
  lemma FreshSha(n: nat)
    ensures Issued(Sha(n + 1), n + 1) && !Issued(Sha(n + 1), n)
  {
    hide Sha, Number;
    NumberSha(n + 1);
    forall k: nat | 1 <= k <= n ensures Sha(k) != Sha(n + 1) { NumberSha(k); }
  }
}
