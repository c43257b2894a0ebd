/**
 Picking the client address out of X-Forwarded-For: scanning commas backwards finds
 the same token as splitting the whole list.
 backend/internal/ratelimit/ratelimit.go
 */
module ForwardedFor {
  import opened Prelude
  import opened Text

  predicate Blank(c: char) {
    c == ' ' || c == '\t'
  }

  /** The n-th comma-separated token from the right, trimmed; empty if there are not that many. */
  function Token(s: string, n: int): string {
    var tokens := Split(s, ',');
    if 1 <= n <= |tokens| then Trim(tokens[|tokens| - n], Blank) else ""
  }

  lemma SplitAlone(b: string)
    requires ',' !in b
    ensures Split(b, ',') == [b]
  {
    assert IndexChar(b, ',').None?;
  }

  lemma SplitFirst(a: string) returns (head: string, tail: string)
    requires ',' in a
    ensures a == head + [','] + tail && ',' !in head && |tail| < |a|
    ensures Split(a, ',') == [head] + Split(tail, ',')
  {
    var i := IndexChar(a, ',').value;
    head, tail := a[..i], a[i + 1..];
  }

  /** The last comma starts the last token. */
  lemma {:induction false} SplitSnoc(a: string, b: string)
    requires ',' !in b
    ensures Split(a + [','] + b, ',') == Split(a, ',') + [b]
    decreases |a|
  {
    hide Split;
    SplitAlone(b);
    if ',' in a {
      var head, tail := SplitFirst(a);
      SplitSnoc(tail, b);
      SplitCons(head, tail + [','] + b, ',');
      assert a + [','] + b == head + [','] + (tail + [','] + b);
      assert [head] + (Split(tail, ',') + [b]) == Split(a, ',') + [b];
    } else {
      SplitAlone(a);
      SplitCons(a, b, ',');
    }
  }

  /** lastIndexComma: the last comma of s[:end], or -1. */
  method LastIndexComma(s: string, end: nat) returns (r: int)
    requires end <= |s|
    ensures -1 <= r < end
    ensures r >= 0 ==> s[r] == ','
    ensures ',' !in s[r + 1..end]
  {
    var i := end - 1;
    while i >= 0
      invariant -1 <= i < end
      invariant ',' !in s[i + 1..end]
    {
      if s[i] == ',' {
        return i;
      }
      assert s[i..end] == [s[i]] + s[i + 1..end];
      i := i - 1;
    }
    return -1;
  }

  /** trimSpace */
  method TrimSpace(s: string) returns (r: string)
    ensures r == Trim(s, Blank)
  {
    var start := 0;
    assert s[0..] == s;
    while start < |s| && Blank(s[start])
      invariant start <= |s| && TrimLeft(s[start..], Blank) == TrimLeft(s, Blank)
    {
      assert s[start..][1..] == s[start + 1..];
      start := start + 1;
    }
    assert TrimLeft(s, Blank) == s[start..];
    var end := |s|;
    assert s[start..end] == s[start..];
    while end > start && Blank(s[end - 1])
      invariant start <= end <= |s| && TrimRight(s[start..end], Blank) == TrimRight(s[start..], Blank)
    {
      assert s[start..end][..end - start - 1] == s[start..end - 1];
      end := end - 1;
    }
    return s[start..end];
  }

  /** nthFromRight */
  method NthFromRight(s: string, n: int) returns (r: string)
    ensures r == Token(s, n)
  {
    hide Split, Trim;
    ghost var tokens := Split(s, ',');
    var left, end := n, |s|;
    assert s[..|s|] == s;
    while left > 0
      invariant n <= 0 ==> left == n
      invariant n > 0 ==> 0 < left <= n && n - left < |tokens|
      invariant 0 <= end <= |s|
      invariant n > 0 ==> Split(s[..end], ',') == tokens[..|tokens| - (n - left)]
      decreases left
    {
      var i := LastIndexComma(s, end);
      var tok := TrimSpace(s[i + 1..end]);
      if n > 0 { TokenStep(s, tokens, n - left, i, end); }
      left := left - 1;
      if left == 0 {
        return tok;
      }
      if i < 0 {
        return "";
      }
      end := i;
    }
    return "";
  }

  /** What is left of a list once its last k elements are gone, one step on. */
  lemma DropOneMore(tokens: seq<string>, k: nat, rest: seq<string>, last: string)
    requires k <= |tokens| && tokens[..|tokens| - k] == rest + [last]
    ensures k < |tokens| && tokens[|tokens| - (k + 1)] == last && tokens[..|tokens| - (k + 1)] == rest
  {
    var front := tokens[..|tokens| - k];
    assert front[|rest|] == last && front[..|rest|] == rest;
  }

  /** One turn of the scan: the k + 1-st token from the right is found, and the rest of the list is what is
      left of the string. */
  lemma TokenStep(s: string, tokens: seq<string>, k: nat, i: int, end: nat)
    requires end <= |s| && -1 <= i < end && ',' !in s[i + 1..end] && (i >= 0 ==> s[i] == ',')
    requires k <= |tokens| && Split(s[..end], ',') == tokens[..|tokens| - k]
    ensures k < |tokens| && tokens[|tokens| - (k + 1)] == s[i + 1..end]
    ensures i < 0 ==> k + 1 == |tokens|
    ensures i >= 0 ==> Split(s[..i], ',') == tokens[..|tokens| - (k + 1)]
  {
    hide Split;
    LastToken(s, i, end);
    var last := s[i + 1..end];
    if i < 0 {
      assert [] + [last] == [last];
      DropOneMore(tokens, k, [], last);
    } else {
      DropOneMore(tokens, k, Split(s[..i], ','), last);
    }
  }

  /** What cutting at the last comma of s[..end] does to the list of tokens. */
  lemma LastToken(s: string, i: int, end: nat)
    requires end <= |s| && -1 <= i < end && ',' !in s[i + 1..end] && (i >= 0 ==> s[i] == ',')
    ensures i < 0 ==> Split(s[..end], ',') == [s[i + 1..end]]
    ensures i >= 0 ==> Split(s[..end], ',') == Split(s[..i], ',') + [s[i + 1..end]]
  {
    if i < 0 {
      assert s[..end] == s[i + 1..end];
    } else {
      assert s[..end] == s[..i] + [','] + s[i + 1..end];
      SplitSnoc(s[..i], s[i + 1..end]);
    }
  }

  /** Appending hops on the right, as trusted proxies do, moves the token by exactly that many places:
      whatever the client put on the left stays out of reach. */
  lemma {:induction false} ProxiesShift(client: string, hop: string, n: int)
    requires ',' !in hop && n >= 1
    ensures Token(client + [','] + hop, n) == if n == 1 then Trim(hop, Blank) else Token(client, n - 1)
  {
    hide Split, Trim;
    SplitSnoc(client, hop);
  }

  // ---- the peer address ----

  /** The host of net.SplitHostPort; None for an error. */
  function SplitHost(addr: string): Option<string> {
    match LastIndexChar(addr, ':')
    case None => None
    case Some(i) =>
      if addr[0] == '[' then
        match IndexChar(addr, ']')
        case None => None
        case Some(end) =>
          if end + 1 != i || '[' in addr[1..] || ']' in addr[end + 1..] then None else Some(addr[1..end])
      else if ':' in addr[..i] || '[' in addr || ']' in addr then None
      else Some(addr[..i])
  }

  function PeerHost(remoteAddr: string): string {
    match SplitHost(remoteAddr)
    case Some(host) => host
    case None => remoteAddr
  }

  predicate Plain(s: string) {
    ':' !in s && '[' !in s && ']' !in s
  }

  /** The port is dropped from "host:port" and from "[v6]:port", brackets included; an address without a port
      is used as it is. */
  lemma PeerHostForms(host: string, v6: string, port: string)
    requires Plain(host) && Plain(port) && '[' !in v6 && ']' !in v6
    ensures PeerHost(host + ":" + port) == host
    ensures PeerHost("[" + v6 + "]:" + port) == v6
    ensures PeerHost(host) == host
  {
    hide LastIndexChar, IndexChar;
    LastIndexAppend(host, port, ':');
    assert (host + ":" + port)[..|host|] == host;
    var addr, open := "[" + v6 + "]:" + port, "[" + v6;
    assert addr == (open + "]") + ":" + port;
    LastIndexAppend(open + "]", port, ':');
    assert addr == open + "]" + (":" + port);
    FirstIndex(open, ']', ":" + port);
    assert addr[1..] == v6 + "]:" + port;
    assert addr[|open|..] == "]:" + port;
    assert addr[|open|..][1..] == addr[|open| + 1..] == ":" + port;
    assert addr[1..|open|] == v6;
  }

  /** ClientIPHops. */
  method ClientIp(xff: string, realIp: string, remoteAddr: string, trustForwarded: bool, trustedHops: int)
    returns (ip: string)
    ensures !trustForwarded ==> ip == PeerHost(remoteAddr)
    ensures trustForwarded && xff != "" ==>
      var token := Token(xff, if trustedHops < 1 then 1 else trustedHops);
      ip == if token != "" then token else PeerHost(remoteAddr)
    ensures trustForwarded && xff == "" ==> ip == if realIp != "" then Trim(realIp, Blank) else PeerHost(remoteAddr)
  {
    if trustForwarded {
      var hops := trustedHops;
      if hops < 1 {
        hops := 1;
      }
      if xff != "" {
        var token := NthFromRight(xff, hops);
        if token != "" {
          return token;
        }
      } else if realIp != "" {
        ip := TrimSpace(realIp);
        return;
      }
    }
    var host := SplitHost(remoteAddr);
    if host.None? {
      return remoteAddr;
    }
    return host.value;
  }
}
