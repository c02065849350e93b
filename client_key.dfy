/**
 How the rate limiter names the bucket a request is counted in (index.js:10-18):
 the client address is the first comma-separated entry of the `x-forwarded-for`
 header when that header is present, otherwise the connection's peer address;
 the IPv6 loopback literal is rewritten to the IPv4 one; the key is the client
 address, a colon and the request path.
 */
module ClientKey {

  datatype Option<T> = None | Some(value: T)

  /** What the limiter reads of an incoming request. `remoteAddress` may be
      missing (a closed socket), in which case JavaScript interpolates it as
      the text "undefined". */
  datatype Request = Request(forwardedFor: Option<string>, remoteAddress: Option<string>, path: string)

  const Loopback6: string := "::1"
  const Loopback4: string := "127.0.0.1"

  /** `parts.join(sep)`. */
  function Join(parts: seq<string>, sep: char): string
    requires |parts| >= 1
  {
    if |parts| == 1 then parts[0] else parts[0] + [sep] + Join(parts[1..], sep)
  }

  /** JavaScript's `s.split(sep)` for a one-character separator: the pieces
      between separators, untrimmed, with empty pieces kept (so "" gives [""]). */
  function Split(s: string, sep: char): (parts: seq<string>)
    ensures |parts| >= 1
    ensures forall i :: 0 <= i < |parts| ==> sep !in parts[i]
    ensures Join(parts, sep) == s
  {
    if |s| == 0 then [""]
    else
      var rest := Split(s[1..], sep);
      if s[0] == sep then
        assert s == [sep] + Join(rest, sep);
        [""] + rest
      else
        JoinConsFirst(s[0], rest, sep);
        [[s[0]] + rest[0]] + rest[1..]
  }

  /** Prepending a character to the first piece prepends it to the joined text. */
  lemma JoinConsFirst(c: char, parts: seq<string>, sep: char)
    requires |parts| >= 1
    ensures Join([[c] + parts[0]] + parts[1..], sep) == [c] + Join(parts, sep)
  {
    var p := [[c] + parts[0]] + parts[1..];
    assert p[1..] == parts[1..];
  }

  /** Splitting undoes joining pieces that hold no separator. */
  lemma {:induction false} SplitJoin(parts: seq<string>, sep: char)
    requires |parts| >= 1
    requires forall i :: 0 <= i < |parts| ==> sep !in parts[i]
    ensures Split(Join(parts, sep), sep) == parts
  {
    if |parts| == 1 {
      assert Join(parts, sep) == parts[0] + [];
      SplitEmptyTail(parts[0], sep);
    } else {
      var tail := Join(parts[1..], sep);
      SplitJoin(parts[1..], sep);
      SplitThroughPiece(parts[0], tail, sep);
      assert [parts[0]] + parts[1..] == parts;
    }
  }

  /** A separator-free text splits into itself. */
  lemma SplitEmptyTail(piece: string, sep: char)
    requires sep !in piece
    ensures Split(piece, sep) == [piece]
  {
    var parts := Split(piece, sep);
    if |parts| > 1 {
      assert false;
    }
  }

  /** Used by SplitJoin: a separator-free piece followed by the separator becomes
      the first part of the split. */
  lemma {:induction false} SplitThroughPiece(piece: string, tail: string, sep: char)
    requires sep !in piece
    ensures Split(piece + [sep] + tail, sep) == [piece] + Split(tail, sep)
  {
    if |piece| == 0 {
      assert piece + [sep] + tail == [sep] + tail;
      assert ([sep] + tail)[1..] == tail;
    } else {
      var s := piece + [sep] + tail;
      assert s[1..] == piece[1..] + [sep] + tail;
      assert s[0] == piece[0];
      SplitThroughPiece(piece[1..], tail, sep);
      assert [piece[0]] + piece[1..] == piece;
    }
  }

  /** The first comma-separated entry of a forwarded-for header, untrimmed:
      the header's longest comma-free prefix, that is the whole header or the
      text before its first comma. */
  function FirstForwarded(header: string): (first: string)
    ensures first <= header
    ensures ',' !in first
    ensures |first| == |header| || header[|first|] == ','
  {
    var parts := Split(header, ',');
    assert |parts| > 1 ==> header == parts[0] + [','] + Join(parts[1..], ',');
    parts[0]
  }

  /** The only rewrite applied to the client address: the IPv6 loopback
      literal becomes the IPv4 one, every other text is kept, so no address
      that leaves it is "::1". */
  function Normalize(ip: string): (r: string)
    ensures r != Loopback6
    ensures ip != Loopback6 ==> r == ip
  {
    if ip == Loopback6 then Loopback4 else ip
  }

  /** The client address before normalisation: when the header is present it
      wins and the address is a comma-free prefix of it; otherwise the peer
      address, or "undefined" when there is none. */
  function RawClient(req: Request): (raw: string)
    ensures req.forwardedFor.Some? ==> raw <= req.forwardedFor.value && ',' !in raw
    ensures req.forwardedFor.None? && req.remoteAddress.Some? ==> raw == req.remoteAddress.value
    ensures req.forwardedFor.None? && req.remoteAddress.None? ==> raw == "undefined"
  {
    match req.forwardedFor
    case Some(header) => FirstForwarded(header)
    case None =>
      match req.remoteAddress
      case Some(peer) => peer
      case None => "undefined"
  }

  /** The client address the key is built from: never the IPv6 loopback. */
  function ClientIp(req: Request): (ip: string)
    ensures ip != Loopback6
    ensures RawClient(req) != Loopback6 ==> ip == RawClient(req)
  {
    Normalize(RawClient(req))
  }

  /** Which address the key is built from: a present header gives exactly its
      first comma-separated piece, and the IPv6 loopback literal, whether it
      came from the header or from the peer, becomes the IPv4 one. */
  lemma ClientIpParts(req: Request)
    ensures req.forwardedFor.Some? ==> RawClient(req) == FirstForwarded(req.forwardedFor.value)
    ensures Normalize(Loopback6) == Loopback4
    ensures RawClient(req) == Loopback6 ==> ClientIp(req) == Loopback4
  {
  }

  /** The store key `${clientIp}:${req.path}`: it ends with a colon and the
      path; DeriveKeyParts gives the client address in front. */
  function DeriveKey(req: Request): (key: string)
    ensures |key| > |req.path| && key[|key| - |req.path| - 1..] == ":" + req.path
  {
    ClientIp(req) + ":" + req.path
  }

  /** The key splits back, at the length of the client address, into that
      address, a colon and the path. */
  lemma DeriveKeyParts(req: Request)
    ensures var key, ip := DeriveKey(req), ClientIp(req);
      && |key| == |ip| + 1 + |req.path|
      && key[..|ip|] == ip
      && key[|ip|] == ':'
      && key[|ip| + 1..] == req.path
  {
  }

  /** Whenever the forwarded-for header is present, it alone decides the client
      part of the key, whatever the peer address; an empty header yields "". */
  lemma ForwardedPrecedence(req: Request, header: string, peer: Option<string>)
    requires req.forwardedFor == Some(header)
    ensures ClientIp(req) == ClientIp(Request(Some(header), peer, req.path))
    ensures header == "" ==> DeriveKey(req) == ":" + req.path
    ensures ',' !in header ==> ClientIp(req) == Normalize(header)
  {
    if ',' !in header {
      SplitEmptyTail(header, ',');
    }
  }

  /** Without the header the peer address is used, with "::1" read as "127.0.0.1":
      the two loopback forms share one key. */
  lemma LoopbackSharesKey(path: string)
    ensures DeriveKey(Request(None, Some(Loopback6), path))
         == DeriveKey(Request(None, Some(Loopback4), path))
         == Loopback4 + ":" + path
  {
  }

  /** Normalisation touches nothing but the exact loopback literal. */
  lemma NormalizeOnlyLoopback(ip: string)
    ensures Normalize(ip) != ip <==> ip == Loopback6
    ensures Normalize(Normalize(ip)) == Normalize(ip)
  {
  }

  /** In a key built from a '/'-free address and a '/'-led path, the first
      '/' sits right after the separating colon. */
  lemma FirstSlashAfterAddress(ip: string, path: string)
    requires '/' !in ip
    requires |path| > 0 && path[0] == '/'
    ensures var key := ip + ":" + path;
      && key[|ip| + 1] == '/'
      && forall i :: 0 <= i <= |ip| ==> key[i] != '/'
  {
    var key := ip + ":" + path;
    forall i | 0 <= i <= |ip| ensures key[i] != '/' {
      if i < |ip| {
        assert key[i] == ip[i];
      }
    }
  }

  /** When the paths start with '/' (as Express paths do) and the addresses
      hold no '/', keys are equal exactly when both the addresses and the paths
      are. */
  lemma KeyInjective(ip1: string, path1: string, ip2: string, path2: string)
    requires '/' !in ip1 && '/' !in ip2
    requires |path1| > 0 && path1[0] == '/' && |path2| > 0 && path2[0] == '/'
    ensures ip1 + ":" + path1 == ip2 + ":" + path2 <==> ip1 == ip2 && path1 == path2
  {
    var k1, k2 := ip1 + ":" + path1, ip2 + ":" + path2;
    FirstSlashAfterAddress(ip1, path1);
    FirstSlashAfterAddress(ip2, path2);
    if k1 == k2 {
      assert |ip1| == |ip2|;
      assert ip1 == k1[..|ip1|] == k2[..|ip2|] == ip2;
      assert path1 == k1[|ip1| + 1..] == k2[|ip2| + 1..] == path2;
    }
  }

  /** The key is plain concatenation, so without the conditions of KeyInjective
      a client that controls the forwarded-for header can land in another
      (address, path) bucket: header "10.0.0.1:/a" on path "/b" and header
      "10.0.0.1" on path "/a:/b" share the key "10.0.0.1:/a:/b". */
  lemma KeysCanCollide(ip: string, seg: string, path: string)
    requires ',' !in ip && ',' !in seg
    requires ip != Loopback6 && ip + ":" + seg != Loopback6
    ensures var spoofed := Request(Some(ip + ":" + seg), None, path);
            var plain := Request(Some(ip), None, seg + ":" + path);
      && DeriveKey(spoofed) == DeriveKey(plain)
      && ClientIp(spoofed) != ClientIp(plain)
  {
    var h := ip + ":" + seg;
    assert ',' !in h;
    SplitEmptyTail(h, ',');
    SplitEmptyTail(ip, ',');
    assert h + ":" + path == ip + ":" + (seg + ":" + path);
    assert |h| != |ip|;
  }
}
