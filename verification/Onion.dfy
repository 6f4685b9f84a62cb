/**
 The nested datagrams of src/onion.rs. Key agreement, key derivation and authenticated encryption are
 parameters, of which only the laws below are used; the fresh key and nonce of each layer are inputs.
*/
module Onion {
  import opened Words
  import opened Wrappers
  import opened Packet

  const LAYER_OVERHEAD := 32 + 24 + 16 + 4 + 2

  // What a layer adds to the datagram inside it: the layer itself and its outer header.
  const HOP_COST := LAYER_OVERHEAD + OUTER_HEADER_LEN

  datatype SocketAddr =
    | V4(a: u8, b: u8, c: u8, d: u8, port: u16)
    | V6(ip: bytes, port: u16)

  type Nonce = n: bytes | |n| == 24 witness seq(24, i => 0)

  datatype OnionHop = OnionHop(addr: SocketAddr, pk: bytes)

  // The ephemeral secret and nonce drawn for one layer.
  datatype Draw = Draw(secret: bytes, nonce: Nonce)

  datatype Peeled = Peeled(next: SocketAddr, payload: bytes)

  datatype Crypto = Crypto(
    pub: bytes -> bytes,
    dh: (bytes, bytes) -> bytes,
    kdf: bytes -> bytes,
    seal: (bytes, bytes, bytes, bytes) -> Option<bytes>,
    open: (bytes, bytes, bytes, bytes) -> Option<bytes>)
  {
    // Public keys have 32 bytes; both sides of a key agreement get the same secret; sealing adds a
    // 16-byte tag, never fails on anything of datagram size, and opening undoes it.
    ghost predicate Lawful() {
      && (forall s :: |pub(s)| == 32)
      && (forall s, t :: dh(s, pub(t)) == dh(t, pub(s)))
      && (forall k, n, a, p :: |p| <= MAX_DATAGRAM ==> seal(k, n, a, p).Some?)
      && (forall k, n, a, p :: seal(k, n, a, p).Some? ==>
            |seal(k, n, a, p).value| == |p| + 16 && open(k, n, a, seal(k, n, a, p).value) == Some(p))
    }
  }

  function WrapLayer(c: Crypto, pk: bytes, next: SocketAddr, payload: bytes, draw: Draw): Result<bytes, PacketError> {
    if next.V6? then Err(BadAddress)
    else
      var eph := c.pub(draw.secret);
      var key := c.kdf(c.dh(draw.secret, pk));
      var plain := [next.a, next.b, next.c, next.d] + Be16(next.port) + payload;
      match c.seal(key, draw.nonce, eph, plain)
      case None => Err(TooLarge)
      case Some(ct) => Ok(eph + draw.nonce + ct)
  }

  function PeelLayer(c: Crypto, secret: bytes, body: bytes): Result<Peeled, PacketError> {
    if |body| < LAYER_OVERHEAD then Err(Truncated)
    else
      var eph, nonce, ct := body[..32], body[32..56], body[56..];
      var key := c.kdf(c.dh(secret, eph));
      match c.open(key, nonce, eph, ct)
      case None => Err(BadType)
      case Some(plain) =>
        if |plain| < 6 then Err(Truncated)
        else Ok(Peeled(V4(plain[0], plain[1], plain[2], plain[3], FromBe16(plain[4..6])), plain[6..]))
  }

  // The layers of all hops around `inner`, the last hop's innermost.
  function WrapAll(c: Crypto, hops: seq<OnionHop>, dest: SocketAddr, inner: bytes, draws: seq<Draw>): Result<bytes, PacketError>
    requires |draws| == |hops|
  {
    if hops == [] then Ok(inner)
    else
      var n := |hops| - 1;
      match WrapLayer(c, hops[n].pk, dest, inner, draws[n])
      case Err(e) => Err(e)
      case Ok(body) =>
        match EncodeDatagram(PacketType.Onion, body)
        case Err(e) => Err(e)
        case Ok(d) => WrapAll(c, hops[..n], hops[n].addr, d, draws[..n])
  }

  method WrapRoute(c: Crypto, hops: seq<OnionHop>, dest: SocketAddr, inner: bytes, draws: seq<Draw>)
      returns (r: Result<bytes, PacketError>)
    requires |draws| == |hops|
    ensures r == if hops == [] then Err(BadType) else WrapAll(c, hops, dest, inner, draws)
  {
    hide WrapLayer, EncodeDatagram;
    if |hops| == 0 {
      return Err(BadType);
    }
    var payload, next, i := inner, dest, |hops|;
    assert hops[..i] == hops && draws[..i] == draws;
    while i > 0
      invariant 0 <= i <= |hops|
      invariant WrapAll(c, hops[..i], next, payload, draws[..i]) == WrapAll(c, hops, dest, inner, draws)
    {
      i := i - 1;
      assert hops[..i + 1][..i] == hops[..i] && draws[..i + 1][..i] == draws[..i];
      var body := WrapLayer(c, hops[i].pk, next, payload, draws[i]);
      if body.Err? {
        return Err(body.error);
      }
      var d := EncodeDatagram(PacketType.Onion, body.value);
      if d.Err? {
        return Err(d.error);
      }
      payload := d.value;
      next := hops[i].addr;
    }
    return Ok(payload);
  }

  // The hops in order each decode the header and peel their layer: the addresses they learn, and what
  // the last one is left with.
  function PeelAll(c: Crypto, secrets: seq<bytes>, wire: bytes): Result<(seq<SocketAddr>, bytes), PacketError> {
    if secrets == [] then Ok(([], wire))
    else
      var n := |secrets| - 1;
      match PeelAll(c, secrets[..n], wire)
      case Err(e) => Err(e)
      case Ok((nexts, d)) =>
        match DecodeOuter(d)
        case Err(e) => Err(e)
        case Ok((ty, _, body)) =>
          if ty != PacketType.Onion then Err(BadType)
          else
            match PeelLayer(c, secrets[n], body)
            case Err(e) => Err(e)
            case Ok(p) => Ok((nexts + [p.next], p.payload))
  }

  // Where each hop must forward to.
  function Nexts(hops: seq<OnionHop>, dest: SocketAddr): seq<SocketAddr> {
    if hops == [] then []
    else Nexts(hops[..|hops| - 1], hops[|hops| - 1].addr) + [dest]
  }

  lemma {:induction false} NextsAt(hops: seq<OnionHop>, dest: SocketAddr, i: nat)
    requires i < |hops|
    ensures |Nexts(hops, dest)| == |hops|
    ensures Nexts(hops, dest)[i] == if i + 1 < |hops| then hops[i + 1].addr else dest
  {
    var init, last := hops[..|hops| - 1], hops[|hops| - 1];
    if init != [] { NextsAt(init, last.addr, if i < |init| then i else 0); }
  }

  lemma LayerRoundTrip(c: Crypto, secret: bytes, next: SocketAddr, payload: bytes, draw: Draw)
    requires c.Lawful()
    ensures match WrapLayer(c, c.pub(secret), next, payload, draw)
            case Ok(body) =>
              && next.V4?
              && |body| == |payload| + LAYER_OVERHEAD
              && PeelLayer(c, secret, body) == Ok(Peeled(next, payload))
            case Err(e) => if next.V6? then e == BadAddress else e == TooLarge && |payload| + 6 > MAX_DATAGRAM
  {
    if next.V4? {
      var eph := c.pub(draw.secret);
      var key := c.kdf(c.dh(draw.secret, c.pub(secret)));
      var plain := [next.a, next.b, next.c, next.d] + Be16(next.port) + payload;
      var sealed := c.seal(key, draw.nonce, eph, plain);
      if sealed.Some? {
        var body := eph + draw.nonce + sealed.value;
        assert body[..32] == eph && body[32..56] == draw.nonce && body[56..] == sealed.value;
        assert c.dh(secret, eph) == c.dh(draw.secret, c.pub(secret));
        assert plain[4..6] == Be16(next.port) && plain[6..] == payload;
        Be16RoundTrip(next.port);
      }
    }
  }

  /**
   Peeling, exactly: a layer is accepted if and only if it has at least 78 bytes and its ciphertext opens,
   under the key agreed with the public key in front and with that key as associated data, to at least 6
   bytes: the next address, its port, and the payload. A layer that does not open is of a bad type, one too
   short is truncated.
  */
  lemma PeelExactly(c: Crypto, secret: bytes, body: bytes)
    ensures |body| < 78 ==> PeelLayer(c, secret, body) == Err(Truncated)
    ensures |body| >= 78 ==>
              var plain := c.open(c.kdf(c.dh(secret, body[..32])), body[32..56], body[..32], body[56..]);
              && (plain == None ==> PeelLayer(c, secret, body) == Err(BadType))
              && (plain.Some? && |plain.value| < 6 ==> PeelLayer(c, secret, body) == Err(Truncated))
              && (plain.Some? && |plain.value| >= 6 ==>
                    var p, r := plain.value, PeelLayer(c, secret, body);
                    && r.Ok? && r.value.next.V4? && r.value.payload == p[6..]
                    && p[..4] == [r.value.next.a, r.value.next.b, r.value.next.c, r.value.next.d]
                    && r.value.next.port == (p[4] as int) * 256 + p[5])
  {}

  // Wrapping, exactly: the fresh public key, the nonce, and the sealed address, port and payload.
  lemma WrapExactly(c: Crypto, pk: bytes, next: SocketAddr, payload: bytes, draw: Draw)
    ensures next.V6? ==> WrapLayer(c, pk, next, payload, draw) == Err(BadAddress)
    ensures next.V4? ==>
              var eph := c.pub(draw.secret);
              var plain := [next.a, next.b, next.c, next.d, next.port / 256, next.port % 256] + payload;
              var sealed := c.seal(c.kdf(c.dh(draw.secret, pk)), draw.nonce, eph, plain);
              WrapLayer(c, pk, next, payload, draw) ==
              if sealed == None then Err(TooLarge) else Ok(eph + draw.nonce + sealed.value)
  {
    if next.V4? {
      assert [next.a, next.b, next.c, next.d] + Be16(next.port) + payload
          == [next.a, next.b, next.c, next.d, next.port / 256, next.port % 256] + payload;
    }
  }

  // Every address a layer has to carry is IPv4: all but the first hop's, and the destination.
  ghost predicate Routable(hops: seq<OnionHop>, dest: SocketAddr) {
    dest.V4? && forall i :: 1 <= i < |hops| ==> hops[i].addr.V4?
  }

  lemma RoutableLast(hops: seq<OnionHop>, dest: SocketAddr)
    requires hops != []
    ensures Routable(hops, dest)
            <==> dest.V4? && (|hops| > 1 ==> Routable(hops[..|hops| - 1], hops[|hops| - 1].addr))
  {
    var n := |hops| - 1;
    if dest.V4? && n > 0 && Routable(hops[..n], hops[n].addr) {
      forall i | 1 <= i < |hops| ensures hops[i].addr.V4? {
        if i < n { assert hops[..n][i] == hops[i]; }
      }
    }
  }

  ghost predicate Matching(c: Crypto, hops: seq<OnionHop>, secrets: seq<bytes>) {
    |secrets| == |hops| && forall i :: 0 <= i < |hops| ==> hops[i].pk == c.pub(secrets[i])
  }

  /**
   Onion routes, exactly: for any number of hops, wrapping succeeds if and only if every carried address
   is IPv4 and the payload with 86 bytes a hop fits a datagram; the hops, peeling in order with their own
   keys, then learn exactly the address of the hop after them, the last one the destination, and are left
   with exactly the payload. With a single cause of failure, the error names it.
  */
  lemma {:induction false} RouteRoundTrip(c: Crypto, hops: seq<OnionHop>, secrets: seq<bytes>, dest: SocketAddr, inner: bytes, draws: seq<Draw>)
    requires c.Lawful() && Matching(c, hops, secrets) && |draws| == |hops| >= 1
    ensures WrapAll(c, hops, dest, inner, draws).Ok?
            <==> Routable(hops, dest) && |inner| + 86 * |hops| <= 1200
    ensures match WrapAll(c, hops, dest, inner, draws)
            case Ok(wire) =>
              && |wire| == |inner| + 86 * |hops|
              && PeelAll(c, secrets, wire) == Ok((Nexts(hops, dest), inner))
            case Err(e) =>
              && (e == BadAddress || e == TooLarge)
              && (e == BadAddress ==> !Routable(hops, dest))
              && (e == TooLarge ==> |inner| + 86 * |hops| > 1200)
  {
    hide WrapLayer, PeelLayer, EncodeDatagram, DecodeOuter, Routable;
    var n := |hops| - 1;
    var last := hops[n];
    RoutableLast(hops, dest);
    LayerRoundTrip(c, secrets[n], dest, inner, draws[n]);
    var layer := WrapLayer(c, last.pk, dest, inner, draws[n]);
    if layer.Ok? {
      DatagramRoundTrip(PacketType.Onion, layer.value);
      var dg := EncodeDatagram(PacketType.Onion, layer.value);
      if dg.Ok? && n > 0 {
        RouteRoundTrip(c, hops[..n], secrets[..n], last.addr, dg.value, draws[..n]);
      }
    }
  }

  // The laws are consistent: a scheme that seals by appending zeros has them.
  lemma LawsAreConsistent()
    ensures exists c: Crypto :: c.Lawful()
  {
    var zeros: seq<u8> := seq(16, i => 0);
    var c := Crypto(
      s => seq(32, i => 0),
      (s, p) => [],
      s => s,
      (k, n, a, p) => Some(p + zeros),
      (k, n, a, ct) => if |ct| >= 16 then Some(ct[..|ct| - 16]) else None);
    forall k, n, a, p ensures c.open(k, n, a, c.seal(k, n, a, p).value) == Some(p) {
      assert (p + zeros)[..|p|] == p;
    }
    assert c.Lawful();
  }
}
