/** Key derivation of `derive_master_secret`: the master secret and the key
    block (RFC 5246, sections 8.1 and 6.3), the order in which the key block
    is cut, and which half of it each role uses for which direction. */
module TlsKeys {
  import opened TlsTypes

  /** Size of the master secret, in bytes. */
  const MASTER_SECRET_LENGTH: nat := 48

  const MASTER_SECRET_LABEL: string := "master secret"
  const KEY_EXPANSION_LABEL: string := "key expansion"

  /** `get_bytes`: the first `len` bytes of the PRF stream. */
  function PrfBytes(stream: PrfStream, kind: PrfKind, key: Bytes, prfLabel: string, seed: Bytes, len: nat): (r: Bytes)
    ensures |r| == len
  {
    seq(len, i requires 0 <= i < len => stream(kind, key, prfLabel, seed, i))
  }

  /** Asking the PRF for fewer bytes gives a prefix of asking for more: the
      output is one stream, cut to length. */
  lemma PrfBytesPrefix(stream: PrfStream, kind: PrfKind, key: Bytes, prfLabel: string, seed: Bytes, n: nat, m: nat)
    requires n <= m
    ensures PrfBytes(stream, kind, key, prfLabel, seed, n) == PrfBytes(stream, kind, key, prfLabel, seed, m)[..n]
  {
  }

  /** The master secret: 48 PRF bytes keyed with the premaster secret, over
      "master secret" and the seed client_random + server_random. */
  function MasterSecret(stream: PrfStream, kind: PrfKind, premaster: Bytes, clientRandom: Bytes, serverRandom: Bytes): (m: Bytes)
    ensures |m| == MASTER_SECRET_LENGTH
  {
    PrfBytes(stream, kind, premaster, MASTER_SECRET_LABEL, clientRandom + serverRandom, MASTER_SECRET_LENGTH)
  }

  /** Per-direction sizes cut from the key block: MAC key, cipher key, IV. */
  datatype KeySizes = KeySizes(mac: nat, encr: nat, iv: nat)

  /** Two directions, each a MAC key, a cipher key and an IV. */
  function KeyBlockLength(z: KeySizes): nat {
    2 * (z.mac + z.encr + z.iv)
  }

  /** The key block: PRF bytes keyed with the master secret, over "key
      expansion" and the seed server_random + client_random (the randoms in
      the reverse of the master-secret order). */
  function KeyBlock(stream: PrfStream, kind: PrfKind, master: Bytes, clientRandom: Bytes, serverRandom: Bytes, z: KeySizes): (b: Bytes)
    ensures |b| == KeyBlockLength(z)
  {
    PrfBytes(stream, kind, master, KEY_EXPANSION_LABEL, serverRandom + clientRandom, KeyBlockLength(z))
  }

  /** The six pieces of a key block, named by the side that writes with them. */
  datatype KeySlices = KeySlices(
    clientMac: Bytes, serverMac: Bytes,
    clientKey: Bytes, serverKey: Bytes,
    clientIv: Bytes, serverIv: Bytes)

  /** Cuts the key block front to back: client MAC key, server MAC key,
      client cipher key, server cipher key, client IV, server IV. The pieces
      have the announced sizes, do not overlap and use the whole block. */
  function SliceKeyBlock(block: Bytes, z: KeySizes): (k: KeySlices)
    requires |block| == KeyBlockLength(z)
    ensures |k.clientMac| == |k.serverMac| == z.mac
    ensures |k.clientKey| == |k.serverKey| == z.encr
    ensures |k.clientIv| == |k.serverIv| == z.iv
    ensures k.clientMac + k.serverMac + k.clientKey + k.serverKey + k.clientIv + k.serverIv == block
  {
    var m, e, v := z.mac, z.encr, z.iv;
    var k := KeySlices(
      block[..m], block[m..2 * m],
      block[2 * m..2 * m + e], block[2 * m + e..2 * m + 2 * e],
      block[2 * m + 2 * e..2 * m + 2 * e + v], block[2 * m + 2 * e + v..]);
    assert k.clientMac + k.serverMac == block[..2 * m];
    assert k.clientMac + k.serverMac + k.clientKey + k.serverKey == block[..2 * m + 2 * e];
    assert k.clientMac + k.serverMac + k.clientKey + k.serverKey + k.clientIv == block[..2 * m + 2 * e + v];
    k
  }

  /** Cutting with a cursor that skips each piece once yields the same pieces. */
  lemma CursorSlices(block: Bytes, z: KeySizes)
    requires |block| == KeyBlockLength(z)
    ensures var k := SliceKeyBlock(block, z);
      var m, e, v := z.mac, z.encr, z.iv;
      && block[..m] == k.clientMac
      && block[m..][..m] == k.serverMac
      && block[m..][m..] == block[2 * m..]
      && block[2 * m..][..e] == k.clientKey
      && block[2 * m..][e..][..e] == k.serverKey
      && block[2 * m..][e..][e..] == block[2 * m + 2 * e..]
      && block[2 * m + 2 * e..][..v] == k.clientIv
      && block[2 * m + 2 * e..][v..][..v] == k.serverIv
  {
  }

  /** The material one side holds per direction. */
  datatype Directional = Directional(
    macIn: Bytes, macOut: Bytes,
    keyIn: Bytes, keyOut: Bytes,
    ivIn: Bytes, ivOut: Bytes)

  /** A server reads with what the client writes with and writes with the
      server pieces; a client does the reverse. */
  function AssignDirections(k: KeySlices, isServer: bool): Directional {
    if isServer then
      Directional(k.clientMac, k.serverMac, k.clientKey, k.serverKey, k.clientIv, k.serverIv)
    else
      Directional(k.serverMac, k.clientMac, k.serverKey, k.clientKey, k.serverIv, k.clientIv)
  }

  /** What a client sends with is what a server receives with, and the other
      way round, when both hold the same key block. */
  lemma PeersInterlock(k: KeySlices)
    ensures AssignDirections(k, false).macOut == AssignDirections(k, true).macIn
    ensures AssignDirections(k, false).macIn == AssignDirections(k, true).macOut
    ensures AssignDirections(k, false).keyOut == AssignDirections(k, true).keyIn
    ensures AssignDirections(k, false).keyIn == AssignDirections(k, true).keyOut
    ensures AssignDirections(k, false).ivOut == AssignDirections(k, true).ivIn
    ensures AssignDirections(k, false).ivIn == AssignDirections(k, true).ivOut
  {
  }

  /** Both sides' keys from the derivation inputs alone: a client and a
      server that agree on PRF, premaster secret, randoms and sizes hold
      mirrored material; the server receives with the client-write pieces. */
  lemma DerivationInterlocks(stream: PrfStream, kind: PrfKind, premaster: Bytes, clientRandom: Bytes, serverRandom: Bytes, z: KeySizes)
    ensures
      var block := KeyBlock(stream, kind, MasterSecret(stream, kind, premaster, clientRandom, serverRandom), clientRandom, serverRandom, z);
      var client := AssignDirections(SliceKeyBlock(block, z), false);
      var server := AssignDirections(SliceKeyBlock(block, z), true);
      && client.macOut == server.macIn == block[..z.mac]
      && client.macIn == server.macOut == block[z.mac..2 * z.mac]
      && client.keyOut == server.keyIn == block[2 * z.mac..2 * z.mac + z.encr]
      && client.keyIn == server.keyOut == block[2 * z.mac + z.encr..2 * z.mac + 2 * z.encr]
      && client.ivOut == server.ivIn == block[2 * z.mac + 2 * z.encr..2 * z.mac + 2 * z.encr + z.iv]
      && client.ivIn == server.ivOut == block[2 * z.mac + 2 * z.encr + z.iv..]
  {
  }
}
