/** The TLS crypto engine object (`private_tls_crypto_t`): the suite list it
    builds on creation, the suite it selects, the PRF, MAC and cipher
    instances per direction, and the IVs it derives. */
module TlsCrypto {
  import opened TlsTypes
  import opened TlsCatalog
  import opened TlsSuiteList
  import opened TlsNegotiation
  import opened TlsKeys

  /** The arguments of one `tls->change_cipher` call: the direction and the
      primitives and IV the record layer is to use for it. */
  datatype CipherChange = CipherChange(inbound: bool, signer: Option<Signer>, crypter: Option<Crypter>, iv: Bytes)

  /** Capacity of the `supported[]` and `unique[]` stack buffers. */
  const SUITE_BUFFER_SIZE: nat := 64

  /** `buf[n++] = x` on one of the suite buffers. */
  method Push(buf: array<Suite>, n: nat, x: Suite) returns (n': nat)
    requires n < buf.Length
    modifies buf
    ensures n' == n + 1 && buf[..n'] == old(buf[..n]) + [x]
  {
    buf[n] := x;
    n' := n + 1;
  }

  /** The outer switch of `build_cipher_suite_list`: the NULL-cipher suite of `mac`. */
  method AppendNullSuites(buf: array<Suite>, n: nat, mac: IntegrityAlg) returns (n': nat)
    requires n + |NullSuites(mac)| <= buf.Length
    modifies buf
    ensures n' == n + |NullSuites(mac)| && buf[..n'] == old(buf[..n]) + NullSuites(mac)
  {
    n' := n;
    match mac {
      case AuthHmacSha1_160 =>
        n' := Push(buf, n', TLS_RSA_WITH_NULL_SHA);
      case AuthHmacSha2_256_256 =>
        n' := Push(buf, n', TLS_RSA_WITH_NULL_SHA256);
      case AuthHmacMd5_128 =>
        n' := Push(buf, n', TLS_RSA_WITH_NULL_MD5);
      case OtherIntegrity(_) =>
    }
  }

  /** The inner switch of `build_cipher_suite_list`: the suites `encr` adds
      with `mac`. */
  method AppendEncrSuites(buf: array<Suite>, n: nat, mac: IntegrityAlg, encr: EncryptionAlg) returns (n': nat)
    requires n + |EncrSuites(mac, encr)| <= buf.Length
    modifies buf
    ensures n' == n + |EncrSuites(mac, encr)| && buf[..n'] == old(buf[..n]) + EncrSuites(mac, encr)
  {
    n' := n;
    match encr {
      case EncrAesCbc =>
        match mac {
          case AuthHmacSha1_160 =>
            n' := Push(buf, n', TLS_RSA_WITH_AES_128_CBC_SHA);
            n' := Push(buf, n', TLS_RSA_WITH_AES_256_CBC_SHA);
          case AuthHmacSha2_256_256 =>
            n' := Push(buf, n', TLS_RSA_WITH_AES_128_CBC_SHA256);
            n' := Push(buf, n', TLS_RSA_WITH_AES_128_CBC_SHA256);
          case _ =>
        }
      case Encr3des =>
        if mac == AuthHmacSha1_160 {
          n' := Push(buf, n', TLS_RSA_WITH_3DES_EDE_CBC_SHA);
        }
      case _ =>
    }
  }

  /** The inner loop of `build_cipher_suite_list` for one MAC: its NULL
      suite, then the suites each cipher of `encrs` adds with it. */
  method CollectForMac(buf: array<Suite>, n: nat, mac: IntegrityAlg, encrs: seq<EncryptionAlg>) returns (n': nat)
    requires n + |SuitesForMac(mac, encrs)| <= buf.Length
    modifies buf
    ensures n' == n + |SuitesForMac(mac, encrs)|
    ensures buf[..n'] == old(buf[..n]) + SuitesForMac(mac, encrs)
  {
    ghost var done := buf[..n];
    SuitesForMacPrefix(mac, encrs, 0);
    assert encrs[..0] == [];
    n' := AppendNullSuites(buf, n, mac);
    var e := 0;
    while e < |encrs|
      invariant 0 <= e <= |encrs|
      invariant n' == n + |SuitesForMac(mac, encrs[..e])| <= n + |SuitesForMac(mac, encrs)|
      invariant buf[..n'] == done + SuitesForMac(mac, encrs[..e])
    {
      SuitesForMacStep(mac, encrs, e);
      n' := AppendEncrSuites(buf, n', mac, encrs[e]);
      e := e + 1;
    }
    assert encrs[..e] == encrs;
  }

  /** The outer loop of `build_cipher_suite_list`: every suite the MACs and
      ciphers enable, in enumeration order, repeats included. It fits the
      64-entry buffer since at most eight are produced. */
  method CollectSupported(macs: seq<IntegrityAlg>, encrs: seq<EncryptionAlg>, buf: array<Suite>) returns (count: nat)
    requires Distinct(macs) && Distinct(encrs)
    requires buf.Length == SUITE_BUFFER_SIZE
    modifies buf
    ensures count <= 8 && buf[..count] == RawSupported(macs, encrs)
  {
    count := 0;
    var m := 0;
    while m < |macs|
      invariant 0 <= m <= |macs|
      invariant count <= 8
      invariant buf[..count] == RawSupported(macs[..m], encrs)
    {
      RawSupportedStep(macs, encrs, m);
      count := CollectForMac(buf, count, macs[m], encrs);
      m := m + 1;
    }
    assert macs[..m] == macs;
  }

  /** The second half of `build_cipher_suite_list`: copies the first
      `count` suites of `supported` into `unique`, skipping any already
      copied. */
  method RemoveDuplicates(supported: array<Suite>, count: nat, unique: array<Suite>) returns (n: nat)
    requires count <= supported.Length && count <= unique.Length && supported != unique
    modifies unique
    ensures n <= count && unique[..n] == Dedup(supported[..count])
  {
    ghost var raw := supported[..count];
    n := 0;
    var i := 0;
    while i < count
      invariant 0 <= i <= count
      invariant supported[..count] == raw
      invariant n <= i
      invariant unique[..n] == Dedup(raw[..i])
    {
      var found := false;
      var j := 0;
      while j < n && !found
        invariant 0 <= j <= n
        invariant found <==> supported[i] in unique[..j]
      {
        if supported[i] == unique[j] {
          found := true;
        }
        j := j + 1;
      }
      assert raw[..i + 1][..i] == raw[..i];
      if !found {
        n := Push(unique, n, supported[i]);
      }
      i := i + 1;
    }
    assert raw[..i] == raw;
  }

  /** The cursor walk of `derive_master_secret` over the key block: each
      piece is the next bytes of the block, in the order client MAC key,
      server MAC key, client cipher key, server cipher key, client IV,
      server IV. */
  method CutKeyBlock(block: Bytes, z: KeySizes) returns (k: KeySlices)
    requires |block| == KeyBlockLength(z)
    ensures k == SliceKeyBlock(block, z)
  {
    CursorSlices(block, z);
    var rest := block;
    var clientMac := rest[..z.mac];
    rest := rest[z.mac..];
    var serverMac := rest[..z.mac];
    rest := rest[z.mac..];
    var clientKey := rest[..z.encr];
    rest := rest[z.encr..];
    var serverKey := rest[..z.encr];
    rest := rest[z.encr..];
    var clientIv := rest[..z.iv];
    rest := rest[z.iv..];
    var serverIv := rest[..z.iv];
    k := KeySlices(clientMac, serverMac, clientKey, serverKey, clientIv, serverIv);
  }

  class TlsCrypto {
    /** The algorithm registry the engine was created against. */
    const lib: CryptoLib
    /** `tls->is_server`: the role of this end. */
    const isServer: bool

    var suites: seq<Suite>
    var suiteCount: int
    var suite: Suite
    var prf: Option<TlsPrf>
    var signerIn: Option<Signer>
    var signerOut: Option<Signer>
    var crypterIn: Option<Crypter>
    var crypterOut: Option<Crypter>
    var ivIn: Bytes
    var ivOut: Bytes

    /** The suite list is the one built from the registry, and `suiteCount`
        is its length. */
    ghost predicate Valid()
      reads this
    {
      && Distinct(lib.macs) && Distinct(lib.encrs)
      && suites == BuiltSuites(lib.macs, lib.encrs)
      && suiteCount == |suites|
    }

    function HeldPrimitives(): Primitives
      reads this
    {
      Primitives(prf, signerIn, signerOut, crypterIn, crypterOut)
    }

    /** `tls_crypto_create`: no primitives yet, no suite selected, and the
        suite list built from the registry. The registry's enumerators list
        each algorithm once. */
    constructor (lib: CryptoLib, isServer: bool)
      requires Distinct(lib.macs) && Distinct(lib.encrs)
      ensures Valid()
      ensures this.lib == lib && this.isServer == isServer
      ensures suite == NO_SUITE && HeldPrimitives() == Primitives(None, None, None, None, None)
      ensures ivIn == [] && ivOut == []
    {
      this.lib := lib;
      this.isServer := isServer;
      suites, suiteCount, suite := [], 0, NO_SUITE;
      prf, signerIn, signerOut, crypterIn, crypterOut := None, None, None, None, None;
      ivIn, ivOut := [], [];
      new;
      BuildCipherSuiteList();
    }

    /** `build_cipher_suite_list`: appends the suites each enumerated MAC
        and cipher enable to a 64-entry buffer, then copies them, first
        occurrences only, into the suite list. */
    method BuildCipherSuiteList()
      requires Distinct(lib.macs) && Distinct(lib.encrs)
      modifies this
      ensures Valid()
      ensures suite == old(suite) && HeldPrimitives() == old(HeldPrimitives())
      ensures ivIn == old(ivIn) && ivOut == old(ivOut)
    {
      var supported := new Suite[SUITE_BUFFER_SIZE];
      var unique := new Suite[SUITE_BUFFER_SIZE];
      var count := CollectSupported(lib.macs, lib.encrs, supported);
      suiteCount := RemoveDuplicates(supported, count, unique);
      suites := unique[..suiteCount];
    }

    /** `get_cipher_suites`: the suite list and its length. The list holds
        no repeats, at most eight suites, and only catalog suites the
        registry can back. */
    function GetCipherSuites(): (r: (seq<Suite>, int))
      reads this
      requires Valid()
      ensures r.1 == |r.0| <= 8
      ensures Distinct(r.0)
      ensures forall x :: x in r.0 <==> Offered(x, lib.macs, lib.encrs)
      ensures forall x :: x in r.0 ==> FindSuite(x).Some?
    {
      BuiltSuitesSpec(lib.macs, lib.encrs);
      (suites, suiteCount)
    }

    /** `create_ciphers`: builds the PRF, both signers and, unless the suite
        is NULL-encrypted, both crypters for `s`; reports whether all could
        be built. */
    method CreateCiphers(s: Suite, version: nat) returns (ok: bool)
      modifies this
      ensures ok == TryCiphers(lib, version, s, old(HeldPrimitives())).ok
      ensures ok <==> Creatable(lib, version, s)
      ensures HeldPrimitives() == TryCiphers(lib, version, s, old(HeldPrimitives())).prims
      ensures suites == old(suites) && suiteCount == old(suiteCount) && suite == old(suite)
      ensures ivIn == old(ivIn) && ivOut == old(ivOut)
    {
      TryCiphersSpec(lib, version, s, HeldPrimitives());
      var algs := FindSuite(s);
      if algs.None? {
        return false;
      }
      var a := algs.value;
      if version < TLS_1_2 {
        prf := if lib.prf10 then Some(TlsPrf(Prf10, [])) else None;
      } else {
        prf := if lib.prf12(a.prf) then Some(TlsPrf(Prf12(a.prf), [])) else None;
      }
      if prf.None? {
        return false;
      }
      signerIn := NewSigner(lib, a.mac);
      signerOut := NewSigner(lib, a.mac);
      if signerIn.None? || signerOut.None? {
        return false;
      }
      if a.encr == EncrNull {
        crypterIn, crypterOut := None, None;
      } else {
        crypterIn := NewCrypter(lib, a.encr, a.encrSize);
        crypterOut := NewCrypter(lib, a.encr, a.encrSize);
        if crypterIn.None? || crypterOut.None? {
          return false;
        }
      }
      return true;
    }

    /** The inner loop of `select_cipher_suite` for one local suite `x`:
        walks the peer's list and calls `create_ciphers` on every copy of `x`
        it meets, stopping at the first call that succeeds. Succeeds exactly
        when the peer offers `x` and its primitives can be built. */
    method TryOffered(x: Suite, peer: seq<Suite>, version: nat) returns (ok: bool)
      modifies this
      ensures ok <==> x in peer && Creatable(lib, version, x)
      ensures ok ==> HeldPrimitives() == TryCiphers(lib, version, x, old(HeldPrimitives())).prims
      ensures !ok ==> HeldPrimitives() == AfterFailures(lib, version, Matches(x, peer), old(HeldPrimitives()))
      ensures suites == old(suites) && suiteCount == old(suiteCount) && suite == old(suite)
      ensures ivIn == old(ivIn) && ivOut == old(ivOut)
    {
      var j := 0;
      while j < |peer|
        invariant 0 <= j <= |peer|
        invariant suites == old(suites) && suiteCount == old(suiteCount) && suite == old(suite)
        invariant ivIn == old(ivIn) && ivOut == old(ivOut)
        invariant x in peer[..j] ==> !Creatable(lib, version, x)
        invariant HeldPrimitives() == AfterFailures(lib, version, Matches(x, peer[..j]), old(HeldPrimitives()))
      {
        MatchesStep(x, peer, j);
        assert peer[..j + 1] == peer[..j] + [peer[j]];
        if x == peer[j] {
          ghost var tried := Matches(x, peer[..j]);
          AfterFailuresStep(lib, version, tried, x, old(HeldPrimitives()));
          var created := CreateCiphers(x, version);
          if created {
            SuccessReplacesAll(lib, version, x, AfterFailures(lib, version, tried, old(HeldPrimitives())), old(HeldPrimitives()));
            return true;
          }
          assert Matches(x, peer[..j + 1]) == tried + [x];
        } else {
          assert Matches(x, peer[..j + 1]) == Matches(x, peer[..j]);
        }
        j := j + 1;
      }
      assert peer[..j] == peer;
      return false;
    }

    /** `select_cipher_suite`: walks the local list in local order and, for
        each, the peer's list; the first common suite whose primitives can
        be built is selected and returned. Returns NO_SUITE and keeps the
        selected suite when none can; the failed attempts still leave their
        traces in the primitive fields. */
    method SelectCipherSuite(peer: seq<Suite>, version: nat) returns (r: Suite)
      requires Valid()
      modifies this
      ensures Valid() && suites == old(suites)
      ensures ivIn == old(ivIn) && ivOut == old(ivOut)
      ensures FirstCreatable(lib, version, suites, peer) == if r == NO_SUITE then None else Some(r)
      ensures r != NO_SUITE ==> suite == r && HeldPrimitives() == TryCiphers(lib, version, r, old(HeldPrimitives())).prims
      ensures r == NO_SUITE ==>
        suite == old(suite) && HeldPrimitives() == AfterFailures(lib, version, Attempts(suites, peer), old(HeldPrimitives()))
    {
      ghost var local := suites;
      var i := 0;
      while i < suiteCount
        invariant 0 <= i <= suiteCount
        invariant suites == local && suiteCount == old(suiteCount) == |suites| && suite == old(suite)
        invariant ivIn == old(ivIn) && ivOut == old(ivOut)
        invariant forall k :: 0 <= k < i ==> !Acceptable(lib, version, peer, local[k])
        invariant HeldPrimitives() == AfterFailures(lib, version, Attempts(suites[..i], peer), old(HeldPrimitives()))
      {
        ghost var before := HeldPrimitives();
        var ok := TryOffered(suites[i], peer, version);
        if ok {
          FirstCreatableAt(lib, version, suites, peer, i);
          SuccessReplacesAll(lib, version, suites[i], before, old(HeldPrimitives()));
          suite := suites[i];
          return suite;
        }
        NoneAcceptableStep(lib, version, local, peer, i);
        AttemptsStep(suites, peer, i);
        AfterFailuresAppend(lib, version, Attempts(suites[..i], peer), Matches(suites[i], peer), old(HeldPrimitives()));
        i := i + 1;
      }
      assert suites[..i] == suites;
      return NO_SUITE;
    }

    /** The sizes `derive_master_secret` reads off the outbound primitives:
        the MAC key size; the cipher key size, zero without a crypter; the
        cipher block size as IV size, zero without a crypter and from TLS 1.2
        on, where IVs travel with each record. */
    function KeyMaterialSizes(version: nat): (z: KeySizes)
      reads this
      requires signerOut.Some?
      ensures z.mac == signerOut.value.keySize
      ensures crypterOut.None? ==> z.encr == 0 && z.iv == 0
      ensures crypterOut.Some? ==> z.encr == crypterOut.value.keySize
      ensures version >= TLS_1_2 ==> z.iv == 0
      ensures crypterOut.Some? && version < TLS_1_2 ==> z.iv == crypterOut.value.blockSize
    {
      match crypterOut
      case None => KeySizes(signerOut.value.keySize, 0, 0)
      case Some(c) => KeySizes(signerOut.value.keySize, c.keySize, if version < TLS_1_2 then c.blockSize else 0)
    }

    /** The key block this engine derives: the PRF of the selected kind,
        keyed with the master secret of `premaster`, expanded to the length
        the held primitives need. */
    ghost function DerivedKeyBlock(premaster: Bytes, clientRandom: Bytes, serverRandom: Bytes, version: nat): Bytes
      reads this
      requires prf.Some? && signerOut.Some?
    {
      var kind := prf.value.kind;
      KeyBlock(lib.prfStream, kind, MasterSecret(lib.prfStream, kind, premaster, clientRandom, serverRandom),
               clientRandom, serverRandom, KeyMaterialSizes(version))
    }

    /** The pieces of that key block in this role's directions. */
    ghost function DerivedKeys(premaster: Bytes, clientRandom: Bytes, serverRandom: Bytes, version: nat): Directional
      reads this
      requires prf.Some? && signerOut.Some?
    {
      AssignDirections(
        SliceKeyBlock(DerivedKeyBlock(premaster, clientRandom, serverRandom, version), KeyMaterialSizes(version)),
        isServer)
    }

    /** True when `derive_master_secret` keys the crypters: both exist. */
    predicate CiphersKeyed()
      reads this
    {
      crypterIn.Some? && crypterOut.Some?
    }

    /** `derive_master_secret`: derives the 48-byte master secret from the
        premaster secret and re-keys the PRF with it, expands the key block
        and hands each piece to the primitive of the direction this role
        uses it for. Cipher keys are set only when both crypters exist, IVs
        only then and when the IV size is not zero; anything not set keeps
        its value. */
    method DeriveMasterSecret(premaster: Bytes, clientRandom: Bytes, serverRandom: Bytes, version: nat)
      requires prf.Some? && signerIn.Some? && signerOut.Some?
      modifies this
      ensures prf == Some(TlsPrf(old(prf).value.kind,
                                 MasterSecret(lib.prfStream, old(prf).value.kind, premaster, clientRandom, serverRandom)))
      ensures signerIn == Some(old(signerIn).value.(key := old(DerivedKeys(premaster, clientRandom, serverRandom, version)).macIn))
      ensures signerOut == Some(old(signerOut).value.(key := old(DerivedKeys(premaster, clientRandom, serverRandom, version)).macOut))
      ensures crypterIn == if old(CiphersKeyed())
                           then Some(old(crypterIn).value.(key := old(DerivedKeys(premaster, clientRandom, serverRandom, version)).keyIn))
                           else old(crypterIn)
      ensures crypterOut == if old(CiphersKeyed())
                            then Some(old(crypterOut).value.(key := old(DerivedKeys(premaster, clientRandom, serverRandom, version)).keyOut))
                            else old(crypterOut)
      ensures ivIn == if old(CiphersKeyed()) && old(KeyMaterialSizes(version)).iv != 0
                      then old(DerivedKeys(premaster, clientRandom, serverRandom, version)).ivIn
                      else old(ivIn)
      ensures ivOut == if old(CiphersKeyed()) && old(KeyMaterialSizes(version)).iv != 0
                       then old(DerivedKeys(premaster, clientRandom, serverRandom, version)).ivOut
                       else old(ivOut)
      ensures suites == old(suites) && suiteCount == old(suiteCount) && suite == old(suite)
    {
      ghost var z := KeyMaterialSizes(version);
      ghost var full := DerivedKeyBlock(premaster, clientRandom, serverRandom, version);
      ghost var d := DerivedKeys(premaster, clientRandom, serverRandom, version);
      var kind := prf.value.kind;

      // derive master secret
      var seed := clientRandom + serverRandom;
      prf := Some(prf.value.(key := premaster));
      var master := PrfBytes(lib.prfStream, prf.value.kind, prf.value.key, MASTER_SECRET_LABEL, seed, MASTER_SECRET_LENGTH);
      prf := Some(prf.value.(key := master));

      // derive key block for key expansion
      var mks := signerOut.value.keySize;
      var eks, ivs := 0, 0;
      if crypterOut.Some? {
        eks := crypterOut.value.keySize;
        if version < TLS_1_2 {
          ivs := crypterOut.value.blockSize;
        }
      }
      seed := serverRandom + clientRandom;
      var block := PrfBytes(lib.prfStream, kind, master, KEY_EXPANSION_LABEL, seed, (mks + eks + ivs) * 2);
      assert z == KeySizes(mks, eks, ivs) && block == full;
      var k := CutKeyBlock(block, KeySizes(mks, eks, ivs));
      assert d == AssignDirections(k, isServer);

      // signer keys
      if isServer {
        signerIn := Some(signerIn.value.(key := k.clientMac));
        signerOut := Some(signerOut.value.(key := k.serverMac));
      } else {
        signerOut := Some(signerOut.value.(key := k.clientMac));
        signerIn := Some(signerIn.value.(key := k.serverMac));
      }

      // crypter keys, and IVs before TLS 1.2
      if crypterOut.Some? && crypterIn.Some? {
        if isServer {
          crypterIn := Some(crypterIn.value.(key := k.clientKey));
          crypterOut := Some(crypterOut.value.(key := k.serverKey));
        } else {
          crypterOut := Some(crypterOut.value.(key := k.clientKey));
          crypterIn := Some(crypterIn.value.(key := k.serverKey));
        }
        if ivs != 0 {
          if isServer {
            ivIn := k.clientIv;
            ivOut := k.serverIv;
          } else {
            ivOut := k.clientIv;
            ivIn := k.serverIv;
          }
        }
      }
    }

    /** `change_cipher`: the arguments handed to the record layer; inbound
        passes exactly the inbound signer, crypter and IV, outbound exactly
        the outbound ones. */
    function ChangeCipher(inbound: bool): (c: CipherChange)
      reads this
      ensures c.inbound == inbound
      ensures inbound ==> c.signer == signerIn && c.crypter == crypterIn && c.iv == ivIn
      ensures !inbound ==> c.signer == signerOut && c.crypter == crypterOut && c.iv == ivOut
    {
      if inbound then CipherChange(true, signerIn, crypterIn, ivIn)
      else CipherChange(false, signerOut, crypterOut, ivOut)
    }
  }
}
