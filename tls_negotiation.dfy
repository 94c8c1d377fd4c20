/** What `create_ciphers` and `select_cipher_suite` decide, as functions over
    the primitive instances the engine holds. */
module TlsNegotiation {
  import opened TlsTypes
  import opened TlsCatalog

  /** A TLS PRF instance and the key last given to it. */
  datatype TlsPrf = TlsPrf(kind: PrfKind, key: Bytes)

  /** A MAC instance: its algorithm, the key size it reports, its key. */
  datatype Signer = Signer(alg: IntegrityAlg, keySize: nat, key: Bytes)

  /** A block cipher instance: algorithm and requested key size, the key and
      block sizes it reports, its key. */
  datatype Crypter = Crypter(alg: EncryptionAlg, size: nat, keySize: nat, blockSize: nat, key: Bytes)

  /** The primitive fields of the engine; None is a NULL pointer. */
  datatype Primitives = Primitives(
    prf: Option<TlsPrf>,
    signerIn: Option<Signer>,
    signerOut: Option<Signer>,
    crypterIn: Option<Crypter>,
    crypterOut: Option<Crypter>)

  /** The outcome of one `create_ciphers` call: its verdict and the fields it
      leaves behind (a failed call may already have replaced some of them). */
  datatype Attempt = Attempt(ok: bool, prims: Primitives)

  /** `tls_prf_create_10` before TLS 1.2, `tls_prf_create_12` over the suite's PRF from then on. */
  function NewPrf(lib: CryptoLib, version: nat, algs: SuiteAlgs): Option<TlsPrf> {
    if version < TLS_1_2 then
      (if lib.prf10 then Some(TlsPrf(Prf10, [])) else None)
    else
      (if lib.prf12(algs.prf) then Some(TlsPrf(Prf12(algs.prf), [])) else None)
  }

  function NewSigner(lib: CryptoLib, mac: IntegrityAlg): Option<Signer> {
    match lib.signerKeySize(mac)
    case None => None
    case Some(k) => Some(Signer(mac, k, []))
  }

  function NewCrypter(lib: CryptoLib, encr: EncryptionAlg, size: nat): Option<Crypter> {
    match lib.crypterSizes(encr, size)
    case None => None
    case Some(z) => Some(Crypter(encr, size, z.keySize, z.blockSize, []))
  }

  /** Reference definition: the suite is in the catalog, the PRF the
      protocol version calls for can be built, the suite's MAC can be built,
      and its cipher is NULL or can be built at the suite's key size. */
  predicate Creatable(lib: CryptoLib, version: nat, suite: Suite) {
    match FindSuite(suite)
    case None => false
    case Some(a) =>
      && (if version < TLS_1_2 then lib.prf10 else lib.prf12(a.prf))
      && lib.signerKeySize(a.mac).Some?
      && (a.encr == EncrNull || lib.crypterSizes(a.encr, a.encrSize).Some?)
  }

  /** `create_ciphers` on the fields `p`, step by step as the source does it:
      an unknown suite changes nothing; otherwise the PRF is replaced first,
      then both signers, then both crypters, and the call stops at the first
      primitive that cannot be built. */
  function TryCiphers(lib: CryptoLib, version: nat, suite: Suite, p: Primitives): Attempt
  {
    match FindSuite(suite)
    case None => Attempt(false, p)
    case Some(algs) =>
      var prf := NewPrf(lib, version, algs);
      if prf.None? then Attempt(false, p.(prf := None))
      else
        var signer := NewSigner(lib, algs.mac);
        if signer.None? then Attempt(false, p.(prf := prf, signerIn := None, signerOut := None))
        else if algs.encr == EncrNull then Attempt(true, Primitives(prf, signer, signer, None, None))
        else
          var crypter := NewCrypter(lib, algs.encr, algs.encrSize);
          Attempt(crypter.Some?, Primitives(prf, signer, signer, crypter, crypter))
  }

  /** `create_ciphers` succeeds exactly for the creatable suites; it fails
      without touching anything for a suite outside the catalog; on success
      it holds the PRF the version calls for (TLS 1.0 PRF below TLS 1.2, the
      suite's PRF from then on), a signer of the suite's MAC per direction,
      and no crypters for a NULL suite, a crypter of the suite's cipher and
      key size per direction otherwise. */
  lemma TryCiphersSpec(lib: CryptoLib, version: nat, suite: Suite, p: Primitives)
    ensures var a := TryCiphers(lib, version, suite, p);
      && (a.ok <==> Creatable(lib, version, suite))
      && (FindSuite(suite).None? ==> !a.ok && a.prims == p)
      && (a.ok ==>
        var algs := FindSuite(suite).value;
        && a.prims.prf.Some?
        && a.prims.prf.value.kind == (if version < TLS_1_2 then Prf10 else Prf12(algs.prf))
        && a.prims.signerIn.Some? && a.prims.signerOut == a.prims.signerIn
        && a.prims.signerIn.value.alg == algs.mac
        && a.prims.crypterOut == a.prims.crypterIn
        && (a.prims.crypterIn.None? <==> algs.encr == EncrNull)
        && (a.prims.crypterIn.Some? ==>
              a.prims.crypterIn.value.alg == algs.encr && a.prims.crypterIn.value.size == algs.encrSize))
  {
  }

  /** A successful `create_ciphers` replaces every primitive, so what it
      leaves does not depend on what was there before. */
  lemma SuccessReplacesAll(lib: CryptoLib, version: nat, suite: Suite, p: Primitives, q: Primitives)
    requires TryCiphers(lib, version, suite, p).ok
    ensures TryCiphers(lib, version, suite, q).ok
    ensures TryCiphers(lib, version, suite, p).prims == TryCiphers(lib, version, suite, q).prims
  {
  }

  /** A local suite the selection may take: the peer offers it and its
      primitives can be built. */
  predicate Acceptable(lib: CryptoLib, version: nat, peer: seq<Suite>, s: Suite) {
    s in peer && Creatable(lib, version, s)
  }

  /** Server-side choice: the first suite in LOCAL order that the peer also
      offers and whose primitives can be built; None when there is none. */
  function FirstCreatable(lib: CryptoLib, version: nat, local: seq<Suite>, peer: seq<Suite>): (r: Option<Suite>)
    ensures r.None? <==> forall i :: 0 <= i < |local| ==> !Acceptable(lib, version, peer, local[i])
    ensures r.Some? ==>
      exists i :: 0 <= i < |local| && local[i] == r.value && Acceptable(lib, version, peer, local[i])
                && forall k :: 0 <= k < i ==> !Acceptable(lib, version, peer, local[k])
  {
    if |local| == 0 then None
    else if Acceptable(lib, version, peer, local[0]) then Some(local[0])
    else
      var r := FirstCreatable(lib, version, local[1..], peer);
      assert forall i :: 1 <= i < |local| ==> local[i] == local[1..][i - 1];
      r
  }

  /** The choice is fixed by local order: the first acceptable local suite is
      the one chosen, however the peer orders its list. */
  lemma {:induction false} FirstCreatableAt(lib: CryptoLib, version: nat, local: seq<Suite>, peer: seq<Suite>, i: nat)
    requires i < |local| && Acceptable(lib, version, peer, local[i])
    requires forall k :: 0 <= k < i ==> !Acceptable(lib, version, peer, local[k])
    ensures FirstCreatable(lib, version, local, peer) == Some(local[i])
  {
    if i > 0 {
      assert local[1..][i - 1] == local[i];
      FirstCreatableAt(lib, version, local[1..], peer, i - 1);
    }
  }

  /** No suite of `local` before `i + 1` is acceptable when none before `i`
      is and the one at `i` is not. */
  lemma NoneAcceptableStep(lib: CryptoLib, version: nat, local: seq<Suite>, peer: seq<Suite>, i: nat)
    requires i < |local|
    requires forall k :: 0 <= k < i ==> !Acceptable(lib, version, peer, local[k])
    requires !(local[i] in peer && Creatable(lib, version, local[i]))
    ensures forall k :: 0 <= k < i + 1 ==> !Acceptable(lib, version, peer, local[k])
  {
  }

  /** The copies of `x` the inner loop meets while walking `peer`: one
      `create_ciphers` call per copy. */
  function Matches(x: Suite, peer: seq<Suite>): seq<Suite> {
    if |peer| == 0 then []
    else Matches(x, peer[..|peer| - 1]) + (if peer[|peer| - 1] == x then [x] else [])
  }

  /** Every `create_ciphers` call the nested loops make over `local` and
      `peer`, in order, when none of them succeeds. */
  function Attempts(local: seq<Suite>, peer: seq<Suite>): seq<Suite> {
    if |local| == 0 then []
    else Attempts(local[..|local| - 1], peer) + Matches(local[|local| - 1], peer)
  }

  /** The fields left by a run of failing `create_ciphers` calls. */
  function AfterFailures(lib: CryptoLib, version: nat, tried: seq<Suite>, p: Primitives): Primitives {
    if |tried| == 0 then p
    else TryCiphers(lib, version, tried[|tried| - 1], AfterFailures(lib, version, tried[..|tried| - 1], p)).prims
  }

  lemma {:induction false} MatchesAbsent(x: Suite, peer: seq<Suite>)
    requires x !in peer
    ensures Matches(x, peer) == []
  {
    if |peer| > 0 {
      assert x !in peer[..|peer| - 1];
      MatchesAbsent(x, peer[..|peer| - 1]);
    }
  }

  /** When no local suite is offered by the peer, `create_ciphers` is never
      called and the primitives stay as they were. */
  lemma {:induction false} NoCommonSuiteBuildsNothing(lib: CryptoLib, version: nat, local: seq<Suite>, peer: seq<Suite>, p: Primitives)
    requires forall i :: 0 <= i < |local| ==> local[i] !in peer
    ensures Attempts(local, peer) == []
    ensures AfterFailures(lib, version, Attempts(local, peer), p) == p
  {
    if |local| > 0 {
      var q := local[..|local| - 1];
      assert forall i :: 0 <= i < |q| ==> q[i] == local[i];
      NoCommonSuiteBuildsNothing(lib, version, q, peer, p);
      MatchesAbsent(local[|local| - 1], peer);
    }
  }

  /** One more failing call extends the run by one `create_ciphers` step. */
  lemma AfterFailuresStep(lib: CryptoLib, version: nat, tried: seq<Suite>, x: Suite, p: Primitives)
    ensures AfterFailures(lib, version, tried + [x], p) ==
      TryCiphers(lib, version, x, AfterFailures(lib, version, tried, p)).prims
  {
    assert (tried + [x])[..|tried|] == tried;
  }

  /** Two runs of failing calls in a row leave what the joined run leaves. */
  lemma {:induction false} AfterFailuresAppend(lib: CryptoLib, version: nat, first: seq<Suite>, next: seq<Suite>, p: Primitives)
    ensures AfterFailures(lib, version, first + next, p) ==
      AfterFailures(lib, version, next, AfterFailures(lib, version, first, p))
  {
    if |next| == 0 {
      assert first + next == first;
    } else {
      var init := next[..|next| - 1];
      assert (first + next)[..|first + next| - 1] == first + init;
      AfterFailuresAppend(lib, version, first, init, p);
    }
  }

  lemma MatchesStep(x: Suite, peer: seq<Suite>, j: nat)
    requires j < |peer|
    ensures Matches(x, peer[..j + 1]) == Matches(x, peer[..j]) + (if peer[j] == x then [x] else [])
  {
    assert peer[..j + 1][..j] == peer[..j];
  }

  lemma AttemptsStep(local: seq<Suite>, peer: seq<Suite>, i: nat)
    requires i < |local|
    ensures Attempts(local[..i + 1], peer) == Attempts(local[..i], peer) + Matches(local[i], peer)
  {
    assert local[..i + 1][..i] == local[..i];
  }
}
