/** What `build_cipher_suite_list` computes, as functions: the raw list the
    nested registry loops append to `supported[]`, the first-seen
    de-duplication that fills `unique[]`, and what is proved about both. */
module TlsSuiteList {
  import opened TlsTypes
  import opened TlsCatalog

  /** The NULL-encryption suite a MAC enables on its own (outer switch). */
  function NullSuites(mac: IntegrityAlg): seq<Suite> {
    match mac
    case AuthHmacSha1_160 => [TLS_RSA_WITH_NULL_SHA]
    case AuthHmacSha2_256_256 => [TLS_RSA_WITH_NULL_SHA256]
    case AuthHmacMd5_128 => [TLS_RSA_WITH_NULL_MD5]
    case OtherIntegrity(_) => []
  }

  /** The suites one encryption algorithm adds together with a MAC (inner
      switch). The SHA-256 branch appends AES_128_CBC_SHA256 twice, as the
      source does. */
  function EncrSuites(mac: IntegrityAlg, encr: EncryptionAlg): seq<Suite> {
    match encr
    case EncrAesCbc =>
      (match mac
       case AuthHmacSha1_160 => [TLS_RSA_WITH_AES_128_CBC_SHA, TLS_RSA_WITH_AES_256_CBC_SHA]
       case AuthHmacSha2_256_256 => [TLS_RSA_WITH_AES_128_CBC_SHA256, TLS_RSA_WITH_AES_128_CBC_SHA256]
       case _ => [])
    case Encr3des =>
      if mac == AuthHmacSha1_160 then [TLS_RSA_WITH_3DES_EDE_CBC_SHA] else []
    case _ => []
  }

  /** What one pass of the outer loop appends for `mac`, after the inner loop
      has seen `encrs`. */
  function SuitesForMac(mac: IntegrityAlg, encrs: seq<EncryptionAlg>): seq<Suite> {
    if |encrs| == 0 then NullSuites(mac)
    else SuitesForMac(mac, encrs[..|encrs| - 1]) + EncrSuites(mac, encrs[|encrs| - 1])
  }

  /** The raw `supported[]` list after the outer loop has seen `macs`. */
  function RawSupported(macs: seq<IntegrityAlg>, encrs: seq<EncryptionAlg>): seq<Suite> {
    if |macs| == 0 then []
    else RawSupported(macs[..|macs| - 1], encrs) + SuitesForMac(macs[|macs| - 1], encrs)
  }

  /** Reference definition of the offered suites, from the catalog alone: a
      catalog suite whose MAC the registry has and whose encryption is NULL
      or one the registry has. */
  predicate Offered(x: Suite, macs: seq<IntegrityAlg>, encrs: seq<EncryptionAlg>) {
    match FindSuite(x)
    case None => false
    case Some(a) => a.mac in macs && (a.encr == EncrNull || a.encr in encrs)
  }

  lemma NullSuitesAreCatalogRows(mac: IntegrityAlg, x: Suite)
    ensures x in NullSuites(mac) <==>
      FindSuite(x).Some? && FindSuite(x).value.mac == mac && FindSuite(x).value.encr == EncrNull
  {
    FindSuiteByCode(x);
  }

  lemma EncrSuitesAreCatalogRows(mac: IntegrityAlg, e: EncryptionAlg, x: Suite)
    ensures x in EncrSuites(mac, e) <==>
      e != EncrNull && FindSuite(x).Some? && FindSuite(x).value.mac == mac && FindSuite(x).value.encr == e
  {
    FindSuiteByCode(x);
  }

  lemma {:induction false} SuitesForMacMembers(mac: IntegrityAlg, encrs: seq<EncryptionAlg>, x: Suite)
    ensures x in SuitesForMac(mac, encrs) <==>
      FindSuite(x).Some? && FindSuite(x).value.mac == mac
      && (FindSuite(x).value.encr == EncrNull || FindSuite(x).value.encr in encrs)
  {
    NullSuitesAreCatalogRows(mac, x);
    if |encrs| > 0 {
      var p, e := encrs[..|encrs| - 1], encrs[|encrs| - 1];
      assert encrs == p + [e];
      SuitesForMacMembers(mac, p, x);
      EncrSuitesAreCatalogRows(mac, e, x);
    }
  }

  /** The raw list holds exactly the catalog suites the registry enables:
      NULL suites follow from the MAC alone, AES-CBC only comes with
      HMAC-SHA1 or HMAC-SHA-256, 3DES only with HMAC-SHA1, and every entry
      is a catalog key. */
  lemma {:induction false} RawSupportedMembers(macs: seq<IntegrityAlg>, encrs: seq<EncryptionAlg>, x: Suite)
    ensures x in RawSupported(macs, encrs) <==> Offered(x, macs, encrs)
  {
    if |macs| > 0 {
      var p, m := macs[..|macs| - 1], macs[|macs| - 1];
      assert macs == p + [m];
      RawSupportedMembers(p, encrs, x);
      SuitesForMacMembers(m, encrs, x);
    }
  }

  /** Length of what one MAC contributes, when the crypter enumerator lists
      each algorithm once. */
  lemma {:induction false} SuitesForMacLength(mac: IntegrityAlg, encrs: seq<EncryptionAlg>)
    requires Distinct(encrs)
    ensures |SuitesForMac(mac, encrs)| <=
      |NullSuites(mac)|
      + (if EncrAesCbc in encrs then |EncrSuites(mac, EncrAesCbc)| else 0)
      + (if Encr3des in encrs then |EncrSuites(mac, Encr3des)| else 0)
  {
    if |encrs| > 0 {
      var p, e := encrs[..|encrs| - 1], encrs[|encrs| - 1];
      assert encrs == p + [e];
      assert Distinct(p);
      assert e !in p;
      SuitesForMacLength(mac, p);
    }
  }

  /** With both enumerations free of repeats, the raw list has at most eight
      entries, well inside the 64-entry `supported[]` buffer. */
  lemma {:induction false} RawSupportedLength(macs: seq<IntegrityAlg>, encrs: seq<EncryptionAlg>)
    requires Distinct(macs) && Distinct(encrs)
    ensures |RawSupported(macs, encrs)| <=
      (if AuthHmacMd5_128 in macs then 1 else 0)
      + (if AuthHmacSha1_160 in macs then 4 else 0)
      + (if AuthHmacSha2_256_256 in macs then 3 else 0)
    ensures |RawSupported(macs, encrs)| <= 8
  {
    if |macs| > 0 {
      var p, m := macs[..|macs| - 1], macs[|macs| - 1];
      assert macs == p + [m];
      assert Distinct(p);
      assert m !in p;
      RawSupportedLength(p, encrs);
      SuitesForMacLength(m, encrs);
    }
  }

  /** Appending over a prefix of the crypter list never yields more than over
      the whole list. */
  lemma {:induction false} SuitesForMacPrefix(mac: IntegrityAlg, encrs: seq<EncryptionAlg>, k: nat)
    requires k <= |encrs|
    ensures |SuitesForMac(mac, encrs[..k])| <= |SuitesForMac(mac, encrs)|
  {
    if k < |encrs| {
      var p := encrs[..|encrs| - 1];
      assert p[..k] == encrs[..k];
      SuitesForMacPrefix(mac, p, k);
    } else {
      assert encrs[..k] == encrs;
    }
  }

  /** One more inner-loop pass appends that cipher's suites. */
  lemma SuitesForMacStep(mac: IntegrityAlg, encrs: seq<EncryptionAlg>, e: nat)
    requires e < |encrs|
    ensures SuitesForMac(mac, encrs[..e + 1]) == SuitesForMac(mac, encrs[..e]) + EncrSuites(mac, encrs[e])
    ensures |SuitesForMac(mac, encrs[..e + 1])| <= |SuitesForMac(mac, encrs)|
  {
    assert encrs[..e + 1][..e] == encrs[..e];
    SuitesForMacPrefix(mac, encrs, e + 1);
  }

  /** One more outer-loop pass appends that MAC's suites. */
  lemma RawSupportedStep(macs: seq<IntegrityAlg>, encrs: seq<EncryptionAlg>, m: nat)
    requires m < |macs| && Distinct(macs) && Distinct(encrs)
    ensures RawSupported(macs[..m + 1], encrs) == RawSupported(macs[..m], encrs) + SuitesForMac(macs[m], encrs)
    ensures |RawSupported(macs[..m + 1], encrs)| <= 8
  {
    assert macs[..m + 1][..m] == macs[..m];
    assert Distinct(macs[..m + 1]);
    RawSupportedLength(macs[..m + 1], encrs);
  }

  lemma Sha256AesCountForPair(mac: IntegrityAlg, e: EncryptionAlg)
    ensures multiset(EncrSuites(mac, e))[TLS_RSA_WITH_AES_128_CBC_SHA256] ==
      if mac == AuthHmacSha2_256_256 && e == EncrAesCbc then 2 else 0
  {
  }

  lemma {:induction false} Sha256AesCountForMac(mac: IntegrityAlg, encrs: seq<EncryptionAlg>)
    requires Distinct(encrs)
    ensures multiset(SuitesForMac(mac, encrs))[TLS_RSA_WITH_AES_128_CBC_SHA256] ==
      if mac == AuthHmacSha2_256_256 && EncrAesCbc in encrs then 2 else 0
  {
    if |encrs| == 0 {
      assert multiset(NullSuites(mac))[TLS_RSA_WITH_AES_128_CBC_SHA256] == 0;
    } else {
      var p, e := encrs[..|encrs| - 1], encrs[|encrs| - 1];
      assert encrs == p + [e];
      assert Distinct(p);
      assert e !in p;
      Sha256AesCountForMac(mac, p);
      Sha256AesCountForPair(mac, e);
      assert multiset(SuitesForMac(mac, encrs)) == multiset(SuitesForMac(mac, p)) + multiset(EncrSuites(mac, e));
      assert EncrAesCbc in encrs <==> EncrAesCbc in p || e == EncrAesCbc;
    }
  }

  /** The copy-pasted branch appends AES_128_CBC_SHA256 twice to the raw
      list whenever HMAC-SHA-256 and AES-CBC are both available. */
  lemma {:induction false} Sha256AesCountRaw(macs: seq<IntegrityAlg>, encrs: seq<EncryptionAlg>)
    requires Distinct(macs) && Distinct(encrs)
    ensures multiset(RawSupported(macs, encrs))[TLS_RSA_WITH_AES_128_CBC_SHA256] ==
      if AuthHmacSha2_256_256 in macs && EncrAesCbc in encrs then 2 else 0
  {
    if |macs| > 0 {
      var p, m := macs[..|macs| - 1], macs[|macs| - 1];
      assert macs == p + [m];
      assert Distinct(p);
      assert m !in p;
      Sha256AesCountRaw(p, encrs);
      Sha256AesCountForMac(m, encrs);
    }
  }

  /** Position of the first occurrence of `x` in `s`. */
  function FirstIndex(s: seq<Suite>, x: Suite): (r: nat)
    requires x in s
    ensures r < |s| && s[r] == x
    ensures forall k :: 0 <= k < r ==> s[k] != x
  {
    if s[0] == x then 0
    else
      var r := 1 + FirstIndex(s[1..], x);
      assert forall k :: 1 <= k < |s| ==> s[k] == s[1..][k - 1];
      r
  }

  /** Appending an element does not move the first occurrence of anything
      already present, and a new element first occurs at the end. */
  lemma FirstIndexAppend(s: seq<Suite>, y: Suite, x: Suite)
    requires x in s + [y]
    ensures x in s ==> FirstIndex(s + [y], x) == FirstIndex(s, x)
    ensures x !in s ==> FirstIndex(s + [y], x) == |s|
  {
    var r := FirstIndex(s + [y], x);
    if x in s {
      var q := FirstIndex(s, x);
      assert (s + [y])[q] == x;
    }
  }

  /** The de-duplication loop: keep each suite at its first occurrence. */
  function Dedup(s: seq<Suite>): seq<Suite> {
    if |s| == 0 then []
    else
      var d := Dedup(s[..|s| - 1]);
      if s[|s| - 1] in d then d else d + [s[|s| - 1]]
  }

  /** `unique[]` holds every suite of `supported[]`, each exactly once, in
      the order of their first occurrence. */
  lemma {:induction false} DedupSpec(s: seq<Suite>)
    ensures Distinct(Dedup(s))
    ensures forall x :: x in Dedup(s) <==> x in s
    ensures |Dedup(s)| <= |s|
    ensures forall i, j :: 0 <= i < j < |Dedup(s)| ==> FirstIndex(s, Dedup(s)[i]) < FirstIndex(s, Dedup(s)[j])
  {
    if |s| > 0 {
      var p, y := s[..|s| - 1], s[|s| - 1];
      assert s == p + [y];
      DedupSpec(p);
      var d := Dedup(p);
      forall x | x in d
        ensures FirstIndex(s, x) == FirstIndex(p, x) < |p|
      {
        FirstIndexAppend(p, y, x);
      }
      if y !in d {
        FirstIndexAppend(p, y, y);
      }
    }
  }

  /** De-duplicating a list that has no repeats changes nothing. */
  lemma {:induction false} DedupOfDistinct(s: seq<Suite>)
    requires Distinct(s)
    ensures Dedup(s) == s
  {
    if |s| > 0 {
      var p, y := s[..|s| - 1], s[|s| - 1];
      assert Distinct(p);
      DedupOfDistinct(p);
      assert y !in p;
    }
  }

  /** The suite list the engine builds for a registry. */
  function BuiltSuites(macs: seq<IntegrityAlg>, encrs: seq<EncryptionAlg>): seq<Suite> {
    Dedup(RawSupported(macs, encrs))
  }

  /** The built list has no repeats and at most eight entries; it holds
      exactly the offered catalog suites, each a catalog key; and the suite
      the source appends twice is kept once. */
  lemma BuiltSuitesSpec(macs: seq<IntegrityAlg>, encrs: seq<EncryptionAlg>)
    requires Distinct(macs) && Distinct(encrs)
    ensures Distinct(BuiltSuites(macs, encrs))
    ensures |BuiltSuites(macs, encrs)| <= 8
    ensures forall x :: x in BuiltSuites(macs, encrs) <==> Offered(x, macs, encrs)
    ensures forall x :: x in BuiltSuites(macs, encrs) ==> FindSuite(x).Some? && x != NO_SUITE
    ensures AuthHmacSha2_256_256 in macs && EncrAesCbc in encrs ==>
      multiset(RawSupported(macs, encrs))[TLS_RSA_WITH_AES_128_CBC_SHA256] == 2
      && multiset(BuiltSuites(macs, encrs))[TLS_RSA_WITH_AES_128_CBC_SHA256] == 1
  {
    var raw := RawSupported(macs, encrs);
    var built := BuiltSuites(macs, encrs);
    DedupSpec(raw);
    RawSupportedLength(macs, encrs);
    forall x ensures x in built <==> Offered(x, macs, encrs) {
      RawSupportedMembers(macs, encrs, x);
    }
    forall x | x in built ensures FindSuite(x).Some? && x != NO_SUITE {
      FindSuiteExact(x);
    }
    Sha256AesCountRaw(macs, encrs);
    if AuthHmacSha2_256_256 in macs && EncrAesCbc in encrs {
      DistinctCountOne(built, TLS_RSA_WITH_AES_128_CBC_SHA256);
    }
  }

  /** In a list without repeats a present element occurs once. */
  lemma {:induction false} DistinctCountOne(s: seq<Suite>, x: Suite)
    requires Distinct(s) && x in s
    ensures multiset(s)[x] == 1
  {
    var p, y := s[..|s| - 1], s[|s| - 1];
    assert s == p + [y];
    assert Distinct(p);
    if y == x {
      assert x !in p;
    } else {
      DistinctCountOne(p, x);
    }
  }
}
