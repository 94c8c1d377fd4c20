/** The static suite catalog (`suite_algs`) and its lookup (`find_suite`). */
module TlsCatalog {
  import opened TlsTypes

  /** One catalog row: a suite code and the algorithms it implies. */
  datatype SuiteAlgs = SuiteAlgs(
    suite: Suite,
    hash: HashAlg,
    prf: PrfAlg,
    mac: IntegrityAlg,
    encr: EncryptionAlg,
    encrSize: nat)

  /** The catalog, in the order of the source table. */
  const SuiteTable: seq<SuiteAlgs> := [
    SuiteAlgs(TLS_RSA_WITH_NULL_MD5, HashMd5, PrfHmacMd5, AuthHmacMd5_128, EncrNull, 0),
    SuiteAlgs(TLS_RSA_WITH_NULL_SHA, HashSha1, PrfHmacSha1, AuthHmacSha1_160, EncrNull, 0),
    SuiteAlgs(TLS_RSA_WITH_NULL_SHA256, HashSha256, PrfHmacSha2_256, AuthHmacSha2_256_256, EncrNull, 0),
    SuiteAlgs(TLS_RSA_WITH_AES_128_CBC_SHA, HashSha1, PrfHmacSha1, AuthHmacSha1_160, EncrAesCbc, 16),
    SuiteAlgs(TLS_RSA_WITH_AES_256_CBC_SHA, HashSha1, PrfHmacSha1, AuthHmacSha1_160, EncrAesCbc, 32),
    SuiteAlgs(TLS_RSA_WITH_3DES_EDE_CBC_SHA, HashSha1, PrfHmacSha1, AuthHmacSha1_160, Encr3des, 0),
    SuiteAlgs(TLS_RSA_WITH_AES_128_CBC_SHA256, HashSha256, PrfHmacSha2_256, AuthHmacSha2_256_256, EncrAesCbc, 16)
  ]

  /** Linear search of `table` for the first row carrying `suite`. */
  function FindIn(table: seq<SuiteAlgs>, suite: Suite): (r: Option<SuiteAlgs>)
    ensures r.None? <==> forall i :: 0 <= i < |table| ==> table[i].suite != suite
    ensures r.Some? ==> exists i :: 0 <= i < |table| && table[i] == r.value && table[i].suite == suite
                                  && forall k :: 0 <= k < i ==> table[k].suite != suite
  {
    if |table| == 0 then None
    else if table[0].suite == suite then Some(table[0])
    else
      var r := FindIn(table[1..], suite);
      assert forall i :: 1 <= i < |table| ==> table[i] == table[1..][i - 1];
      r
  }

  /** `find_suite`: the catalog row of `suite`, or None when the catalog has none. */
  function FindSuite(suite: Suite): (r: Option<SuiteAlgs>)
  {
    FindIn(SuiteTable, suite)
  }

  /** The catalog lists each suite code once, and no row uses code 0. */
  lemma CatalogKeysUnique()
    ensures forall i, j :: 0 <= i < j < |SuiteTable| ==> SuiteTable[i].suite != SuiteTable[j].suite
    ensures forall i :: 0 <= i < |SuiteTable| ==> SuiteTable[i].suite != NO_SUITE
  {
  }

  /** `find_suite` answers with exactly the row that carries the code, and with
      nothing for a code outside the catalog. */
  lemma FindSuiteExact(suite: Suite)
    ensures forall i :: 0 <= i < |SuiteTable| && SuiteTable[i].suite == suite ==> FindSuite(suite) == Some(SuiteTable[i])
    ensures FindSuite(suite).None? <==> forall i :: 0 <= i < |SuiteTable| ==> SuiteTable[i].suite != suite
    ensures FindSuite(suite).Some? ==> FindSuite(suite).value.suite == suite && suite != NO_SUITE
  {
    CatalogKeysUnique();
  }

  /** `find_suite` spelled out code by code. */
  lemma FindSuiteByCode(x: Suite)
    ensures FindSuite(x) ==
      if x == TLS_RSA_WITH_NULL_MD5 then Some(SuiteTable[0])
      else if x == TLS_RSA_WITH_NULL_SHA then Some(SuiteTable[1])
      else if x == TLS_RSA_WITH_NULL_SHA256 then Some(SuiteTable[2])
      else if x == TLS_RSA_WITH_AES_128_CBC_SHA then Some(SuiteTable[3])
      else if x == TLS_RSA_WITH_AES_256_CBC_SHA then Some(SuiteTable[4])
      else if x == TLS_RSA_WITH_3DES_EDE_CBC_SHA then Some(SuiteTable[5])
      else if x == TLS_RSA_WITH_AES_128_CBC_SHA256 then Some(SuiteTable[6])
      else None
  {
    FindSuiteExact(x);
  }
}
