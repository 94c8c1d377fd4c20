/** Shared vocabulary of the TLS session-key engine: optional values, the
    algorithm identifiers the crypto registry enumerates, the 16-bit cipher
    suite codes, and the registry itself as a record of capabilities. */
module TlsTypes {

  datatype Option<+T> = None | Some(value: T)

  /** A registered TLS cipher-suite code (two bytes on the wire). */
  newtype Suite = x: int | 0 <= x < 0x1_0000

  /** TLS_NULL_WITH_NULL_NULL; `select_cipher_suite` returns it when nothing is chosen. */
  const NO_SUITE: Suite := 0x0000

  // Suite codes of the RSA key-exchange suites the engine knows (RFC 5246, Appendix A.5).
  const TLS_RSA_WITH_NULL_MD5: Suite := 0x0001
  const TLS_RSA_WITH_NULL_SHA: Suite := 0x0002
  const TLS_RSA_WITH_NULL_SHA256: Suite := 0x003B
  const TLS_RSA_WITH_AES_128_CBC_SHA: Suite := 0x002F
  const TLS_RSA_WITH_AES_256_CBC_SHA: Suite := 0x0035
  const TLS_RSA_WITH_3DES_EDE_CBC_SHA: Suite := 0x000A
  const TLS_RSA_WITH_AES_128_CBC_SHA256: Suite := 0x003C

  /** TLS 1.2 as carried on the wire (major byte 3, minor byte 3): the first
      version with its own PRF and with per-record IVs. */
  const TLS_1_2: nat := 0x0303

  datatype HashAlg = HashMd5 | HashSha1 | HashSha256

  datatype PrfAlg = PrfHmacMd5 | PrfHmacSha1 | PrfHmacSha2_256

  /** Integrity algorithms; the registry may also list ones no suite uses. */
  datatype IntegrityAlg =
    | AuthHmacMd5_128
    | AuthHmacSha1_160
    | AuthHmacSha2_256_256
    | OtherIntegrity(id: nat)

  /** Encryption algorithms; the registry may also list ones no suite uses. */
  datatype EncryptionAlg =
    | EncrNull
    | EncrAesCbc
    | Encr3des
    | OtherEncryption(id: nat)

  type Bytes = seq<bv8>

  /** Which TLS PRF construction a PRF instance runs: the MD5/SHA-1 one of
      TLS 1.0 and 1.1, or the single-hash one of TLS 1.2 keyed by the suite's PRF. */
  datatype PrfKind = Prf10 | Prf12(alg: PrfAlg)

  /** Key and block sizes a crypter reports once built. */
  datatype CrypterSizes = CrypterSizes(keySize: nat, blockSize: nat)

  /** The PRF as a byte stream: the i-th output byte of the PRF of the given
      kind, keyed with `key`, over `label` and `seed`. Asking for n bytes
      yields the first n bytes of this stream. */
  type PrfStream = (PrfKind, Bytes, string, Bytes, nat) -> bv8

  /** The algorithm registry the engine consults, as plain values.
      `macs` and `encrs` are what its signer and crypter enumerators yield,
      in order; `signerKeySize` is None when no signer can be built for an
      algorithm and otherwise the key size that signer reports;
      `crypterSizes` likewise for a crypter of an algorithm and key size;
      `prf10` says whether the TLS 1.0 PRF can be built, `prf12` the same for
      the TLS 1.2 PRF over a given PRF algorithm. */
  datatype CryptoLib = CryptoLib(
    macs: seq<IntegrityAlg>,
    encrs: seq<EncryptionAlg>,
    signerKeySize: IntegrityAlg -> Option<nat>,
    crypterSizes: (EncryptionAlg, nat) -> Option<CrypterSizes>,
    prf10: bool,
    prf12: PrfAlg -> bool,
    prfStream: PrfStream)

  /** No element occurs twice. */
  predicate Distinct<T(==)>(s: seq<T>) {
    forall i, j :: 0 <= i < j < |s| ==> s[i] != s[j]
  }
}
