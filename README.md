# TLS crypto engine of the EAP-TLS plugin, in Dafny

This project models `tls_crypto.c`, the session-key engine of strongSwan's
EAP-TLS plugin. The engine:

- keeps a static catalog of seven RSA cipher suites (`suite_algs`) and
  looks suites up in it (`find_suite`);
- builds the list of suites it supports when it is created. It asks the
  algorithm registry for the MACs and ciphers it has, appends the suites
  each one enables, and removes repeats (`build_cipher_suite_list`);
- on the server side, picks the first local suite the peer also offers
  and for which a PRF, two MACs and, unless the suite is NULL-encrypted,
  two block ciphers can be built (`select_cipher_suite`, `create_ciphers`);
- derives the master secret and the key block with the TLS PRF (sections
  8.1 and 6.3 of RFC 5246). It cuts the key block into MAC keys, cipher
  keys and IVs, and gives each piece to the inbound or the outbound
  primitive depending on the role (`derive_master_secret`);
- hands the inbound or the outbound set to the record layer
  (`change_cipher`).

Modules:

- `TlsTypes` holds the suite codes, algorithm identifiers and protocol
  versions. The codes are the IANA values of appendix A.5 of RFC 5246;
  `tls.h` is not part of this model. It also holds the algorithm registry
  as a value, `CryptoLib`.
- `TlsCatalog` holds the catalog and its lookup.
- `TlsSuiteList` holds the suite list as functions: the raw list, the
  de-duplication, and what they contain.
- `TlsNegotiation` holds what `create_ciphers` and `select_cipher_suite`
  decide, with declarative reference definitions to compare against.
- `TlsKeys` holds the master secret, the key block, its slicing and the
  role mapping.
- `TlsCrypto` holds the engine object as a class whose fields are those of
  `private_tls_crypto_t`. Its methods update those fields as the C
  functions do:
  - the suite buffers are 64-entry arrays filled by loops;
  - the key-block cursor is a sequence that is cut piece by piece.

How the environment is modelled:

- The registry is a record. Its enumerators are sequences. Its signer,
  crypter and PRF constructors are functions that report whether an
  instance can be built and with what sizes.
- The TLS PRF is an abstract byte stream stored in that record.
  `get_bytes(len)` is the first `len` bytes of that stream for the key,
  label and seed it is given.
- `tls->get_version()` is a parameter of each method that reads it.
- `tls->is_server()` is a constant field of the engine.

Two points about what the code does:

- Only the `master` buffer is zeroed, by the `memset` at line 359 of
  `tls_crypto.c`, after the PRF has been re-keyed with it. The premaster
  secret and the key block (a `chunk_alloca` buffer) are not zeroed. The
  model does not represent the wipe at all (see "Left out").
- The AES_128_CBC_SHA256 suite is appended twice when HMAC-SHA-256 and
  AES-CBC are both available (lines 204-205). The model appends it twice,
  as the code does, and proves that the de-duplication leaves a single copy
  (`TlsSuiteList.BuiltSuitesSpec`).

## Model

| member | source | states |
|---|---|---|
| TlsCatalog.FindIn | src/charon/plugins/eap_tls/tls/tls_crypto.c:148-160 | the linear search answers None exactly when no row carries the code; otherwise it returns a row carrying the code, and no earlier row carries it |
| TlsCatalog.CatalogKeysUnique | src/charon/plugins/eap_tls/tls/tls_crypto.c:100-143 | the catalog lists every suite code once, and no row uses code 0 (the "no suite" value) |
| TlsCatalog.FindSuiteExact | src/charon/plugins/eap_tls/tls/tls_crypto.c:148-160 | `find_suite` returns exactly the row carrying the code, returns nothing for a code outside the catalog, and never matches code 0 |
| TlsCatalog.FindSuiteByCode | src/charon/plugins/eap_tls/tls/tls_crypto.c:100-160 | the lookup answers each of the seven codes with its own table row, in table order, and every other code with nothing |
| TlsSuiteList.NullSuitesAreCatalogRows | src/charon/plugins/eap_tls/tls/tls_crypto.c:177-190 | the outer switch adds exactly the catalog's NULL-encryption suites whose MAC is the enumerated one |
| TlsSuiteList.EncrSuitesAreCatalogRows | src/charon/plugins/eap_tls/tls/tls_crypto.c:194-223 | the inner switch adds exactly the catalog's suites with that MAC and that cipher: AES-CBC only with HMAC-SHA1 or HMAC-SHA-256, 3DES only with HMAC-SHA1 |
| TlsSuiteList.SuitesForMacMembers | src/charon/plugins/eap_tls/tls/tls_crypto.c:177-225 | one outer pass adds exactly the catalog suites of that MAC whose cipher is NULL or enumerated |
| TlsSuiteList.RawSupportedMembers | src/charon/plugins/eap_tls/tls/tls_crypto.c:174-227 | the raw `supported` list holds a suite exactly when the catalog has it and the registry offers its MAC and, unless it is NULL, its cipher |
| TlsSuiteList.SuitesForMacLength | src/charon/plugins/eap_tls/tls/tls_crypto.c:177-224 | over a repeat-free cipher list, one MAC adds at most its NULL suite plus its AES-CBC and 3DES suites |
| TlsSuiteList.RawSupportedLength | src/charon/plugins/eap_tls/tls/tls_crypto.c:170-227 | over repeat-free enumerations the raw list has at most 1 (MD5) + 4 (SHA1) + 3 (SHA-256) = 8 entries, so the 64-entry buffers never overflow |
| TlsSuiteList.Sha256AesCountForPair | src/charon/plugins/eap_tls/tls/tls_crypto.c:196-210 | the AES-CBC/HMAC-SHA-256 branch appends AES_128_CBC_SHA256 twice, and no other pair appends it |
| TlsSuiteList.Sha256AesCountForMac | src/charon/plugins/eap_tls/tls/tls_crypto.c:191-224 | one outer pass appends AES_128_CBC_SHA256 twice if the MAC is HMAC-SHA-256 and AES-CBC is enumerated, and otherwise not at all |
| TlsSuiteList.Sha256AesCountRaw | src/charon/plugins/eap_tls/tls/tls_crypto.c:204-205 | the raw list holds AES_128_CBC_SHA256 exactly twice when HMAC-SHA-256 and AES-CBC are both available, and otherwise not at all |
| TlsSuiteList.FirstIndex | src/charon/plugins/eap_tls/tls/tls_crypto.c:231-247 | the position of the first occurrence: it holds the element, and no earlier position does |
| TlsSuiteList.DedupSpec | src/charon/plugins/eap_tls/tls/tls_crypto.c:229-247 | the de-duplicated list has no repeats, holds exactly the elements of the input, is no longer than it, and keeps first-occurrence order |
| TlsSuiteList.DedupOfDistinct | src/charon/plugins/eap_tls/tls/tls_crypto.c:229-247 | de-duplicating a list without repeats leaves it unchanged |
| TlsSuiteList.BuiltSuitesSpec | src/charon/plugins/eap_tls/tls/tls_crypto.c:165-251 | the built list has no repeats, at most 8 entries and exactly the offered catalog suites, all found by `find_suite` and none 0; the suite appended twice is kept once |
| TlsNegotiation.TryCiphersSpec | src/charon/plugins/eap_tls/tls/tls_crypto.c:263-320 | `create_ciphers` succeeds exactly for creatable suites and fails with nothing changed for unknown ones; on success it holds the TLS 1.0 PRF below TLS 1.2 and the suite's PRF otherwise, the suite's MAC in both directions, and no crypters for NULL suites or the suite's cipher and key size in both directions otherwise |
| TlsNegotiation.SuccessReplacesAll | src/charon/plugins/eap_tls/tls/tls_crypto.c:273-319 | a successful `create_ciphers` replaces every primitive, so its result does not depend on the earlier fields |
| TlsNegotiation.FirstCreatable | src/charon/plugins/eap_tls/tls/tls_crypto.c:327-341 | reference choice: None exactly when no local suite is both offered by the peer and creatable; otherwise the earliest such suite in local order |
| TlsNegotiation.FirstCreatableAt | src/charon/plugins/eap_tls/tls/tls_crypto.c:327-341 | the choice is the first acceptable local suite, whatever order the peer lists its suites in |
| TlsNegotiation.MatchesAbsent | src/charon/plugins/eap_tls/tls/tls_crypto.c:331-333 | a local suite the peer does not offer triggers no `create_ciphers` call |
| TlsNegotiation.NoCommonSuiteBuildsNothing | src/charon/plugins/eap_tls/tls/tls_crypto.c:327-341 | without a common suite, selection calls `create_ciphers` never and leaves the primitives as they were |
| TlsNegotiation.AfterFailuresAppend | src/charon/plugins/eap_tls/tls/tls_crypto.c:327-341 | the fields after two runs of failed `create_ciphers` calls are the fields after the joined run |
| TlsKeys.PrfBytes | src/charon/plugins/eap_tls/tls/tls_crypto.c:354-356 | `get_bytes` yields exactly the requested number of bytes |
| TlsKeys.PrfBytesPrefix | src/charon/plugins/eap_tls/tls/tls_crypto.c:354-373 | a property of the PRF abstraction used for both `get_bytes` calls: a shorter request for the same key, label and seed is a prefix of a longer one, so each request reads one keyed stream cut to length |
| TlsKeys.MasterSecret | src/charon/plugins/eap_tls/tls/tls_crypto.c:352-357 | the master secret is 48 bytes of the PRF keyed with the premaster, label "master secret", seed client_random + server_random |
| TlsKeys.KeyBlock | src/charon/plugins/eap_tls/tls/tls_crypto.c:371-373 | the key block, over label "key expansion" and the reversed seed server_random + client_random, is 2·(mks+eks+ivs) bytes long |
| TlsKeys.SliceKeyBlock | src/charon/plugins/eap_tls/tls/tls_crypto.c:375-427 | the six pieces have the MAC, cipher-key and IV sizes, follow each other without overlap, and together make up the whole block |
| TlsKeys.CursorSlices | src/charon/plugins/eap_tls/tls/tls_crypto.c:376-416 | cutting with `chunk_create` and `chunk_skip` gives the pieces at offsets 0, m, 2m, 2m+e, 2m+2e and 2m+2e+v |
| TlsKeys.PeersInterlock | src/charon/plugins/eap_tls/tls/tls_crypto.c:380-425 | from the same key block, what a client sends with is what a server receives with, and the other way round, for MAC keys, cipher keys and IVs |
| TlsKeys.DerivationInterlocks | src/charon/plugins/eap_tls/tls/tls_crypto.c:352-427 | a client and a server that agree on PRF, premaster, randoms and sizes hold mirrored material, and the server receives with the client-write pieces at their block offsets |
| TlsCrypto.Push | src/charon/plugins/eap_tls/tls/tls_crypto.c:180 | `buf[count++] = x` appends x to the filled prefix |
| TlsCrypto.AppendNullSuites | src/charon/plugins/eap_tls/tls/tls_crypto.c:177-190 | the outer switch appends the MAC's NULL suite to the buffer, and only that |
| TlsCrypto.AppendEncrSuites | src/charon/plugins/eap_tls/tls/tls_crypto.c:194-223 | the inner switch appends the suites the cipher enables with the MAC, and only those |
| TlsCrypto.CollectForMac | src/charon/plugins/eap_tls/tls/tls_crypto.c:177-225 | one outer pass appends the MAC's suites for all enumerated ciphers |
| TlsCrypto.CollectSupported | src/charon/plugins/eap_tls/tls/tls_crypto.c:170-227 | the enumeration loops fill at most 8 entries of the 64-entry buffer with the raw suite list |
| TlsCrypto.RemoveDuplicates | src/charon/plugins/eap_tls/tls/tls_crypto.c:229-247 | the copy loop fills `unique` with the raw list's first occurrences, in order |
| TlsCrypto.CutKeyBlock | src/charon/plugins/eap_tls/tls/tls_crypto.c:375-416 | the cursor walk over the key block yields the six pieces of the slicing |
| TlsCrypto.TlsCrypto.constructor | src/charon/plugins/eap_tls/tls/tls_crypto.c:468-487 | a new engine has the built suite list, no suite selected, no primitives and empty IVs |
| TlsCrypto.TlsCrypto.BuildCipherSuiteList | src/charon/plugins/eap_tls/tls/tls_crypto.c:165-251 | afterwards the suite list is the de-duplicated raw list and `suite_count` is its length; nothing else changes |
| TlsCrypto.TlsCrypto.GetCipherSuites | src/charon/plugins/eap_tls/tls/tls_crypto.c:253-258 | returns the list and a count equal to its length: at most 8, no repeats, exactly the offered catalog suites |
| TlsCrypto.TlsCrypto.CreateCiphers | src/charon/plugins/eap_tls/tls/tls_crypto.c:263-320 | the verdict is true exactly for creatable suites, and the new primitive fields are those of `create_ciphers` step by step, including what a failed call leaves behind; suite list, suite and IVs are unchanged |
| TlsCrypto.TlsCrypto.TryOffered | src/charon/plugins/eap_tls/tls/tls_crypto.c:329-339 | the inner loop succeeds exactly when the peer offers the suite and it is creatable; on failure the fields are those left by one failed call per copy in the peer list |
| TlsCrypto.TlsCrypto.SelectCipherSuite | src/charon/plugins/eap_tls/tls/tls_crypto.c:322-342 | returns the first local suite that the peer offers and that is creatable, or 0 when there is none; on success `suite` is that value and the primitives are built for it; on 0, `suite` is unchanged and the primitives are those left by every failed attempt |
| TlsCrypto.TlsCrypto.KeyMaterialSizes | src/charon/plugins/eap_tls/tls/tls_crypto.c:361-370 | mks is the outbound MAC key size; eks and ivs are 0 without an outbound crypter; ivs is the block size below TLS 1.2 and 0 from TLS 1.2 on |
| TlsCrypto.TlsCrypto.DeriveMasterSecret | src/charon/plugins/eap_tls/tls/tls_crypto.c:344-428 | the PRF is re-keyed with the 48-byte master secret; the signer keys, and the crypter keys only when both crypters exist, get the role's pieces of the key block; the IVs are set only then and below TLS 1.2, and otherwise keep their values |
| TlsCrypto.TlsCrypto.ChangeCipher | src/charon/plugins/eap_tls/tls/tls_crypto.c:430-443 | inbound passes exactly the inbound signer, crypter and IV; outbound passes exactly the outbound ones |

## Left out

- TLS PRF, HMAC, AES and 3DES internals: the PRF is an abstract byte stream, and MACs and ciphers appear only as their sizes and keys. `tls_prf.c`, the signer and the crypter implementations are not part of this model. The known-answer test of the master secret needs the PRF itself, so it is not stated.
- Registry enumerators and the crypto factory: the enumerators are sequences. The model assumes that the registry lists each algorithm at most once; the registry's code is not part of this model. This assumption is why the engine's constructor, `BuildCipherSuiteList` and `CollectSupported` require repeat-free enumerations.
- TlsCrypto.TlsCrypto.constructor: requires repeat-free enumerations, which the C code takes for granted. With repeats the raw list could outgrow eight entries, and the 64-entry bound is not modelled for that case.
- Signer and crypter construction is deterministic here: the inbound and the outbound instance are either both built or both refused. A registry that builds one and refuses the other is not modelled.
- Record layer and TLS context: `tls->change_cipher` is modelled by the `CipherChange` value `ChangeCipher` returns. `tls->get_version` is a parameter, and `tls->is_server` is a constant field.
- Memory management and logging: `malloc`/`free`, `DESTROY_IF`, `chunk_alloca`, `chunk_clone`, `DBG1`. The `memset` that zeroes the `master` buffer (line 359) is not modelled either: in the model the master secret is a local value that nothing reads after the PRF is re-keyed, and no field records that it was erased.
- `get_prf` and `destroy`: an accessor that returns the PRF field, and the release of every field; neither computes anything.
- DeriveMasterSecret: requires a selected PRF and both signers, as the C code dereferences them without a check.
- `src/charon/sa/child_sa.h` and `src/charon/sa/states/create_child_sa_requested.h` only declare interfaces, and their implementations are not part of this model.
