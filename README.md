# Embedding integrity registry and audit log, in Dafny

This project models the tamper-detection core of an embedding store, in two parts.

- The **integrity registry** (`Integrity`, file `integrity.dfy`) keeps one trusted digest per token id.
  - `Register` hashes row `i` of an embedding matrix for every row index `i` and stores the digest under `i`. It overwrites any earlier digest for that id and keeps the rest.
  - `Verify` goes over the registered ids. For each one it gives a verdict: does the candidate row hash to the trusted digest? The registry is not changed.
- The **audit logger** (`Audit`, file `audit.dfy`) works from the vocabulary and a verdict map.
  - It collects the names of the tokens whose verdict is "not intact", in vocabulary order.
  - It builds a record holding the timestamp, the embedding file and those names.
  - It appends that record to the persisted history by read-modify-write. A missing history counts as empty.

A third module (`IntegrityCheck`, file `integrity_check.dfy`) states and proves, on a two-token example, what the two give together.

Modelling choices:

- An embedding row is its canonical byte encoding, `seq<bv8>`. A matrix is a sequence of rows.
- The digest function is not modelled. The registry is built with an arbitrary function `hash: Vector -> Digest`, kept in a constant field. Every property holds for any such function. Tamper detection is also proved, under the explicit assumption `Injective(hash)`.
- The registry's dictionary is a `map<nat, Digest>` field. Its keys come only from row indices, so they are `nat`.
- `Register` keeps the source's loop. Its effect is the recursive function `RegisterPrefix`: the map after the first `n` iterations. The closed form of that effect is proved by induction.
- `Verify` keeps the source's loop over the registered ids. Indexing the candidate with an id that is not one of its rows raises an index error in the source. Here that is the result `IndexOutOfRange(id)`, not a precondition.
- The vocabulary is a dictionary. It is modelled as its `(name, id)` pairs in insertion order, because that is the order in which the source iterates it.
- The source looks up every vocabulary id in the verdict map and fails on a missing one. The model therefore requires every vocabulary id to have a verdict (`Covered`). The audit parameter is named `tampered_tokens`, but its values are "intact" flags: the caller passes the registry's verdicts.
- The audit file is abstracted to its decoded contents (`LogFile`): it is `Missing`, or it is `Present` with the list of records. The timestamp is a parameter.

Observations from the proofs:

- Registering a matrix and then verifying the same matrix gives "intact" for every id, but only when no earlier registration left an id at or beyond the matrix's row count. If one did, the source's verify raises an index error (`RegisterThenVerifyIntact`).

## Model

| member | source | states |
|---|---|---|
| `Integrity.EmbeddingIntegrityRegistry.constructor` | embeddings/integrity.py:11-12 | a new registry has an empty reference map and the given digest function |
| `Integrity.EmbeddingIntegrityRegistry.Register` | embeddings/integrity.py:14-21 | the new map is the old one with row `i`'s digest stored under every `i < |weight|`; the key set becomes the old keys plus `0..|weight|-1`; older entries at ids `>= |weight|` keep their digest |
| `Integrity.RegisterPrefixRows` | embeddings/integrity.py:18-21 | after the first `n` loop iterations each id `i < n` is registered with the digest of row `i` |
| `Integrity.RegisterPrefixKeys` | embeddings/integrity.py:18-21 | after `n` iterations an id is registered iff it was registered before or is below `n`, so no other key is added |
| `Integrity.RegisterPrefixKeepsOthers` | embeddings/integrity.py:18-21 | entries with an id the loop does not reach keep their old digest |
| `Integrity.LatestRegistrationWins` | embeddings/integrity.py:19 | registering `a` then `b`: ids below `|b|` carry `b`'s digests; ids from `|b|` to `|a|-1` keep `a`'s |
| `Integrity.EmbeddingIntegrityRegistry.Verify` | embeddings/integrity.py:23-34 | succeeds iff every registered id is a row of the candidate; on failure names a registered id that is out of range; on success the verdict keys are exactly the registered ids and each verdict is "candidate row hashes to the trusted digest"; the registry is not changed |
| `Integrity.RegisterThenVerifyIntact` | embeddings/integrity.py:14-34 | after registering `w`, verifying `w` succeeds iff no earlier id is `>= |w|`, and then every verdict is true |
| `Integrity.TamperDetection` | embeddings/integrity.py:18-32 | with an injective digest function, the verdict for a row registered from `a` and checked against `b` is true iff the two rows are equal |
| `Integrity.EmptyBaselineVerdicts` | embeddings/integrity.py:28-34 | with nothing registered, verification succeeds on any candidate and returns no verdicts |
| `Audit.AuditLogger.constructor` | embeddings/audit.py:11-12 | a new logger keeps the given log path, `embeddings/audit_log.json` by default; the stored file is whatever is at that path |
| `Audit.ViolatedTokens` | embeddings/audit.py:22-25 | a name is reported iff some vocabulary entry with that name has a false verdict; the result is a subsequence of the vocabulary's names in vocabulary order; it is no longer than the vocabulary |
| `Audit.NoViolationsIffAllIntact` | embeddings/audit.py:22-25 | no name is reported iff every vocabulary token's verdict is true |
| `Audit.ViolatedTokensDistinct` | embeddings/audit.py:22-25 | with distinct vocabulary names (dictionary keys), no name is reported twice |
| `Audit.AuditLogger.LogIntegrityViolation` | embeddings/audit.py:14-33 | the history gains exactly one record, holding the given timestamp, the given embedding file and the violated names |
| `Audit.AuditLogger.Append` | embeddings/audit.py:35-45 | the stored history becomes the old history, or the empty one if the file was missing, followed by the record; earlier entries are unchanged and in order; a first append gives a one-record history |
| `IntegrityCheck.TamperedSecondRow` | experiments/integrity_check_demo.py:35-87 | registering two rows and verifying a candidate whose second row hashes differently gives verdicts `{0: true, 1: false}`, and only "java" is reported |

Determinism of `Verify` on success holds by construction: it returns `Verified(Verdicts(...))`, and `Verdicts` is a function of the reference map, the candidate and the digest function. On failure the reported id is not fixed; see the `Verify` line under "## Left out".

## Left out

- utils/hashing.py (SHA-256 over a tensor's bytes) is not part of this model. The digest function is a parameter, and collision resistance is not proved. The tamper-detection lemma assumes injectivity instead.
- Tensors, floating point and the byte encoding of a row are left out. A row is already its byte sequence.
- embeddings/embedding_store.py and the demo scripts under experiments/ are not part of this model: storage, file discovery, random noise, printing. The demo's own loop over the vocabulary repeats the audit filter and is not modelled separately.
- Integrity.EmbeddingIntegrityRegistry.Verify: when several registered ids are out of range, the model does not fix which one is reported. The source reports the first one in dictionary insertion order.
- JSON encoding, file reads and writes and their errors are left out: unreadable or malformed files, and permission errors on write. The file is its decoded list of records, or missing.
- The timestamp comes from the clock in the source. Here it is a parameter, and its `YYYY-MM-DD HH:MM:SS` format is not checked.
- Concurrent use of the registry or the log file is left out.
