/**
 * The embedding integrity registry: a map from token id to the trusted
 * digest of that token's embedding row, built by `Register` and checked
 * row by row by `Verify`.
 *
 * An embedding matrix is a sequence of rows; each row is given by its
 * canonical byte encoding. The digest function (SHA-256 over the row's bytes,
 * rendered as hex) is not modelled: the registry is parameterised by an
 * arbitrary function `hash` from bytes to digests, fixed at construction.
 */
module Integrity {

  type Byte = bv8
  /** The canonical byte encoding of one embedding row. */
  type Vector = seq<Byte>
  /** A hex digest of a row. */
  type Digest = string

  /** Outcome of a verification: a verdict per registered token id, or the
      failure raised when a registered id is not a row of the candidate. */
  datatype VerifyResult =
    | Verified(verdicts: map<nat, bool>)
    | IndexOutOfRange(id: nat)

  /** The hash function tells different rows apart. */
  ghost predicate Injective(hash: Vector -> Digest) {
    forall x, y :: hash(x) == hash(y) ==> x == y
  }

  /** Every registered id indexes a row of `weight`. */
  predicate AllRowsPresent(ref: map<nat, Digest>, weight: seq<Vector>) {
    forall id :: id in ref ==> id < |weight|
  }

  /** The reference map after the first `n` iterations of the registration
      loop over `rows`, starting from `ref`. */
  function RegisterPrefix(ref: map<nat, Digest>, rows: seq<Vector>, hash: Vector -> Digest, n: nat): map<nat, Digest>
    requires n <= |rows|
    decreases n
  {
    if n == 0 then ref
    else RegisterPrefix(ref, rows, hash, n - 1)[n - 1 := hash(rows[n - 1])]
  }

  /** The reference map after registering all rows of `rows`. */
  function Registered(ref: map<nat, Digest>, rows: seq<Vector>, hash: Vector -> Digest): map<nat, Digest> {
    RegisterPrefix(ref, rows, hash, |rows|)
  }

  /** The verdict map: for each registered id, whether the candidate row
      hashes to the trusted digest. */
  function Verdicts(ref: map<nat, Digest>, weight: seq<Vector>, hash: Vector -> Digest): map<nat, bool>
    requires AllRowsPresent(ref, weight)
  {
    map id | id in ref :: hash(weight[id]) == ref[id]
  }

  /** Each of the first `n` rows is registered with its own digest. */
  lemma {:induction false} RegisterPrefixRows(ref: map<nat, Digest>, rows: seq<Vector>, hash: Vector -> Digest, n: nat)
    requires n <= |rows|
    ensures forall i: nat :: i < n ==>
              i in RegisterPrefix(ref, rows, hash, n) && RegisterPrefix(ref, rows, hash, n)[i] == hash(rows[i])
  {
    if n > 0 {
      RegisterPrefixRows(ref, rows, hash, n - 1);
    }
  }

  /** Registration adds exactly the ids `0 .. n-1` to the key set. */
  lemma {:induction false} RegisterPrefixKeys(ref: map<nat, Digest>, rows: seq<Vector>, hash: Vector -> Digest, n: nat)
    requires n <= |rows|
    ensures forall id: nat :: id in RegisterPrefix(ref, rows, hash, n) <==> id in ref || id < n
  {
    if n > 0 {
      RegisterPrefixKeys(ref, rows, hash, n - 1);
    }
  }

  /** Entries with an id the loop does not reach keep their digest. */
  lemma {:induction false} RegisterPrefixKeepsOthers(ref: map<nat, Digest>, rows: seq<Vector>, hash: Vector -> Digest, n: nat)
    requires n <= |rows|
    ensures forall id :: id in ref && id >= n ==>
              id in RegisterPrefix(ref, rows, hash, n) && RegisterPrefix(ref, rows, hash, n)[id] == ref[id]
  {
    if n > 0 {
      RegisterPrefixKeepsOthers(ref, rows, hash, n - 1);
    }
  }

  /** Registering `a` and then `b`: the rows of `b` win, and the rows of `a`
      beyond `|b|` keep the digests of `a`. */
  lemma LatestRegistrationWins(ref: map<nat, Digest>, a: seq<Vector>, b: seq<Vector>, hash: Vector -> Digest)
    ensures forall i: nat :: i < |b| ==>
              i in Registered(Registered(ref, a, hash), b, hash) &&
              Registered(Registered(ref, a, hash), b, hash)[i] == hash(b[i])
    ensures forall i: nat :: |b| <= i < |a| ==>
              i in Registered(Registered(ref, a, hash), b, hash) &&
              Registered(Registered(ref, a, hash), b, hash)[i] == hash(a[i])
  {
    RegisterPrefixRows(ref, a, hash, |a|);
    RegisterPrefixRows(Registered(ref, a, hash), b, hash, |b|);
    RegisterPrefixKeepsOthers(Registered(ref, a, hash), b, hash, |b|);
  }

  /** Registering a matrix and verifying the same matrix: verification
      succeeds exactly when no earlier registration left an id beyond the
      matrix's rows, and then every verdict is "intact". */
  lemma RegisterThenVerifyIntact(ref: map<nat, Digest>, w: seq<Vector>, hash: Vector -> Digest)
    ensures AllRowsPresent(Registered(ref, w, hash), w) <==> AllRowsPresent(ref, w)
    ensures AllRowsPresent(Registered(ref, w, hash), w) ==>
              forall id :: id in Verdicts(Registered(ref, w, hash), w, hash) ==>
                Verdicts(Registered(ref, w, hash), w, hash)[id]
  {
    RegisterPrefixRows(ref, w, hash, |w|);
    RegisterPrefixKeys(ref, w, hash, |w|);
    var r := Registered(ref, w, hash);
    if AllRowsPresent(ref, w) {
      assert forall id :: id in r ==> id < |w|;
    }
  }

  /** With an injective hash, the verdict for a row registered from `a` and
      checked against `b` is "intact" exactly when the two rows are equal. */
  lemma TamperDetection(ref: map<nat, Digest>, a: seq<Vector>, b: seq<Vector>, hash: Vector -> Digest, id: nat)
    requires Injective(hash)
    requires id < |a|
    requires AllRowsPresent(Registered(ref, a, hash), b)
    ensures id in Verdicts(Registered(ref, a, hash), b, hash) &&
            (Verdicts(Registered(ref, a, hash), b, hash)[id] <==> a[id] == b[id])
  {
    RegisterPrefixRows(ref, a, hash, |a|);
  }

  /** An empty baseline verifies any candidate, with no verdicts. */
  lemma EmptyBaselineVerdicts(w: seq<Vector>, hash: Vector -> Digest)
    ensures AllRowsPresent(map[], w) && Verdicts(map[], w, hash) == map[]
  {
  }

  class EmbeddingIntegrityRegistry {
    /** The digest function used for every row. */
    const hash: Vector -> Digest
    /** Trusted digest per token id. */
    var referenceHashes: map<nat, Digest>

    constructor (hash: Vector -> Digest)
      ensures this.hash == hash
      ensures referenceHashes == map[]
    {
      this.hash := hash;
      referenceHashes := map[];
    }

    /** Records the digest of every row of `weight` under its row index,
        overwriting earlier digests for those ids and keeping the others. */
    method Register(weight: seq<Vector>)
      modifies this
      ensures referenceHashes == Registered(old(referenceHashes), weight, hash)
      ensures forall id: nat :: id in referenceHashes <==> id in old(referenceHashes) || id < |weight|
      ensures forall i: nat :: i < |weight| ==> referenceHashes[i] == hash(weight[i])
      ensures forall id :: id in old(referenceHashes) && id >= |weight| ==>
                referenceHashes[id] == old(referenceHashes)[id]
    {
      var tokenId := 0;
      while tokenId < |weight|
        invariant tokenId <= |weight|
        invariant referenceHashes == RegisterPrefix(old(referenceHashes), weight, hash, tokenId)
      {
        referenceHashes := referenceHashes[tokenId := hash(weight[tokenId])];
        tokenId := tokenId + 1;
      }
      RegisterPrefixRows(old(referenceHashes), weight, hash, |weight|);
      RegisterPrefixKeys(old(referenceHashes), weight, hash, |weight|);
      RegisterPrefixKeepsOthers(old(referenceHashes), weight, hash, |weight|);
    }

    /** Checks every registered id against the candidate matrix, without
        changing the registry. Fails when a registered id is not a row. */
    method Verify(weight: seq<Vector>) returns (r: VerifyResult)
      ensures r.Verified? <==> AllRowsPresent(referenceHashes, weight)
      ensures r.IndexOutOfRange? ==> r.id in referenceHashes && r.id >= |weight|
      ensures r.Verified? ==> r.verdicts.Keys == referenceHashes.Keys
      ensures r.Verified? ==> forall id :: id in r.verdicts ==>
                r.verdicts[id] == (hash(weight[id]) == referenceHashes[id])
      ensures r.Verified? ==> r.verdicts == Verdicts(referenceHashes, weight, hash)
    {
      var results: map<nat, bool> := map[];
      var pending := referenceHashes.Keys;
      while pending != {}
        invariant pending <= referenceHashes.Keys
        invariant results.Keys == referenceHashes.Keys - pending
        invariant forall id :: id in results ==>
                    id < |weight| && results[id] == (hash(weight[id]) == referenceHashes[id])
        decreases pending
      {
        var tokenId :| tokenId in pending;
        if tokenId >= |weight| {
          return IndexOutOfRange(tokenId);
        }
        results := results[tokenId := hash(weight[tokenId]) == referenceHashes[tokenId]];
        pending := pending - {tokenId};
      }
      return Verified(results);
    }
  }
}
