/**
 * The audit logger's violation bookkeeping: which vocabulary names a
 * verdict map marks as tampered, the record built from them, and the
 * read-modify-write append to the persisted history.
 *
 * The vocabulary is a dictionary from token name to token id; it is given
 * here as its sequence of `(name, id)` pairs in insertion order, which is the
 * order in which the dictionary is iterated. The JSON file is abstracted to
 * its decoded contents, or `Missing` when there is no file yet.
 */
module Audit {

  type Vocab = seq<(string, nat)>

  /** One entry of the audit history. */
  datatype Record = Record(timestamp: string, embeddingFile: string, violatedTokens: seq<string>)

  /** The audit file: absent, or holding the full history. */
  datatype LogFile = Missing | Present(records: seq<Record>)

  const DefaultLogPath: string := "embeddings/audit_log.json"

  /** Every token id of the vocabulary has a verdict. */
  predicate Covered(vocab: Vocab, verdicts: map<nat, bool>) {
    forall k :: 0 <= k < |vocab| ==> vocab[k].1 in verdicts
  }

  /** Distinct token names, as dictionary keys are. */
  predicate DistinctNames(vocab: Vocab) {
    forall i, j :: 0 <= i < j < |vocab| ==> vocab[i].0 != vocab[j].0
  }

  predicate Distinct(s: seq<string>) {
    forall i, j :: 0 <= i < j < |s| ==> s[i] != s[j]
  }

  /** The token names of the vocabulary, in vocabulary order. */
  function Names(vocab: Vocab): seq<string> {
    if vocab == [] then [] else [vocab[0].0] + Names(vocab[1..])
  }

  /** `s` is obtained from `t` by deleting elements. */
  predicate IsSubsequence(s: seq<string>, t: seq<string>)
    decreases |t|
  {
    |s| == 0 ||
    (|t| != 0 && ((s[0] == t[0] && IsSubsequence(s[1..], t[1..])) || IsSubsequence(s, t[1..])))
  }

  /** The names whose verdict is "not intact", in vocabulary order. */
  function ViolatedTokens(vocab: Vocab, verdicts: map<nat, bool>): (r: seq<string>)
    requires Covered(vocab, verdicts)
    ensures forall t :: t in r <==> exists k :: 0 <= k < |vocab| && vocab[k].0 == t && !verdicts[vocab[k].1]
    ensures IsSubsequence(r, Names(vocab))
    ensures |r| <= |vocab|
    decreases |vocab|
  {
    if vocab == [] then []
    else
      var rest := ViolatedTokens(vocab[1..], verdicts);
      assert forall t :: t in rest <==> exists k :: 1 <= k < |vocab| && vocab[k].0 == t && !verdicts[vocab[k].1] by {
        forall t ensures t in rest ==> exists k :: 1 <= k < |vocab| && vocab[k].0 == t && !verdicts[vocab[k].1] {
          if t in rest {
            var k :| 0 <= k < |vocab[1..]| && vocab[1..][k].0 == t && !verdicts[vocab[1..][k].1];
            assert vocab[k + 1] == vocab[1..][k];
          }
        }
        forall t ensures (exists k :: 1 <= k < |vocab| && vocab[k].0 == t && !verdicts[vocab[k].1]) ==> t in rest {
          if exists k :: 1 <= k < |vocab| && vocab[k].0 == t && !verdicts[vocab[k].1] {
            var k :| 1 <= k < |vocab| && vocab[k].0 == t && !verdicts[vocab[k].1];
            assert vocab[1..][k - 1] == vocab[k];
          }
        }
      }
      if !verdicts[vocab[0].1] then [vocab[0].0] + rest else rest
  }

  /** No name is reported exactly when every verdict of the vocabulary is "intact". */
  lemma NoViolationsIffAllIntact(vocab: Vocab, verdicts: map<nat, bool>)
    requires Covered(vocab, verdicts)
    ensures ViolatedTokens(vocab, verdicts) == [] <==> forall k :: 0 <= k < |vocab| ==> verdicts[vocab[k].1]
  {
  }

  /** With distinct vocabulary names, no violated name is reported twice. */
  lemma {:induction false} ViolatedTokensDistinct(vocab: Vocab, verdicts: map<nat, bool>)
    requires Covered(vocab, verdicts)
    requires DistinctNames(vocab)
    ensures Distinct(ViolatedTokens(vocab, verdicts))
    decreases |vocab|
  {
    if vocab != [] {
      var tail := vocab[1..];
      assert Covered(tail, verdicts);
      assert DistinctNames(tail);
      ViolatedTokensDistinct(tail, verdicts);
      var rest := ViolatedTokens(tail, verdicts);
      if !verdicts[vocab[0].1] {
        assert vocab[0].0 !in rest;
        var r := [vocab[0].0] + rest;
        forall i, j | 0 <= i < j < |r| ensures r[i] != r[j] {
          if i == 0 {
            assert r[j] == rest[j - 1];
          } else {
            assert r[i] == rest[i - 1] && r[j] == rest[j - 1];
          }
        }
      }
    }
  }

  /** The history recorded in an audit file; a missing file is an empty history. */
  function LoadOrEmpty(file: LogFile): seq<Record> {
    match file
    case Missing => []
    case Present(records) => records
  }

  class AuditLogger {
    const logPath: string
    /** What is stored at `logPath`. */
    var file: LogFile

    /** A logger for the file at `logPath`, which currently holds `file`. */
    constructor (file: LogFile, logPath: string := DefaultLogPath)
      ensures this.logPath == logPath && this.file == file
    {
      this.logPath := logPath;
      this.file := file;
    }

    /** The persisted history. */
    function History(): seq<Record>
      reads this
    {
      LoadOrEmpty(file)
    }

    /** Builds the record of the names whose verdict is "not intact" and
        appends it to the history. Despite its name, `tamperedTokens` maps a
        token id to whether its row is intact. */
    method LogIntegrityViolation(tamperedTokens: map<nat, bool>, vocab: Vocab, embeddingFile: string, timestamp: string)
      requires Covered(vocab, tamperedTokens)
      modifies this
      ensures file == Present(old(History()) + [Record(timestamp, embeddingFile, ViolatedTokens(vocab, tamperedTokens))])
      ensures |History()| == |old(History())| + 1
      ensures History()[|History()| - 1].violatedTokens == ViolatedTokens(vocab, tamperedTokens)
    {
      var violatedTokens := ViolatedTokens(vocab, tamperedTokens);
      var record := Record(timestamp, embeddingFile, violatedTokens);
      Append(record);
    }

    /** Loads the history (empty when the file is missing), appends `record`
        and stores the whole history back. */
    method Append(record: Record)
      modifies this
      ensures file == Present(old(History()) + [record])
      ensures History()[..|old(History())|] == old(History())
      ensures old(file).Missing? ==> History() == [record]
    {
      var data := LoadOrEmpty(file);
      data := data + [record];
      file := Present(data);
    }
  }
}
