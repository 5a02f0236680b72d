/**
 * The integrity check stated and proved on a two-token vocabulary: a trusted
 * matrix is registered, a candidate whose second row was changed is
 * verified, and the violated names are derived from the verdicts.
 */
module IntegrityCheck {
  import opened Integrity
  import opened Audit

  /** Row 1 ("java") differs in the candidate and hashes differently: row 0
      is intact, row 1 is not, and only "java" is reported. */
  lemma TamperedSecondRow(hash: Vector -> Digest, row0: Vector, row1: Vector, changed: Vector)
    requires hash(row1) != hash(changed)
    ensures var ref := Registered(map[], [row0, row1], hash);
            AllRowsPresent(ref, [row0, changed]) &&
            Verdicts(ref, [row0, changed], hash) == map[0 := true, 1 := false] &&
            ViolatedTokens([("python", 0), ("java", 1)], Verdicts(ref, [row0, changed], hash)) == ["java"]
  {
    var rows := [row0, row1];
    var ref := Registered(map[], rows, hash);
    assert RegisterPrefix(map[], rows, hash, 1) == map[0 := hash(row0)];
    assert ref == map[0 := hash(row0), 1 := hash(row1)];
    assert Verdicts(ref, [row0, changed], hash) == map[0 := true, 1 := false];
  }
}
