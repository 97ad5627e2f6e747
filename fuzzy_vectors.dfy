/*
 * The literal dl_distance and prefix_matches vectors of tests/shared/fuzzy.py,
 * proved about the model of Fuzzy.  A non-trivial distance is established by
 * filling its table cell by cell with DistUnfold; each LastSeenIs call names
 * the last earlier occurrence that the transposition term of that cell uses.
 */
module FuzzyVectors {
  import opened Fuzzy

  /** EditD.test_1: two empty strings are at distance 0. */
  lemma DistanceEmptyEmpty()
    ensures Distance("", "") == 0
  {
  }

  /** EditD.test_6: the empty string is at distance 3 from "abc" (three insertions). */
  lemma DistanceEmptyAbc()
    ensures Distance("", "abc") == 3
  {
    DistBorder("", "abc", 0, 3);
  }

  // The distance table of "a" and "b", cell by cell.
  lemma ABTable(a: string, b: string)
    requires a == "a" && b == "b"
    ensures Dist(a, b, 1, 1) == 1
  {
    DistBorders(a, b);
    assert Dist(a, b, 1, 1) == 1 by { LastSeenIs(a, 0, b[0], 0); LastSeenIs(b, 0, a[0], 0); DistUnfold(a, b, 1, 1); }
  }

  /** EditD.test_2: one substitution. */
  lemma DistanceAB()
    ensures Distance("a", "b") == 1
  {
    ABTable("a", "b");
  }
  // The distance table of "ca" and "abc", cell by cell.
  lemma CaAbcTable(a: string, b: string)
    requires a == "ca" && b == "abc"
    ensures Dist(a, b, 2, 3) == 2
  {
    DistBorders(a, b);
    assert Dist(a, b, 1, 1) == 1 by { LastSeenIs(a, 0, b[0], 0); LastSeenIs(b, 0, a[0], 0); DistUnfold(a, b, 1, 1); }
    assert Dist(a, b, 1, 2) == 2 by { LastSeenIs(a, 0, b[1], 0); LastSeenIs(b, 1, a[0], 0); DistUnfold(a, b, 1, 2); }
    assert Dist(a, b, 1, 3) == 2 by { LastSeenIs(a, 0, b[2], 0); LastSeenIs(b, 2, a[0], 0); DistUnfold(a, b, 1, 3); }
    assert Dist(a, b, 2, 1) == 1 by { LastSeenIs(a, 1, b[0], 0); LastSeenIs(b, 0, a[1], 0); DistUnfold(a, b, 2, 1); }
    assert Dist(a, b, 2, 2) == 2 by { LastSeenIs(a, 1, b[1], 0); LastSeenIs(b, 1, a[1], 1); DistUnfold(a, b, 2, 2); }
    assert Dist(a, b, 2, 3) == 2 by { LastSeenIs(a, 1, b[2], 1); LastSeenIs(b, 2, a[1], 1); DistUnfold(a, b, 2, 3); }
  }

  /** EditD.test_3: "ca" to "abc" costs 2 (transpose, then insert between the swapped letters), which no restricted edit sequence achieves (see OsaCaAbc). */
  lemma DistanceCaAbc()
    ensures Distance("ca", "abc") == 2
  {
    CaAbcTable("ca", "abc");
  }
  // Rows 1..1 of the distance table of "cac" and "aca".
  lemma CacAcaRows1(a: string, b: string)
    requires a == "cac" && b == "aca"
    ensures Dist(a, b, 1, 1) == 1 && Dist(a, b, 1, 2) == 1 && Dist(a, b, 1, 3) == 2
  {
    DistBorders(a, b);
    assert Dist(a, b, 1, 1) == 1 by { LastSeenIs(a, 0, b[0], 0); LastSeenIs(b, 0, a[0], 0); DistUnfold(a, b, 1, 1); }
    assert Dist(a, b, 1, 2) == 1 by { LastSeenIs(a, 0, b[1], 0); LastSeenIs(b, 1, a[0], 0); DistUnfold(a, b, 1, 2); }
    assert Dist(a, b, 1, 3) == 2 by { LastSeenIs(a, 0, b[2], 0); LastSeenIs(b, 2, a[0], 2); DistUnfold(a, b, 1, 3); }
  }

  // Rows 1..2 of the distance table of "cac" and "aca".
  lemma CacAcaRows2(a: string, b: string)
    requires a == "cac" && b == "aca"
    ensures Dist(a, b, 1, 1) == 1 && Dist(a, b, 1, 2) == 1 && Dist(a, b, 1, 3) == 2
    ensures Dist(a, b, 2, 1) == 1 && Dist(a, b, 2, 2) == 1 && Dist(a, b, 2, 3) == 1
  {
    CacAcaRows1(a, b);
    DistBorders(a, b);
    assert Dist(a, b, 2, 1) == 1 by { LastSeenIs(a, 1, b[0], 0); LastSeenIs(b, 0, a[1], 0); DistUnfold(a, b, 2, 1); }
    assert Dist(a, b, 2, 2) == 1 by { LastSeenIs(a, 1, b[1], 1); LastSeenIs(b, 1, a[1], 1); DistUnfold(a, b, 2, 2); }
    assert Dist(a, b, 2, 3) == 1 by { LastSeenIs(a, 1, b[2], 0); LastSeenIs(b, 2, a[1], 1); DistUnfold(a, b, 2, 3); }
  }

  // Rows 1..3 of the distance table of "cac" and "aca".
  lemma CacAcaRows3(a: string, b: string)
    requires a == "cac" && b == "aca"
    ensures Dist(a, b, 3, 3) == 2
  {
    CacAcaRows2(a, b);
    DistBorders(a, b);
    assert Dist(a, b, 3, 1) == 2 by { LastSeenIs(a, 2, b[0], 2); LastSeenIs(b, 0, a[2], 0); DistUnfold(a, b, 3, 1); }
    assert Dist(a, b, 3, 2) == 1 by { LastSeenIs(a, 2, b[1], 1); LastSeenIs(b, 1, a[2], 0); DistUnfold(a, b, 3, 2); }
    assert Dist(a, b, 3, 3) == 2 by { LastSeenIs(a, 2, b[2], 2); LastSeenIs(b, 2, a[2], 2); DistUnfold(a, b, 3, 3); }
  }

  /** EditD.test_4: "cac" and "aca" are at distance 2. */
  lemma DistanceCacAca()
    ensures Distance("cac", "aca") == 2
  {
    CacAcaRows3("cac", "aca");
  }
  // Rows 1..1 of the distance table of "cacaca" and "acacac".
  lemma CacacaRows1(a: string, b: string)
    requires a == "cacaca" && b == "acacac"
    ensures Dist(a, b, 1, 1) == 1 && Dist(a, b, 1, 2) == 1 && Dist(a, b, 1, 3) == 2 && Dist(a, b, 1, 4) == 3 && Dist(a, b, 1, 5) == 4 && Dist(a, b, 1, 6) == 5
  {
    DistBorders(a, b);
    assert Dist(a, b, 1, 1) == 1 by { LastSeenIs(a, 0, b[0], 0); LastSeenIs(b, 0, a[0], 0); DistUnfold(a, b, 1, 1); }
    assert Dist(a, b, 1, 2) == 1 by { LastSeenIs(a, 0, b[1], 0); LastSeenIs(b, 1, a[0], 0); DistUnfold(a, b, 1, 2); }
    assert Dist(a, b, 1, 3) == 2 by { LastSeenIs(a, 0, b[2], 0); LastSeenIs(b, 2, a[0], 2); DistUnfold(a, b, 1, 3); }
    assert Dist(a, b, 1, 4) == 3 by { LastSeenIs(a, 0, b[3], 0); LastSeenIs(b, 3, a[0], 2); DistUnfold(a, b, 1, 4); }
    assert Dist(a, b, 1, 5) == 4 by { LastSeenIs(a, 0, b[4], 0); LastSeenIs(b, 4, a[0], 4); DistUnfold(a, b, 1, 5); }
    assert Dist(a, b, 1, 6) == 5 by { LastSeenIs(a, 0, b[5], 0); LastSeenIs(b, 5, a[0], 4); DistUnfold(a, b, 1, 6); }
  }

  // Rows 1..2 of the distance table of "cacaca" and "acacac".
  lemma CacacaRows2(a: string, b: string)
    requires a == "cacaca" && b == "acacac"
    ensures Dist(a, b, 1, 1) == 1 && Dist(a, b, 1, 2) == 1 && Dist(a, b, 1, 3) == 2 && Dist(a, b, 1, 4) == 3 && Dist(a, b, 1, 5) == 4 && Dist(a, b, 1, 6) == 5
    ensures Dist(a, b, 2, 1) == 1 && Dist(a, b, 2, 2) == 1 && Dist(a, b, 2, 3) == 1 && Dist(a, b, 2, 4) == 2 && Dist(a, b, 2, 5) == 3 && Dist(a, b, 2, 6) == 4
  {
    CacacaRows1(a, b);
    DistBorders(a, b);
    assert Dist(a, b, 2, 1) == 1 by { LastSeenIs(a, 1, b[0], 0); LastSeenIs(b, 0, a[1], 0); DistUnfold(a, b, 2, 1); }
    assert Dist(a, b, 2, 2) == 1 by { LastSeenIs(a, 1, b[1], 1); LastSeenIs(b, 1, a[1], 1); DistUnfold(a, b, 2, 2); }
    assert Dist(a, b, 2, 3) == 1 by { LastSeenIs(a, 1, b[2], 0); LastSeenIs(b, 2, a[1], 1); DistUnfold(a, b, 2, 3); }
    assert Dist(a, b, 2, 4) == 2 by { LastSeenIs(a, 1, b[3], 1); LastSeenIs(b, 3, a[1], 3); DistUnfold(a, b, 2, 4); }
    assert Dist(a, b, 2, 5) == 3 by { LastSeenIs(a, 1, b[4], 0); LastSeenIs(b, 4, a[1], 3); DistUnfold(a, b, 2, 5); }
    assert Dist(a, b, 2, 6) == 4 by { LastSeenIs(a, 1, b[5], 1); LastSeenIs(b, 5, a[1], 5); DistUnfold(a, b, 2, 6); }
  }

  // Rows 1..3 of the distance table of "cacaca" and "acacac".
  lemma CacacaRows3(a: string, b: string)
    requires a == "cacaca" && b == "acacac"
    ensures Dist(a, b, 1, 1) == 1 && Dist(a, b, 1, 2) == 1 && Dist(a, b, 1, 3) == 2 && Dist(a, b, 1, 4) == 3 && Dist(a, b, 1, 5) == 4 && Dist(a, b, 1, 6) == 5
    ensures Dist(a, b, 2, 1) == 1 && Dist(a, b, 2, 2) == 1 && Dist(a, b, 2, 3) == 1 && Dist(a, b, 2, 4) == 2 && Dist(a, b, 2, 5) == 3 && Dist(a, b, 2, 6) == 4
    ensures Dist(a, b, 3, 1) == 2 && Dist(a, b, 3, 2) == 1 && Dist(a, b, 3, 3) == 2 && Dist(a, b, 3, 4) == 1 && Dist(a, b, 3, 5) == 2 && Dist(a, b, 3, 6) == 3
  {
    CacacaRows2(a, b);
    DistBorders(a, b);
    assert Dist(a, b, 3, 1) == 2 by { LastSeenIs(a, 2, b[0], 2); LastSeenIs(b, 0, a[2], 0); DistUnfold(a, b, 3, 1); }
    assert Dist(a, b, 3, 2) == 1 by { LastSeenIs(a, 2, b[1], 1); LastSeenIs(b, 1, a[2], 0); DistUnfold(a, b, 3, 2); }
    assert Dist(a, b, 3, 3) == 2 by { LastSeenIs(a, 2, b[2], 2); LastSeenIs(b, 2, a[2], 2); DistUnfold(a, b, 3, 3); }
    assert Dist(a, b, 3, 4) == 1 by { LastSeenIs(a, 2, b[3], 1); LastSeenIs(b, 3, a[2], 2); DistUnfold(a, b, 3, 4); }
    assert Dist(a, b, 3, 5) == 2 by { LastSeenIs(a, 2, b[4], 2); LastSeenIs(b, 4, a[2], 4); DistUnfold(a, b, 3, 5); }
    assert Dist(a, b, 3, 6) == 3 by { LastSeenIs(a, 2, b[5], 1); LastSeenIs(b, 5, a[2], 4); DistUnfold(a, b, 3, 6); }
  }

  // Rows 1..4 of the distance table of "cacaca" and "acacac".
  lemma CacacaRows4(a: string, b: string)
    requires a == "cacaca" && b == "acacac"
    ensures Dist(a, b, 1, 1) == 1 && Dist(a, b, 1, 2) == 1 && Dist(a, b, 1, 3) == 2 && Dist(a, b, 1, 4) == 3 && Dist(a, b, 1, 5) == 4 && Dist(a, b, 1, 6) == 5
    ensures Dist(a, b, 2, 1) == 1 && Dist(a, b, 2, 2) == 1 && Dist(a, b, 2, 3) == 1 && Dist(a, b, 2, 4) == 2 && Dist(a, b, 2, 5) == 3 && Dist(a, b, 2, 6) == 4
    ensures Dist(a, b, 3, 1) == 2 && Dist(a, b, 3, 2) == 1 && Dist(a, b, 3, 3) == 2 && Dist(a, b, 3, 4) == 1 && Dist(a, b, 3, 5) == 2 && Dist(a, b, 3, 6) == 3
    ensures Dist(a, b, 4, 1) == 3 && Dist(a, b, 4, 2) == 2 && Dist(a, b, 4, 3) == 1 && Dist(a, b, 4, 4) == 2 && Dist(a, b, 4, 5) == 1 && Dist(a, b, 4, 6) == 2
  {
    CacacaRows3(a, b);
    DistBorders(a, b);
    assert Dist(a, b, 4, 1) == 3 by { LastSeenIs(a, 3, b[0], 2); LastSeenIs(b, 0, a[3], 0); DistUnfold(a, b, 4, 1); }
    assert Dist(a, b, 4, 2) == 2 by { LastSeenIs(a, 3, b[1], 3); LastSeenIs(b, 1, a[3], 1); DistUnfold(a, b, 4, 2); }
    assert Dist(a, b, 4, 3) == 1 by { LastSeenIs(a, 3, b[2], 2); LastSeenIs(b, 2, a[3], 1); DistUnfold(a, b, 4, 3); }
    assert Dist(a, b, 4, 4) == 2 by { LastSeenIs(a, 3, b[3], 3); LastSeenIs(b, 3, a[3], 3); DistUnfold(a, b, 4, 4); }
    assert Dist(a, b, 4, 5) == 1 by { LastSeenIs(a, 3, b[4], 2); LastSeenIs(b, 4, a[3], 3); DistUnfold(a, b, 4, 5); }
    assert Dist(a, b, 4, 6) == 2 by { LastSeenIs(a, 3, b[5], 3); LastSeenIs(b, 5, a[3], 5); DistUnfold(a, b, 4, 6); }
  }

  // Rows 1..5 of the distance table of "cacaca" and "acacac".
  lemma CacacaRows5(a: string, b: string)
    requires a == "cacaca" && b == "acacac"
    ensures Dist(a, b, 1, 1) == 1 && Dist(a, b, 1, 2) == 1 && Dist(a, b, 1, 3) == 2 && Dist(a, b, 1, 4) == 3 && Dist(a, b, 1, 5) == 4 && Dist(a, b, 1, 6) == 5
    ensures Dist(a, b, 2, 1) == 1 && Dist(a, b, 2, 2) == 1 && Dist(a, b, 2, 3) == 1 && Dist(a, b, 2, 4) == 2 && Dist(a, b, 2, 5) == 3 && Dist(a, b, 2, 6) == 4
    ensures Dist(a, b, 3, 1) == 2 && Dist(a, b, 3, 2) == 1 && Dist(a, b, 3, 3) == 2 && Dist(a, b, 3, 4) == 1 && Dist(a, b, 3, 5) == 2 && Dist(a, b, 3, 6) == 3
    ensures Dist(a, b, 4, 1) == 3 && Dist(a, b, 4, 2) == 2 && Dist(a, b, 4, 3) == 1 && Dist(a, b, 4, 4) == 2 && Dist(a, b, 4, 5) == 1 && Dist(a, b, 4, 6) == 2
    ensures Dist(a, b, 5, 1) == 4 && Dist(a, b, 5, 2) == 3 && Dist(a, b, 5, 3) == 2 && Dist(a, b, 5, 4) == 1 && Dist(a, b, 5, 5) == 2 && Dist(a, b, 5, 6) == 1
  {
    CacacaRows4(a, b);
    DistBorders(a, b);
    assert Dist(a, b, 5, 1) == 4 by { LastSeenIs(a, 4, b[0], 4); LastSeenIs(b, 0, a[4], 0); DistUnfold(a, b, 5, 1); }
    assert Dist(a, b, 5, 2) == 3 by { LastSeenIs(a, 4, b[1], 3); LastSeenIs(b, 1, a[4], 0); DistUnfold(a, b, 5, 2); }
    assert Dist(a, b, 5, 3) == 2 by { LastSeenIs(a, 4, b[2], 4); LastSeenIs(b, 2, a[4], 2); DistUnfold(a, b, 5, 3); }
    assert Dist(a, b, 5, 4) == 1 by { LastSeenIs(a, 4, b[3], 3); LastSeenIs(b, 3, a[4], 2); DistUnfold(a, b, 5, 4); }
    assert Dist(a, b, 5, 5) == 2 by { LastSeenIs(a, 4, b[4], 4); LastSeenIs(b, 4, a[4], 4); DistUnfold(a, b, 5, 5); }
    assert Dist(a, b, 5, 6) == 1 by { LastSeenIs(a, 4, b[5], 3); LastSeenIs(b, 5, a[4], 4); DistUnfold(a, b, 5, 6); }
  }

  // Rows 1..6 of the distance table of "cacaca" and "acacac".
  lemma CacacaRows6(a: string, b: string)
    requires a == "cacaca" && b == "acacac"
    ensures Dist(a, b, 6, 6) == 2
  {
    CacacaRows5(a, b);
    DistBorders(a, b);
    assert Dist(a, b, 6, 1) == 5 by { LastSeenIs(a, 5, b[0], 4); LastSeenIs(b, 0, a[5], 0); DistUnfold(a, b, 6, 1); }
    assert Dist(a, b, 6, 2) == 4 by { LastSeenIs(a, 5, b[1], 5); LastSeenIs(b, 1, a[5], 1); DistUnfold(a, b, 6, 2); }
    assert Dist(a, b, 6, 3) == 3 by { LastSeenIs(a, 5, b[2], 4); LastSeenIs(b, 2, a[5], 1); DistUnfold(a, b, 6, 3); }
    assert Dist(a, b, 6, 4) == 2 by { LastSeenIs(a, 5, b[3], 5); LastSeenIs(b, 3, a[5], 3); DistUnfold(a, b, 6, 4); }
    assert Dist(a, b, 6, 5) == 1 by { LastSeenIs(a, 5, b[4], 4); LastSeenIs(b, 4, a[5], 3); DistUnfold(a, b, 6, 5); }
    assert Dist(a, b, 6, 6) == 2 by { LastSeenIs(a, 5, b[5], 5); LastSeenIs(b, 5, a[5], 5); DistUnfold(a, b, 6, 6); }
  }

  /** EditD.test_5: "cacaca" and "acacac" are at distance 2 (delete the leading letter, append one at the end). */
  lemma DistanceCacacaAcacac()
    ensures Distance("cacaca", "acacac") == 2
  {
    CacacaRows6("cacaca", "acacac");
  }
  // The distance table of "ab" and "bca", cell by cell.
  lemma AbBcaTable(a: string, b: string)
    requires a == "ab" && b == "bca"
    ensures Dist(a, b, 2, 3) == 2
  {
    DistBorders(a, b);
    assert Dist(a, b, 1, 1) == 1 by { LastSeenIs(a, 0, b[0], 0); LastSeenIs(b, 0, a[0], 0); DistUnfold(a, b, 1, 1); }
    assert Dist(a, b, 1, 2) == 2 by { LastSeenIs(a, 0, b[1], 0); LastSeenIs(b, 1, a[0], 0); DistUnfold(a, b, 1, 2); }
    assert Dist(a, b, 1, 3) == 2 by { LastSeenIs(a, 0, b[2], 0); LastSeenIs(b, 2, a[0], 0); DistUnfold(a, b, 1, 3); }
    assert Dist(a, b, 2, 1) == 1 by { LastSeenIs(a, 1, b[0], 0); LastSeenIs(b, 0, a[1], 0); DistUnfold(a, b, 2, 1); }
    assert Dist(a, b, 2, 2) == 2 by { LastSeenIs(a, 1, b[1], 0); LastSeenIs(b, 1, a[1], 1); DistUnfold(a, b, 2, 2); }
    assert Dist(a, b, 2, 3) == 2 by { LastSeenIs(a, 1, b[2], 1); LastSeenIs(b, 2, a[1], 1); DistUnfold(a, b, 2, 3); }
  }

  /** EditD.test_7: "ab" to "bca" costs 2 (see OsaAbBca for the restricted variant). */
  lemma DistanceAbBca()
    ensures Distance("ab", "bca") == 2
  {
    AbBcaTable("ab", "bca");
  }
  // Rows 1..1 of the distance table of "badc" and "abcd".
  lemma BadcAbcdRows1(a: string, b: string)
    requires a == "badc" && b == "abcd"
    ensures Dist(a, b, 1, 1) == 1 && Dist(a, b, 1, 2) == 1 && Dist(a, b, 1, 3) == 2 && Dist(a, b, 1, 4) == 3
  {
    DistBorders(a, b);
    assert Dist(a, b, 1, 1) == 1 by { LastSeenIs(a, 0, b[0], 0); LastSeenIs(b, 0, a[0], 0); DistUnfold(a, b, 1, 1); }
    assert Dist(a, b, 1, 2) == 1 by { LastSeenIs(a, 0, b[1], 0); LastSeenIs(b, 1, a[0], 0); DistUnfold(a, b, 1, 2); }
    assert Dist(a, b, 1, 3) == 2 by { LastSeenIs(a, 0, b[2], 0); LastSeenIs(b, 2, a[0], 2); DistUnfold(a, b, 1, 3); }
    assert Dist(a, b, 1, 4) == 3 by { LastSeenIs(a, 0, b[3], 0); LastSeenIs(b, 3, a[0], 2); DistUnfold(a, b, 1, 4); }
  }

  // Rows 1..2 of the distance table of "badc" and "abcd".
  lemma BadcAbcdRows2(a: string, b: string)
    requires a == "badc" && b == "abcd"
    ensures Dist(a, b, 1, 1) == 1 && Dist(a, b, 1, 2) == 1 && Dist(a, b, 1, 3) == 2 && Dist(a, b, 1, 4) == 3
    ensures Dist(a, b, 2, 1) == 1 && Dist(a, b, 2, 2) == 1 && Dist(a, b, 2, 3) == 2 && Dist(a, b, 2, 4) == 3
  {
    BadcAbcdRows1(a, b);
    DistBorders(a, b);
    assert Dist(a, b, 2, 1) == 1 by { LastSeenIs(a, 1, b[0], 0); LastSeenIs(b, 0, a[1], 0); DistUnfold(a, b, 2, 1); }
    assert Dist(a, b, 2, 2) == 1 by { LastSeenIs(a, 1, b[1], 1); LastSeenIs(b, 1, a[1], 1); DistUnfold(a, b, 2, 2); }
    assert Dist(a, b, 2, 3) == 2 by { LastSeenIs(a, 1, b[2], 0); LastSeenIs(b, 2, a[1], 1); DistUnfold(a, b, 2, 3); }
    assert Dist(a, b, 2, 4) == 3 by { LastSeenIs(a, 1, b[3], 0); LastSeenIs(b, 3, a[1], 1); DistUnfold(a, b, 2, 4); }
  }

  // Rows 1..3 of the distance table of "badc" and "abcd".
  lemma BadcAbcdRows3(a: string, b: string)
    requires a == "badc" && b == "abcd"
    ensures Dist(a, b, 1, 1) == 1 && Dist(a, b, 1, 2) == 1 && Dist(a, b, 1, 3) == 2 && Dist(a, b, 1, 4) == 3
    ensures Dist(a, b, 2, 1) == 1 && Dist(a, b, 2, 2) == 1 && Dist(a, b, 2, 3) == 2 && Dist(a, b, 2, 4) == 3
    ensures Dist(a, b, 3, 1) == 2 && Dist(a, b, 3, 2) == 2 && Dist(a, b, 3, 3) == 2 && Dist(a, b, 3, 4) == 2
  {
    BadcAbcdRows2(a, b);
    DistBorders(a, b);
    assert Dist(a, b, 3, 1) == 2 by { LastSeenIs(a, 2, b[0], 2); LastSeenIs(b, 0, a[2], 0); DistUnfold(a, b, 3, 1); }
    assert Dist(a, b, 3, 2) == 2 by { LastSeenIs(a, 2, b[1], 1); LastSeenIs(b, 1, a[2], 0); DistUnfold(a, b, 3, 2); }
    assert Dist(a, b, 3, 3) == 2 by { LastSeenIs(a, 2, b[2], 0); LastSeenIs(b, 2, a[2], 0); DistUnfold(a, b, 3, 3); }
    assert Dist(a, b, 3, 4) == 2 by { LastSeenIs(a, 2, b[3], 0); LastSeenIs(b, 3, a[2], 0); DistUnfold(a, b, 3, 4); }
  }

  // Rows 1..4 of the distance table of "badc" and "abcd".
  lemma BadcAbcdRows4(a: string, b: string)
    requires a == "badc" && b == "abcd"
    ensures Dist(a, b, 4, 4) == 2
  {
    BadcAbcdRows3(a, b);
    DistBorders(a, b);
    assert Dist(a, b, 4, 1) == 3 by { LastSeenIs(a, 3, b[0], 2); LastSeenIs(b, 0, a[3], 0); DistUnfold(a, b, 4, 1); }
    assert Dist(a, b, 4, 2) == 3 by { LastSeenIs(a, 3, b[1], 1); LastSeenIs(b, 1, a[3], 0); DistUnfold(a, b, 4, 2); }
    assert Dist(a, b, 4, 3) == 2 by { LastSeenIs(a, 3, b[2], 0); LastSeenIs(b, 2, a[3], 0); DistUnfold(a, b, 4, 3); }
    assert Dist(a, b, 4, 4) == 2 by { LastSeenIs(a, 3, b[3], 3); LastSeenIs(b, 3, a[3], 3); DistUnfold(a, b, 4, 4); }
  }

  /** EditD.test_8: two adjacent transpositions. */
  lemma DistanceBadcAbcd()
    ensures Distance("badc", "abcd") == 2
  {
    BadcAbcdRows4("badc", "abcd");
  }
  /** EditD.test_9: "supervisor" is "pervisor" with "su" in front, so the distance is 2. */
  lemma DistanceSupervisorPervisor()
    ensures Distance("supervisor", "pervisor") == 2
  {
    assert "supervisor" == "su" + "pervisor";
    DistanceDeletedPrefix("su", "pervisor");
  }

  /**
   * The optimal-string-alignment variant, which never edits a transposed pair again,
   * gives 3 on the vectors of EditD.test_3 and EditD.test_7: those vectors are what
   * distinguish the unrestricted distance.
   */
  lemma OsaCaAbc(a: string, b: string)
    requires a == "ca" && b == "abc"
    ensures Osa(a, b, 2, 3) == 3 && Distance(a, b) == 2
  {
    assert Osa(a, b, 1, 1) == 1;
    assert Osa(a, b, 1, 2) == 2;
    assert Osa(a, b, 1, 3) == 2;
    assert Osa(a, b, 2, 1) == 1;
    assert Osa(a, b, 2, 2) == 2;
    CaAbcTable(a, b);
  }

  lemma OsaAbBca(a: string, b: string)
    requires a == "ab" && b == "bca"
    ensures Osa(a, b, 2, 3) == 3 && Distance(a, b) == 2
  {
    assert Osa(a, b, 1, 1) == 1;
    assert Osa(a, b, 1, 2) == 2;
    assert Osa(a, b, 1, 3) == 2;
    assert Osa(a, b, 2, 1) == 1;
    assert Osa(a, b, 2, 2) == 2;
    AbBcaTable(a, b);
  }

  /** Metrics.test_1: "ab" is a prefix of "abab". */
  lemma PrefixAbAbab()
    ensures PrefixMatches("ab", "abab") == 2
  {
    PrefixMatchesLongest("ab", "abab", 2);
  }

  /** Metrics.test_2: "ab" and "ac" share one letter. */
  lemma PrefixAbAc()
    ensures PrefixMatches("ab", "ac") == 1
  {
    PrefixMatchesLongest("ab", "ac", 1);
  }

  /** Metrics.test_3: "abc" and "abd" share two letters. */
  lemma PrefixAbcAbd()
    ensures PrefixMatches("abc", "abd") == 2
  {
    PrefixMatchesLongest("abc", "abd", 2);
  }

  /** Metrics.test_4 and test_5: a match in the middle is not a prefix match. */
  lemma PrefixInfixNotCounted()
    ensures PrefixMatches("per", "supervisor") == 0
    ensures PrefixMatches("uper", "supervisor") == 0
  {
    PrefixMatchesLongest("per", "supervisor", 0);
    PrefixMatchesLongest("uper", "supervisor", 0);
  }

  /** Metrics.test_6: strings with no letter in common. */
  lemma Prefix0011()
    ensures PrefixMatches("00", "11") == 0
  {
    PrefixMatchesLongest("00", "11", 0);
  }
}
