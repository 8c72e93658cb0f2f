/** The statistics of one user's progress rows: how many words were practised,
    how many are mastered, and the attempt totals and overall accuracy. */
module WordStats {
  import opened Wrappers
  import opened WordProgress

  datatype Stats = Stats(
    totalWordsPracticed: nat,
    masteredWords: nat,
    accuracy: real,
    totalAttempts: nat,
    totalCorrect: nat,
    totalIncorrect: nat)

  /** The number of rows whose mastered flag is set. */
  function CountMastered(rows: seq<ProgressRecord>): (n: nat)
    ensures n <= |rows|
    ensures n == 0 <==> forall j :: 0 <= j < |rows| ==> !rows[j].isMastered
  {
    if rows == [] then 0
    else (if rows[0].isMastered then 1 else 0) + CountMastered(rows[1..])
  }

  function SumCorrect(rows: seq<ProgressRecord>): nat {
    if rows == [] then 0 else rows[0].correctCount + SumCorrect(rows[1..])
  }

  function SumIncorrect(rows: seq<ProgressRecord>): nat {
    if rows == [] then 0 else rows[0].incorrectCount + SumIncorrect(rows[1..])
  }

  /** The statistics of `rows`; the accuracy is the share of correct attempts
      over all rows, not an average of the rows' accuracies. */
  function UserStats(rows: seq<ProgressRecord>): (s: Stats)
    ensures s.totalWordsPracticed == |rows|
    ensures s.masteredWords <= s.totalWordsPracticed
    ensures s.totalAttempts == s.totalCorrect + s.totalIncorrect
    ensures 0.0 <= s.accuracy <= 100.0
    ensures s.totalAttempts == 0 ==> s.accuracy == 0.0
    ensures s.totalAttempts > 0 ==> s.accuracy * s.totalAttempts as real == 100.0 * s.totalCorrect as real
  {
    var correct := SumCorrect(rows);
    var incorrect := SumIncorrect(rows);
    var attempts := correct + incorrect;
    Stats(|rows|, CountMastered(rows),
          Percentage(correct, attempts),
          attempts, correct, incorrect)
  }

  /** The folds split over a concatenation. */
  lemma {:induction false} FoldsAppend(a: seq<ProgressRecord>, b: seq<ProgressRecord>)
    ensures SumCorrect(a + b) == SumCorrect(a) + SumCorrect(b)
    ensures SumIncorrect(a + b) == SumIncorrect(a) + SumIncorrect(b)
    ensures CountMastered(a + b) == CountMastered(a) + CountMastered(b)
  {
    if a != [] {
      assert (a + b)[1..] == a[1..] + b;
      FoldsAppend(a[1..], b);
    } else {
      assert a + b == b;
    }
  }

  lemma RemoveMatching(a: seq<ProgressRecord>, b: seq<ProgressRecord>, j: nat)
    requires a != [] && j < |b| && b[j] == a[0]
    requires multiset(a) == multiset(b)
    ensures multiset(a[1..]) == multiset(b[..j] + b[j + 1..])
  {
    assert b == b[..j] + [b[j]] + b[j + 1..];
    assert a == [a[0]] + a[1..];
    calc {
      multiset(a[1..]);
      multiset(a) - multiset{a[0]};
      multiset(b) - multiset{b[j]};
      multiset(b[..j]) + multiset(b[j + 1..]);
      multiset(b[..j] + b[j + 1..]);
    }
  }

  lemma FoldsWithout(b: seq<ProgressRecord>, j: nat)
    requires j < |b|
    ensures var rest := b[..j] + b[j + 1..];
      && SumCorrect(b) == b[j].correctCount + SumCorrect(rest)
      && SumIncorrect(b) == b[j].incorrectCount + SumIncorrect(rest)
      && CountMastered(b) == (if b[j].isMastered then 1 else 0) + CountMastered(rest)
  {
    assert b == b[..j] + ([b[j]] + b[j + 1..]);
    FoldsAppend(b[..j], [b[j]] + b[j + 1..]);
    FoldsAppend([b[j]], b[j + 1..]);
    FoldsAppend(b[..j], b[j + 1..]);
  }

  /** The folds do not depend on the order of the rows. */
  lemma {:induction false} FoldsOfPermutation(a: seq<ProgressRecord>, b: seq<ProgressRecord>)
    requires multiset(a) == multiset(b)
    ensures SumCorrect(a) == SumCorrect(b)
    ensures SumIncorrect(a) == SumIncorrect(b)
    ensures CountMastered(a) == CountMastered(b)
    decreases |a|
  {
    if a == [] {
      assert |b| == |multiset(b)| == 0;
    } else {
      assert a[0] in multiset(b);
      var j :| 0 <= j < |b| && b[j] == a[0];
      RemoveMatching(a, b, j);
      FoldsOfPermutation(a[1..], b[..j] + b[j + 1..]);
      FoldsWithout(b, j);
    }
  }

  /** The statistics do not depend on the order in which the rows come. */
  lemma StatsOfPermutation(a: seq<ProgressRecord>, b: seq<ProgressRecord>)
    requires multiset(a) == multiset(b)
    ensures UserStats(a) == UserStats(b)
  {
    FoldsOfPermutation(a, b);
    assert |a| == |multiset(a)| == |multiset(b)| == |b|;
  }

  /** Over rows that have been practised (each consistent), there are at least
      as many attempts as rows, and every mastered word brings at least 8
      correct answers. */
  lemma {:induction false} StatsOfPractisedRows(rows: seq<ProgressRecord>)
    requires forall j :: 0 <= j < |rows| ==> Consistent(rows[j])
    ensures UserStats(rows).totalAttempts >= UserStats(rows).totalWordsPracticed
    ensures 10 * UserStats(rows).masteredWords * MasteryThreshold <= 10 * 10 * UserStats(rows).totalCorrect
  {
    if rows != [] {
      StatsOfPractisedRows(rows[1..]);
      if rows[0].isMastered {
        MasteredNeedsEightCorrect(rows[0].correctCount, rows[0].incorrectCount);
      }
    }
  }

  /** The worked example: rows (8, 2) and (3, 0) give 13 attempts, 11 correct,
      one mastered word and an accuracy of 1100/13, which is 84.62 to two
      decimals. */
  lemma StatsExample()
    ensures var rows := [Recomputed(ProgressRecord(1, 1, 8, 2, None, false, 0)),
                         Recomputed(ProgressRecord(1, 2, 3, 0, None, false, 0))];
      var s := UserStats(rows);
      && s.totalWordsPracticed == 2 && s.masteredWords == 1
      && s.totalAttempts == 13 && s.totalCorrect == 11 && s.totalIncorrect == 2
      && 84.615 <= s.accuracy < 84.625
  {
    MasteryExamples();
    var rows := [Recomputed(ProgressRecord(1, 1, 8, 2, None, false, 0)),
                 Recomputed(ProgressRecord(1, 2, 3, 0, None, false, 0))];
    assert rows[1..] == [rows[1]];
    assert UserStats(rows).accuracy * 13.0 == 1100.0;
  }
}
