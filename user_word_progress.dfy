/** The per-(user, word) progress record: its attempt counters, the accuracy
    derived from them, and the mastery level that blends how often the word was
    answered correctly with how often it was practised. */
module WordProgress {
  import opened Wrappers
  import opened Rounding

  /** Attempts after which the practice factor stops growing. */
  const PracticeSaturation: nat := 10
  /** Mastery level from which a word counts as mastered. */
  const MasteryThreshold: nat := 80

  /** The instant of the last practice; the clock itself is outside the model. */
  type Timestamp = nat

  /** The value of one progress row. */
  datatype ProgressRecord = ProgressRecord(
    userId: nat,
    wordId: nat,
    correctCount: nat,
    incorrectCount: nat,
    lastPracticed: Option<Timestamp>,
    isMastered: bool,
    masteryLevel: nat)
  {
    function Total(): nat { correctCount + incorrectCount }
  }

  /** A row as the column defaults make it: no attempts, not mastered, level 0. */
  function NewRecord(userId: nat, wordId: nat): ProgressRecord {
    ProgressRecord(userId, wordId, 0, 0, None, false, 0)
  }

  /** `part` as a percentage of `whole`, 0 when `whole` is 0 (exact; the
      source rounds it to two decimals). */
  function Percentage(part: nat, whole: nat): (r: real)
    requires part <= whole
    ensures 0.0 <= r <= 100.0
    ensures whole == 0 ==> r == 0.0
    ensures r == 0.0 <==> part == 0
    ensures r == 100.0 <==> 0 < whole == part
    ensures whole > 0 ==> r * whole as real == 100.0 * part as real
  {
    if whole == 0 then 0.0
    else
      var r := 100.0 * part as real / whole as real;
      assert r * whole as real == 100.0 * part as real;
      r
  }

  /** The mastery level of a word with `correct` and `incorrect` attempts:
      accuracy factor correct / total times practice factor min(total / 10, 1),
      as a percentage, both factors kept as exact fractions and the product
      rounded once. */
  function MasteryLevel(correct: nat, incorrect: nat): nat {
    var total := correct + incorrect;
    if total == 0 then 0
    else
      // practice factor pn / pd
      var pn := if total < PracticeSaturation then total else 1;
      var pd := if total < PracticeSaturation then PracticeSaturation else 1;
      RoundHalfEven(correct * pn * 100, total * pd)
  }

  predicate IsMasteredLevel(level: nat) {
    level >= MasteryThreshold
  }

  /** Below the saturation point the factors cancel to exactly 10 points per
      correct answer. */
  lemma MasteryBeforeSaturation(correct: nat, incorrect: nat)
    requires 0 < correct + incorrect < PracticeSaturation
    ensures MasteryLevel(correct, incorrect) == 10 * correct
  {
    var total := correct + incorrect;
    assert correct * total * 100 == (10 * correct) * (total * PracticeSaturation);
    RoundExact(10 * correct, total * PracticeSaturation);
  }

  /** From the saturation point on the practice factor is 1 and the level is
      the accuracy percentage rounded to the nearest integer. */
  lemma MasteryAtSaturation(correct: nat, incorrect: nat)
    requires correct + incorrect >= PracticeSaturation
    ensures MasteryLevel(correct, incorrect) == RoundHalfEven(100 * correct, correct + incorrect)
    ensures var m, t := MasteryLevel(correct, incorrect), correct + incorrect;
      200 * correct <= 2 * t * m + t && 2 * t * m <= 200 * correct + t
  {
    assert correct * 1 * 100 == 100 * correct;
  }

  /** The level is a percentage, and nothing correct means level 0. */
  lemma MasteryRange(correct: nat, incorrect: nat)
    ensures MasteryLevel(correct, incorrect) <= 100
    ensures correct == 0 ==> MasteryLevel(correct, incorrect) == 0
  {
    var total := correct + incorrect;
    if 0 < total < PracticeSaturation {
      MasteryBeforeSaturation(correct, incorrect);
    } else if total >= PracticeSaturation {
      MasteryAtSaturation(correct, incorrect);
      RoundAtMost(100 * correct, total, 100);
      if correct == 0 { RoundAtMost(0, total, 0); }
    }
  }

  /** When a word counts as mastered: below the saturation point, with at least
      8 correct answers; from it on, with an accuracy of at least 79.5 percent
      (a tie at exactly 79.5 rounds to the even 80). */
  lemma MasteredIff(correct: nat, incorrect: nat)
    ensures IsMasteredLevel(MasteryLevel(correct, incorrect)) <==>
      if correct + incorrect < PracticeSaturation
      then 10 * correct >= MasteryThreshold
      else 200 * correct >= (2 * MasteryThreshold - 1) * (correct + incorrect)
  {
    var t := correct + incorrect;
    if 0 < t < PracticeSaturation {
      MasteryBeforeSaturation(correct, incorrect);
    } else if t >= PracticeSaturation {
      MasteryAtSaturation(correct, incorrect);
      RoundReachesEven(100 * correct, t, MasteryThreshold);
    }
  }

  /** A word is never mastered with fewer than 8 correct answers, however few
      the attempts: one lucky answer cannot master a word. */
  lemma MasteredNeedsEightCorrect(correct: nat, incorrect: nat)
    requires IsMasteredLevel(MasteryLevel(correct, incorrect))
    ensures 10 * correct >= MasteryThreshold
  {
    var t := correct + incorrect;
    if 0 < t < PracticeSaturation {
      MasteryBeforeSaturation(correct, incorrect);
    } else if t >= PracticeSaturation && 10 * correct < MasteryThreshold {
      // 100 * correct / t is then below 79 / 1, so it rounds to at most 79
      MasteryAtSaturation(correct, incorrect);
      RoundAtMost(100 * correct, t, MasteryThreshold - 1);
    }
  }

  lemma MasteryStepInCorrect(correct: nat, incorrect: nat)
    ensures MasteryLevel(correct, incorrect) <= MasteryLevel(correct + 1, incorrect)
  {
    var t := correct + incorrect;
    if t + 1 < PracticeSaturation {
      MasteryBeforeSaturation(correct + 1, incorrect);
      if t > 0 { MasteryBeforeSaturation(correct, incorrect); }
    } else if t + 1 == PracticeSaturation {
      MasteryBeforeSaturation(correct, incorrect);
      MasteryAtSaturation(correct + 1, incorrect);
      assert 100 * (correct + 1) == (10 * (correct + 1)) * (t + 1);
      RoundExact(10 * (correct + 1), t + 1);
    } else {
      MasteryAtSaturation(correct, incorrect);
      MasteryAtSaturation(correct + 1, incorrect);
      SaturatedStepInCorrect(correct, incorrect);
    }
  }

  lemma SaturatedStepInCorrect(correct: nat, incorrect: nat)
    requires correct + incorrect > 0
    ensures RoundHalfEven(100 * correct, correct + incorrect)
         <= RoundHalfEven(100 * (correct + 1), correct + incorrect + 1)
  {
    var t, a := correct + incorrect, 100 * correct;
    if incorrect == 0 {
      RoundExact(100, correct);
      RoundExact(100, correct + 1);
    } else {
      assert a * (t + 1) == a * t + a;
      assert (a + 100) * t == a * t + 100 * t;
      RoundMonotone(a, t, a + 100, t + 1);
    }
  }

  /** More correct answers never lower the level. */
  lemma {:induction false} MasteryMonotoneInCorrect(c1: nat, c2: nat, incorrect: nat)
    requires c1 <= c2
    ensures MasteryLevel(c1, incorrect) <= MasteryLevel(c2, incorrect)
    decreases c2 - c1
  {
    if c1 < c2 {
      MasteryStepInCorrect(c1, incorrect);
      MasteryMonotoneInCorrect(c1 + 1, c2, incorrect);
    }
  }

  lemma MasteryStepInIncorrect(correct: nat, incorrect: nat)
    ensures MasteryLevel(correct, incorrect + 1) <= MasteryLevel(correct, incorrect)
  {
    var t := correct + incorrect;
    if t + 1 < PracticeSaturation {
      MasteryBeforeSaturation(correct, incorrect + 1);
      if t > 0 { MasteryBeforeSaturation(correct, incorrect); }
    } else if t + 1 == PracticeSaturation {
      MasteryBeforeSaturation(correct, incorrect);
      MasteryAtSaturation(correct, incorrect + 1);
      assert 100 * correct == (10 * correct) * (t + 1);
      RoundExact(10 * correct, t + 1);
    } else if correct == 0 {
      MasteryRange(correct, incorrect + 1);
    } else {
      MasteryAtSaturation(correct, incorrect);
      MasteryAtSaturation(correct, incorrect + 1);
      assert 100 * correct * (t + 1) == 100 * correct * t + 100 * correct;
      RoundMonotone(100 * correct, t + 1, 100 * correct, t);
    }
  }

  /** More incorrect answers never raise the level. */
  lemma {:induction false} MasteryAntitoneInIncorrect(correct: nat, i1: nat, i2: nat)
    requires i1 <= i2
    ensures MasteryLevel(correct, i2) <= MasteryLevel(correct, i1)
    decreases i2 - i1
  {
    if i1 < i2 {
      MasteryStepInIncorrect(correct, i1);
      MasteryAntitoneInIncorrect(correct, i1 + 1, i2);
    }
  }

  /** Worked examples: 8 right and 2 wrong is exactly mastered, 3 right
      alone is level 30, 5 wrong alone is level 0 with accuracy 0. */
  lemma MasteryExamples()
    ensures MasteryLevel(8, 2) == 80 && IsMasteredLevel(MasteryLevel(8, 2))
    ensures MasteryLevel(3, 0) == 30 && !IsMasteredLevel(MasteryLevel(3, 0))
    ensures MasteryLevel(0, 5) == 0 && Percentage(0, 5) == 0.0
    ensures Percentage(8, 10) == 80.0
  {
    MasteryAtSaturation(8, 2);
    RoundExact(80, 10);
    MasteryBeforeSaturation(3, 0);
    MasteryBeforeSaturation(0, 5);
  }

  /** The record after `update_mastery_level`: the level is recomputed from the
      counters; the mastered flag is recomputed only when there was an attempt. */
  function Recomputed(p: ProgressRecord): (q: ProgressRecord)
    ensures q.userId == p.userId && q.wordId == p.wordId
    ensures q.correctCount == p.correctCount && q.incorrectCount == p.incorrectCount
    ensures q.lastPracticed == p.lastPracticed
    ensures q.masteryLevel == MasteryLevel(p.correctCount, p.incorrectCount) <= 100
    ensures p.Total() == 0 ==> q.masteryLevel == 0 && q.isMastered == p.isMastered
    ensures p.Total() > 0 ==> q.isMastered == IsMasteredLevel(q.masteryLevel)
  {
    MasteryRange(p.correctCount, p.incorrectCount);
    if p.Total() == 0 then p.(masteryLevel := 0)
    else
      var level := MasteryLevel(p.correctCount, p.incorrectCount);
      p.(masteryLevel := level, isMastered := IsMasteredLevel(level))
  }

  /** A record whose derived fields agree with its counters, as every record
      is once it has been practised. */
  predicate Consistent(p: ProgressRecord) {
    && p.Total() >= 1
    && p.masteryLevel == MasteryLevel(p.correctCount, p.incorrectCount)
    && p.isMastered == IsMasteredLevel(p.masteryLevel)
  }

  /** Recomputing twice is recomputing once; after an attempt the result is
      consistent. */
  lemma RecomputedIdempotent(p: ProgressRecord)
    ensures Recomputed(Recomputed(p)) == Recomputed(p)
    ensures p.Total() >= 1 ==> Consistent(Recomputed(p))
  {
  }

  /** One progress row, updated in place. */
  class UserWordProgress {
    var userId: nat
    var wordId: nat
    var correctCount: nat
    var incorrectCount: nat
    var lastPracticed: Option<Timestamp>
    var isMastered: bool
    var masteryLevel: nat

    /** The row's current value. */
    function View(): ProgressRecord
      reads this
    {
      ProgressRecord(userId, wordId, correctCount, incorrectCount, lastPracticed, isMastered, masteryLevel)
    }

    /** A new row for the pair, every other column at its default. */
    constructor (userId: nat, wordId: nat)
      ensures View() == NewRecord(userId, wordId)
    {
      this.userId := userId;
      this.wordId := wordId;
      correctCount, incorrectCount := 0, 0;
      lastPracticed := None;
      isMastered := false;
      masteryLevel := 0;
    }

    /** The percentage of attempts answered correctly, 0 without attempts. */
    function CalculateAccuracy(): (r: real)
      reads this
      ensures 0.0 <= r <= 100.0
      ensures correctCount + incorrectCount == 0 ==> r == 0.0
      ensures r == 0.0 <==> correctCount == 0
      ensures r == 100.0 <==> correctCount > 0 && incorrectCount == 0
      ensures r * (correctCount + incorrectCount) as real == 100.0 * correctCount as real
    {
      Percentage(correctCount, correctCount + incorrectCount)
    }

    /** Recomputes the mastery level from the counters and, when there was an
        attempt, the mastered flag; changes nothing else. */
    method UpdateMasteryLevel()
      modifies this
      ensures View() == Recomputed(old(View()))
    {
      var total := correctCount + incorrectCount;
      if total == 0 {
        masteryLevel := 0;
      } else {
        masteryLevel := MasteryLevel(correctCount, incorrectCount);
        isMastered := masteryLevel >= MasteryThreshold;
      }
    }
  }
}
