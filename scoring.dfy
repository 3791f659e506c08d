/** Scoring one `submit_answer`: the submitted placements are compared with the
    stored items, the points are the share of correct entries scaled to 1000,
    and every correct entry leaves one audit row. */
module Scoring {
  import opened Models

  /** One submitted placement: (item id, chosen position), in submission order. */
  type Entry = (nat, int)

  const MaxPoints: nat := 1000

  /** The entry names a stored item (of any quiz) whose correct position is the submitted one. */
  predicate IsCorrect(items: map<nat, QuizItem>, e: Entry) {
    e.0 in items && items[e.0].correctPosition == e.1
  }

  /** The number of correct entries. */
  function CorrectCount(entries: seq<Entry>, items: map<nat, QuizItem>): (c: nat)
    ensures c <= |entries|
  {
    if entries == [] then 0
    else CorrectCount(entries[..|entries| - 1], items) + (if IsCorrect(items, entries[|entries| - 1]) then 1 else 0)
  }

  /** `int(correct / total * 1000)` when something was submitted, else 0. */
  function Points(correct: nat, total: nat): (p: nat)
    requires correct <= total
    ensures p <= MaxPoints
    ensures total > 0 && correct == total ==> p == MaxPoints
    ensures correct == 0 ==> p == 0
    ensures total > 0 ==> p * total <= correct * MaxPoints < (p + 1) * total
  {
    if total > 0 then
      var q := correct * MaxPoints / total;
      QuotientBounds(correct, total);
      q
    else 0
  }

  /** The quotient lies between 0 and 1000 and is 1000 for a full mark. */
  lemma QuotientBounds(correct: nat, total: nat)
    requires 0 < total && correct <= total
    ensures var q := correct * MaxPoints / total;
      q * total <= correct * MaxPoints < (q + 1) * total &&
      q <= MaxPoints && (correct == total ==> q == MaxPoints) && (correct == 0 ==> q == 0)
  {
    var a := correct * MaxPoints;
    var q := a / total;
    assert a == q * total + a % total;
    MulMonotone(correct, total, MaxPoints);
    if q > MaxPoints {
      MulMonotone(MaxPoints + 1, q, total);
    }
    if correct == total && q < MaxPoints {
      MulMonotone(q + 1, MaxPoints, total);
    }
  }

  lemma MulMonotone(x: nat, y: nat, z: nat)
    requires x <= y
    ensures x * z <= y * z
  {
  }

  /** What `answer_result` reports. */
  datatype Score = Score(correctCount: nat, totalItems: nat, pointsEarned: nat)

  function ScoreOf(entries: seq<Entry>, items: map<nat, QuizItem>): (s: Score)
    ensures s.totalItems == |entries|
    ensures s.correctCount == CorrectCount(entries, items)
    ensures s.pointsEarned == Points(s.correctCount, s.totalItems)
    ensures s.correctCount <= s.totalItems && s.pointsEarned <= MaxPoints
    ensures s.totalItems == 0 ==> s.pointsEarned == 0
  {
    var c := CorrectCount(entries, items);
    Score(c, |entries|, Points(c, |entries|))
  }

  /** The audit row written for a correct entry. */
  function AnswerRow(participantId: nat, e: Entry): ParticipantAnswer {
    ParticipantAnswer(participantId, e.0, e.1, true)
  }

  /** The audit rows one submission appends: one per correct entry, in submission order. */
  function CorrectRows(participantId: nat, entries: seq<Entry>, items: map<nat, QuizItem>): (rows: seq<ParticipantAnswer>)
    ensures |rows| == CorrectCount(entries, items)
    ensures forall k :: 0 <= k < |rows| ==>
      rows[k].participantId == participantId && rows[k].isCorrect &&
      (rows[k].itemId, rows[k].givenPosition) in entries &&
      IsCorrect(items, (rows[k].itemId, rows[k].givenPosition))
  {
    if entries == [] then []
    else
      var init := entries[..|entries| - 1];
      var last := entries[|entries| - 1];
      var rows := CorrectRows(participantId, init, items);
      assert forall e :: e in init ==> e in entries;
      if IsCorrect(items, last) then rows + [AnswerRow(participantId, last)] else rows
  }

  /** Every entry is correct exactly when the count equals the number of entries. */
  lemma {:induction false} AllCorrectIff(entries: seq<Entry>, items: map<nat, QuizItem>)
    ensures CorrectCount(entries, items) == |entries| <==> forall k :: 0 <= k < |entries| ==> IsCorrect(items, entries[k])
  {
    if entries != [] {
      var init := entries[..|entries| - 1];
      AllCorrectIff(init, items);
      assert forall k :: 0 <= k < |init| ==> init[k] == entries[k];
    }
  }

  /** No entry is correct exactly when the count is zero. */
  lemma {:induction false} NoneCorrectIff(entries: seq<Entry>, items: map<nat, QuizItem>)
    ensures CorrectCount(entries, items) == 0 <==> forall k :: 0 <= k < |entries| ==> !IsCorrect(items, entries[k])
  {
    if entries != [] {
      var init := entries[..|entries| - 1];
      NoneCorrectIff(init, items);
      assert forall k :: 0 <= k < |init| ==> init[k] == entries[k];
    }
  }

  /** A submission where every entry is correct earns the full 1000 points; one
      with no correct entry earns none. */
  lemma FullAndZeroMarks(entries: seq<Entry>, items: map<nat, QuizItem>)
    ensures (|entries| > 0 && forall k :: 0 <= k < |entries| ==> IsCorrect(items, entries[k]))
              ==> ScoreOf(entries, items).pointsEarned == MaxPoints
    ensures (forall k :: 0 <= k < |entries| ==> !IsCorrect(items, entries[k]))
              ==> ScoreOf(entries, items).pointsEarned == 0
  {
    AllCorrectIff(entries, items);
    NoneCorrectIff(entries, items);
  }

  /** Extending a submission by one entry adds one audit row exactly when the entry is correct. */
  lemma AppendEntry(participantId: nat, entries: seq<Entry>, e: Entry, items: map<nat, QuizItem>)
    ensures CorrectRows(participantId, entries + [e], items)
         == CorrectRows(participantId, entries, items) + (if IsCorrect(items, e) then [AnswerRow(participantId, e)] else [])
    ensures CorrectCount(entries + [e], items) == CorrectCount(entries, items) + (if IsCorrect(items, e) then 1 else 0)
  {
    assert (entries + [e])[..|entries|] == entries;
  }

  /** The worked example: items 1 and 2 with correct positions 1 and 3, and the
      placements {1: 1, 2: 2}, score one of two, 500 points. */
  lemma HalfCorrectExample(items: map<nat, QuizItem>)
    requires 1 in items && items[1].correctPosition == 1
    requires 2 in items && items[2].correctPosition == 3
    ensures ScoreOf([(1, 1), (2, 2)], items) == Score(1, 2, 500)
  {
    var entries: seq<Entry> := [(1, 1), (2, 2)];
    assert entries[..1] == [(1, 1)];
    assert entries[..1][..0] == [];
    assert CorrectCount(entries[..1][..0], items) == 0;
    assert CorrectCount(entries[..1], items) == 1;
    assert CorrectCount(entries, items) == 1;
  }
}
