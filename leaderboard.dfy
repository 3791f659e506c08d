/** The `results_ready` leaderboard: the session's participants, highest score
    first, ranked by their position in that order. */
module Leaderboard {
  import opened Models
  import opened Ordering

  datatype Row = Row(nickname: string, score: int, rank: nat)

  /** The participants of one session with id below `hi`, in id (insertion) order. */
  function Roster(participants: map<nat, Participant>, sessionId: nat, hi: nat): (r: seq<Participant>)
    requires ParticipantsKeyedById(participants)
    ensures forall i :: 0 <= i < |r| ==>
      r[i].id in participants && participants[r[i].id] == r[i] && r[i].sessionId == sessionId && r[i].id < hi
    ensures forall k :: k in participants && k < hi && participants[k].sessionId == sessionId ==> participants[k] in r
    ensures forall i, j :: 0 <= i < j < |r| ==> r[i].id < r[j].id
  {
    if hi == 0 then []
    else
      var r := Roster(participants, sessionId, hi - 1);
      if hi - 1 in participants && participants[hi - 1].sessionId == sessionId then r + [participants[hi - 1]] else r
  }

  /** Sort key of `ORDER BY total_score DESC`. */
  function DescendingScore(p: Participant): int { -p.totalScore }

  /** The roster ordered by score, highest first; equal scores keep roster order. */
  function Standings(roster: seq<Participant>): (s: seq<Participant>)
    ensures |s| == |roster| && multiset(s) == multiset(roster)
    ensures forall i, j :: 0 <= i < j < |s| ==> s[i].totalScore >= s[j].totalScore
  {
    var s := SortBy(roster, DescendingScore);
    assert SortedBy(s, DescendingScore);
    s
  }

  /** The leaderboard rows: nickname, score and rank `idx + 1`. */
  function Board(roster: seq<Participant>): (board: seq<Row>)
    ensures |board| == |roster|
    ensures forall i :: 0 <= i < |board| ==> board[i].rank == i + 1
    ensures forall i, j :: 0 <= i < j < |board| ==> board[i].score >= board[j].score
  {
    var s := Standings(roster);
    seq(|s|, i requires 0 <= i < |s| => Row(s[i].nickname, s[i].totalScore, i + 1))
  }

  /** (nickname, score) of each participant of a roster. */
  function Scorelines(ps: seq<Participant>): (r: seq<(string, int)>)
    ensures |r| == |ps|
    ensures forall i :: 0 <= i < |ps| ==> r[i] == (ps[i].nickname, ps[i].totalScore)
  {
    seq(|ps|, i requires 0 <= i < |ps| => (ps[i].nickname, ps[i].totalScore))
  }

  /** (nickname, score) of each leaderboard row. */
  function RowScorelines(board: seq<Row>): (r: seq<(string, int)>)
    ensures |r| == |board|
    ensures forall i :: 0 <= i < |board| ==> r[i] == (board[i].nickname, board[i].score)
  {
    seq(|board|, i requires 0 <= i < |board| => (board[i].nickname, board[i].score))
  }

  lemma ScorelinesAppend(a: seq<Participant>, b: seq<Participant>)
    ensures Scorelines(a + b) == Scorelines(a) + Scorelines(b)
  {
  }

  /** Rearranging participants rearranges their (nickname, score) pairs the same way. */
  lemma {:induction false} ScorelinesPermutation(ps: seq<Participant>, qs: seq<Participant>)
    requires multiset(ps) == multiset(qs)
    ensures multiset(Scorelines(ps)) == multiset(Scorelines(qs))
    decreases |ps|
  {
    if ps == [] {
      assert |qs| == |multiset(qs)| == 0;
    } else {
      var x := ps[0];
      assert x in multiset(qs);
      var j :| 0 <= j < |qs| && qs[j] == x;
      var qs' := qs[..j] + qs[j + 1..];
      assert qs == qs[..j] + [x] + qs[j + 1..];
      assert ps == [x] + ps[1..];
      assert multiset(qs) == multiset(qs[..j]) + multiset{x} + multiset(qs[j + 1..]);
      assert multiset(qs') == multiset(qs[..j]) + multiset(qs[j + 1..]);
      assert multiset(qs') == multiset(qs) - multiset{x};
      assert multiset(ps) == multiset{x} + multiset(ps[1..]);
      assert multiset(ps[1..]) == multiset(ps) - multiset{x};
      ScorelinesPermutation(ps[1..], qs');
      ScorelinesAppend([x], ps[1..]);
      ScorelinesAppend(qs[..j], qs[j + 1..]);
      ScorelinesAppend(qs[..j] + [x], qs[j + 1..]);
      ScorelinesAppend(qs[..j], [x]);
    }
  }

  /** The leaderboard lists every participant of the roster exactly once, with
      its nickname and score, and nothing else. */
  lemma BoardIsPermutation(roster: seq<Participant>)
    ensures multiset(RowScorelines(Board(roster))) == multiset(Scorelines(roster))
  {
    var s := Standings(roster);
    assert RowScorelines(Board(roster)) == Scorelines(s);
    ScorelinesPermutation(s, roster);
  }

  /** One insertion step in score order: a lower score goes behind the head. */
  lemma InsertBehind(x: Participant, s: seq<Participant>)
    requires s != [] && x.totalScore < s[0].totalScore
    ensures InsertBy(x, s, DescendingScore) == [s[0]] + InsertBy(x, s[1..], DescendingScore)
  {
  }

  /** One insertion step in score order: an equal or higher score goes in front. */
  lemma InsertInFront(x: Participant, s: seq<Participant>)
    requires s == [] || x.totalScore >= s[0].totalScore
    ensures InsertBy(x, s, DescendingScore) == [x] + s
  {
  }

  /** One step of the insertion sort in score order. */
  lemma SortStep(s: seq<Participant>)
    requires s != []
    ensures SortBy(s, DescendingScore) == InsertBy(s[0], SortBy(s[1..], DescendingScore), DescendingScore)
  {
  }

  lemma SortOne(c: Participant)
    ensures SortBy([c], DescendingScore) == [c]
  {
    assert [c][1..] == [];
    SortStep([c]);
    InsertInFront(c, []);
  }

  lemma SortTwo(b: Participant, c: Participant)
    requires b.totalScore < c.totalScore
    ensures SortBy([b, c], DescendingScore) == [c, b]
  {
    assert [b, c][1..] == [c];
    SortOne(c);
    SortStep([b, c]);
    InsertInFront(b, []);
    InsertBehind(b, [c]);
  }

  lemma SortBehindTwo(a: Participant, b: Participant, c: Participant)
    requires b.totalScore < c.totalScore
    ensures SortBy([a, b, c], DescendingScore) == InsertBy(a, [c, b], DescendingScore)
  {
    assert [a, b, c][1..] == [b, c];
    SortTwo(b, c);
    SortStep([a, b, c]);
  }

  lemma InsertTieBehindTop(a: Participant, b: Participant, c: Participant)
    requires a.totalScore == b.totalScore < c.totalScore
    ensures InsertBy(a, [c, b], DescendingScore) == [c, a, b]
  {
    assert [c, b][1..] == [b];
    InsertInFront(a, [b]);
    InsertBehind(a, [c, b]);
    assert [c] + [a] + [b] == [c, a, b];
  }

  lemma SortTieBehindTop(a: Participant, b: Participant, c: Participant)
    requires a.totalScore == b.totalScore < c.totalScore
    ensures Standings([a, b, c]) == [c, a, b]
  {
    SortBehindTwo(a, b, c);
    InsertTieBehindTop(a, b, c);
  }

  /** Scores 300, 300, 900 in join order rank as 900, 300, 300 with ranks 1, 2, 3:
      the rank is the position, not a tie-aware rank, and the two players tied
      at 300 keep their join order. */
  lemma TieExample(a: Participant, b: Participant, c: Participant)
    requires a.totalScore == 300 && b.totalScore == 300 && c.totalScore == 900
    ensures Board([a, b, c]) == [Row(c.nickname, 900, 1), Row(a.nickname, 300, 2), Row(b.nickname, 300, 3)]
  {
    SortTieBehindTop(a, b, c);
    var s := Standings([a, b, c]);
    assert s[0] == c && s[1] == a && s[2] == b;
    var board := Board([a, b, c]);
    assert board[0] == Row(c.nickname, 900, 1);
    assert board[1] == Row(a.nickname, 300, 2);
    assert board[2] == Row(b.nickname, 300, 3);
  }
}
