/** The integrity constraints of the stored tables, each over the table's
    contents and the next primary key the database will hand out, and the
    facts that the state-changing handlers need to keep them. */
module Tables {
  import opened Models
  import opened Leaderboard
  import opened Catalog

  /** Admins keyed by id, below the next id, with unique username and e-mail. */
  ghost predicate AdminTable(admins: map<nat, Admin>, nextId: nat) {
    (forall k :: k in admins ==> admins[k].id == k && k < nextId) && AdminsUnique(admins)
  }

  /** Quizzes keyed by id, below the next id. */
  ghost predicate QuizTable(quizzes: map<nat, Quiz>, nextId: nat) {
    forall k :: k in quizzes ==> quizzes[k].id == k && k < nextId
  }

  /** Items keyed by id, below the next id. */
  ghost predicate ItemTable(items: map<nat, QuizItem>, nextId: nat) {
    ItemsKeyedById(items) && forall k :: k in items ==> k < nextId
  }

  /** Sessions keyed by their unique code, with distinct ids below the next id. */
  ghost predicate SessionTable(sessions: map<string, GameSession>, nextId: nat) {
    SessionsKeyedByCode(sessions) && SessionIdsDistinct(sessions) &&
    forall c :: c in sessions ==> sessions[c].id < nextId
  }

  /** Participants keyed by id, below the next id, each in a stored session. */
  ghost predicate ParticipantTable(participants: map<nat, Participant>, nextId: nat, sessions: map<string, GameSession>) {
    ParticipantsKeyedById(participants) && (forall k :: k in participants ==> k < nextId) &&
    ParticipantsOwned(participants, sessions)
  }

  /** A new session under an unused code with the next id keeps the session
      table and leaves every participant in a stored session. */
  lemma AddSessionKeepsTables(sessions: map<string, GameSession>, nextId: nat,
                              participants: map<nat, Participant>, nextParticipantId: nat, session: GameSession)
    requires SessionTable(sessions, nextId) && ParticipantTable(participants, nextParticipantId, sessions)
    requires session.code !in sessions && session.id == nextId && |session.code| <= MaxGameCodeLength
    ensures SessionTable(sessions[session.code := session], nextId + 1)
    ensures ParticipantTable(participants, nextParticipantId, sessions[session.code := session])
  {
    var added := sessions[session.code := session];
    forall x | x in SessionIds(sessions) ensures x in SessionIds(added) {
      var c :| c in sessions && sessions[c].id == x;
      assert added[c] == sessions[c];
    }
  }

  /** Appending answers of a stored participant keeps every answer owned. */
  lemma AppendAnswersOwned(answers: seq<ParticipantAnswer>, added: seq<ParticipantAnswer>,
                           participants: map<nat, Participant>, participantId: nat)
    requires participantId in participants && AnswersOwned(answers, participants)
    requires forall k :: 0 <= k < |added| ==> added[k].participantId == participantId
    ensures AnswersOwned(answers + added, participants)
  {
    var all := answers + added;
    forall k | 0 <= k < |all| ensures all[k].participantId in participants {
      if k >= |answers| {
        assert all[k] == added[k - |answers|];
      }
    }
  }

  /** Replacing a participant's score keeps the participant table and the
      ownership of every answer. */
  lemma ScoreKeepsTables(participants: map<nat, Participant>, nextId: nat, sessions: map<string, GameSession>,
                         answers: seq<ParticipantAnswer>, participantId: nat, points: int)
    requires participantId in participants
    requires ParticipantTable(participants, nextId, sessions) && AnswersOwned(answers, participants)
    ensures var updated := participants[participantId := participants[participantId].(totalScore := points)];
      ParticipantTable(updated, nextId, sessions) && AnswersOwned(answers, updated)
  {
  }

  /** Storing an item under its own id, below the next id, keeps the item table. */
  lemma PutItemKeepsTable(items: map<nat, QuizItem>, nextId: nat, item: QuizItem, newNextId: nat)
    requires ItemTable(items, nextId)
    requires item.id < newNextId && nextId <= newNextId
    ensures ItemTable(items[item.id := item], newNextId)
  {
  }
}
