/** The relational schema: one datatype per table row, the column defaults, the
    uniqueness constraints and the cascade ownership between tables. */
module Models {
  import opened Common

  datatype Status = Waiting | Active | Completed

  datatype Admin = Admin(id: nat, username: string, email: string, passwordHash: string)

  datatype Quiz = Quiz(
    id: nat,
    adminId: nat,
    title: string,
    description: Option<string>,
    numPositions: int,
    layoutStyle: string)

  datatype QuizItem = QuizItem(
    id: nat,
    quizId: nat,
    text: Option<string>,
    imageUrl: string,
    originalFilename: Option<string>,
    correctPosition: int,
    itemOrder: int)

  datatype GameSession = GameSession(id: nat, quizId: nat, adminId: nat, code: string, status: Status)

  datatype Participant = Participant(id: nat, sessionId: nat, nickname: string, totalScore: int)

  /** One audit row; the table's own primary key is not modelled (rows are kept in insertion order). */
  datatype ParticipantAnswer = ParticipantAnswer(participantId: nat, itemId: nat, givenPosition: int, isCorrect: bool)

  // ---------------------------------------------------------------------------
  // Column defaults

  const DefaultNumPositions: int := 4
  const DefaultLayoutStyle: string := "grid"
  const MaxGameCodeLength: nat := 10

  /** A new Quiz row; an unset `num_positions` or `layout_style` takes the column default. */
  function NewQuiz(id: nat, adminId: nat, title: string, description: Option<string>,
                   numPositions: Option<int>, layoutStyle: Option<string>): (q: Quiz)
    ensures q.id == id && q.adminId == adminId && q.title == title && q.description == description
    ensures numPositions.None? ==> q.numPositions == 4
    ensures numPositions.Some? ==> q.numPositions == numPositions.value
    ensures layoutStyle.None? ==> q.layoutStyle == "grid"
    ensures layoutStyle.Some? ==> q.layoutStyle == layoutStyle.value
  {
    Quiz(id, adminId, title, description,
         numPositions.GetOr(DefaultNumPositions), layoutStyle.GetOr(DefaultLayoutStyle))
  }

  /** A new GameSession row; `status` defaults to waiting. */
  function NewSession(id: nat, quizId: nat, adminId: nat, code: string, status: Option<Status>): (g: GameSession)
    ensures g.id == id && g.quizId == quizId && g.adminId == adminId && g.code == code
    ensures status.None? ==> g.status == Waiting
    ensures status.Some? ==> g.status == status.value
  {
    GameSession(id, quizId, adminId, code, status.GetOr(Waiting))
  }

  /** A new Participant row; `total_score` defaults to 0. */
  function NewParticipant(id: nat, sessionId: nat, nickname: string): (p: Participant)
    ensures p.id == id && p.sessionId == sessionId && p.nickname == nickname
    ensures p.totalScore == 0
  {
    Participant(id, sessionId, nickname, 0)
  }

  /** A new ParticipantAnswer row; `is_correct` defaults to false. */
  function NewAnswer(participantId: nat, itemId: nat, givenPosition: int, isCorrect: Option<bool>): (a: ParticipantAnswer)
    ensures a.participantId == participantId && a.itemId == itemId && a.givenPosition == givenPosition
    ensures isCorrect.None? ==> !a.isCorrect
    ensures isCorrect.Some? ==> a.isCorrect == isCorrect.value
  {
    ParticipantAnswer(participantId, itemId, givenPosition, isCorrect.GetOr(false))
  }

  // ---------------------------------------------------------------------------
  // Uniqueness constraints

  /** `admin.username` and `admin.email` are each unique. */
  ghost predicate AdminsUnique(admins: map<nat, Admin>) {
    forall a, b :: a in admins && b in admins && a != b ==>
      admins[a].username != admins[b].username && admins[a].email != admins[b].email
  }

  /** Every item is stored under its own id. */
  ghost predicate ItemsKeyedById(items: map<nat, QuizItem>) {
    forall k :: k in items ==> items[k].id == k
  }

  /** Every participant is stored under its own id. */
  ghost predicate ParticipantsKeyedById(participants: map<nat, Participant>) {
    forall k :: k in participants ==> participants[k].id == k
  }

  /** Sessions are stored under their join code, which is therefore unique; the
      column holds at most ten characters. */
  ghost predicate SessionsKeyedByCode(sessions: map<string, GameSession>) {
    forall c :: c in sessions ==> sessions[c].code == c && |c| <= MaxGameCodeLength
  }

  /** The primary keys of the sessions are distinct. */
  ghost predicate SessionIdsDistinct(sessions: map<string, GameSession>) {
    forall c, d :: c in sessions && d in sessions && c != d ==> sessions[c].id != sessions[d].id
  }

  function SessionIds(sessions: map<string, GameSession>): set<nat> {
    set c | c in sessions :: sessions[c].id
  }

  // ---------------------------------------------------------------------------
  // Ownership (cascade delete-orphan)

  /** Every participant belongs to a stored session. */
  ghost predicate ParticipantsOwned(participants: map<nat, Participant>, sessions: map<string, GameSession>) {
    forall p :: p in participants ==> participants[p].sessionId in SessionIds(sessions)
  }

  /** Every answer belongs to a stored participant. */
  ghost predicate AnswersOwned(answers: seq<ParticipantAnswer>, participants: map<nat, Participant>) {
    forall i :: 0 <= i < |answers| ==> answers[i].participantId in participants
  }

  /** Deleting a quiz deletes its items. */
  function ItemsOutside(items: map<nat, QuizItem>, quizId: nat): (r: map<nat, QuizItem>)
    ensures forall k :: k in r <==> k in items && items[k].quizId != quizId
    ensures forall k :: k in r ==> r[k] == items[k]
  {
    map k | k in items && items[k].quizId != quizId :: items[k]
  }

  /** Deleting a quiz deletes its game sessions. */
  function SessionsOutside(sessions: map<string, GameSession>, quizId: nat): (r: map<string, GameSession>)
    ensures forall c :: c in r <==> c in sessions && sessions[c].quizId != quizId
    ensures forall c :: c in r ==> r[c] == sessions[c]
  {
    map c | c in sessions && sessions[c].quizId != quizId :: sessions[c]
  }

  /** Deleting sessions deletes their participants. */
  function ParticipantsOutside(participants: map<nat, Participant>, sessionIds: set<nat>): (r: map<nat, Participant>)
    ensures forall k :: k in r <==> k in participants && participants[k].sessionId !in sessionIds
    ensures forall k :: k in r ==> r[k] == participants[k]
  {
    map k | k in participants && participants[k].sessionId !in sessionIds :: participants[k]
  }

  /** Deleting participants deletes their answers and keeps all the others. */
  function AnswersOutside(answers: seq<ParticipantAnswer>, participantIds: set<nat>): (r: seq<ParticipantAnswer>)
    ensures |r| <= |answers|
    ensures forall i :: 0 <= i < |r| ==> r[i] in answers && r[i].participantId !in participantIds
    ensures forall a :: a in answers && a.participantId !in participantIds ==> a in r
    ensures forall x :: multiset(r)[x] == if x.participantId in participantIds then 0 else multiset(answers)[x]
  {
    if answers == [] then []
    else
      var rest := AnswersOutside(answers[1..], participantIds);
      assert answers == [answers[0]] + answers[1..];
      if answers[0].participantId in participantIds then rest else [answers[0]] + rest
  }

  /** The ids of the sessions of one quiz. */
  function QuizSessionIds(sessions: map<string, GameSession>, quizId: nat): set<nat> {
    set c | c in sessions && sessions[c].quizId == quizId :: sessions[c].id
  }

  /** The ids of the participants of a set of sessions. */
  function SessionParticipantIds(participants: map<nat, Participant>, sessionIds: set<nat>): set<nat> {
    set k | k in participants && participants[k].sessionId in sessionIds
  }

  /** The cascade from a quiz through its sessions and their participants to
      their answers leaves no participant without a session and no answer
      without a participant. */
  lemma CascadeKeepsOwnership(sessions: map<string, GameSession>, participants: map<nat, Participant>,
                              answers: seq<ParticipantAnswer>, quizId: nat)
    requires SessionIdsDistinct(sessions)
    requires ParticipantsOwned(participants, sessions)
    requires AnswersOwned(answers, participants)
    ensures var sessions' := SessionsOutside(sessions, quizId);
            var sids := QuizSessionIds(sessions, quizId);
            var participants' := ParticipantsOutside(participants, sids);
            var answers' := AnswersOutside(answers, SessionParticipantIds(participants, sids));
            ParticipantsOwned(participants', sessions') && AnswersOwned(answers', participants')
  {
    var sessions' := SessionsOutside(sessions, quizId);
    var sids := QuizSessionIds(sessions, quizId);
    var participants' := ParticipantsOutside(participants, sids);
    var pids := SessionParticipantIds(participants, sids);
    var answers' := AnswersOutside(answers, pids);
    forall p | p in participants' ensures participants'[p].sessionId in SessionIds(sessions') {
      var sid := participants'[p].sessionId;
      assert sid in SessionIds(sessions);
      var c :| c in sessions && sessions[c].id == sid;
      assert c in sessions';
    }
    forall i | 0 <= i < |answers'| ensures answers'[i].participantId in participants' {
      var a := answers'[i];
      assert a in answers;
      var j :| 0 <= j < |answers| && answers[j] == a;
      assert a.participantId in participants;
      assert a.participantId !in pids;
    }
  }
}
