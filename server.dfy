/** The request and socket handlers that change the stored tables: quiz
    authoring, starting and joining a game, and the live game events. The
    database is a set of in-memory tables, every commit takes effect at once,
    and every `emit` is appended to an outbox with its target room or
    connection. */
module GameServer {
  import opened Common
  import opened Strings
  import opened Models
  import opened Scoring
  import opened Leaderboard
  import opened Catalog
  import opened Tables
  import Transfer

  // ---------------------------------------------------------------------------
  // Game codes

  /** `string.ascii_uppercase + string.digits`. */
  const CodeAlphabet: string := "ABCDEFGHIJKLMNOPQRSTUVWXYZ0123456789"

  const CodeLength: nat := 6

  /** `generate_game_code` with its six random choices given as `draws`: each
      draw picks one character of the alphabet. */
  function GenerateGameCode(draws: seq<nat>): (code: string)
    requires |draws| == CodeLength
    ensures |code| == CodeLength && |code| <= MaxGameCodeLength
    ensures forall i :: 0 <= i < |code| ==> code[i] in CodeAlphabet
  {
    seq(CodeLength, i requires 0 <= i < CodeLength => CodeAlphabet[draws[i] % |CodeAlphabet|])
  }

  /** Every six-character code over the alphabet is one `generate_game_code` can return. */
  lemma EveryCodeReachable(code: string)
    requires |code| == CodeLength && forall i :: 0 <= i < |code| ==> code[i] in CodeAlphabet
    ensures exists draws :: |draws| == CodeLength && GenerateGameCode(draws) == code
  {
    var draws := seq(CodeLength, i requires 0 <= i < CodeLength => IndexOf(CodeAlphabet, code[i]));
    forall i | 0 <= i < CodeLength ensures GenerateGameCode(draws)[i] == code[i] {
      var d := IndexOf(CodeAlphabet, code[i]);
      SmallRemainder(d, |CodeAlphabet|);
    }
    assert GenerateGameCode(draws) == code;
  }

  /** A generated code has no lower-case letter, so `join_game`'s upper-casing
      finds it whether the player types it in upper or in lower case. */
  lemma GeneratedCodeCaseInsensitive(draws: seq<nat>)
    requires |draws| == CodeLength
    ensures Upper(GenerateGameCode(draws)) == GenerateGameCode(draws)
    ensures Upper(Lower(GenerateGameCode(draws))) == GenerateGameCode(draws)
  {
    var code := GenerateGameCode(draws);
    forall i | 0 <= i < |code| ensures !('a' <= code[i] <= 'z') {
      var j := draws[i] % |CodeAlphabet|;
      assert code[i] == CodeAlphabet[j];
      assert forall k :: 0 <= k < |CodeAlphabet| ==> !('a' <= CodeAlphabet[k] <= 'z');
    }
    UpperNoLower(code);
    UpperOfLower(code);
  }

  lemma SmallRemainder(d: nat, n: nat)
    requires d < n
    ensures d % n == d
  {
  }

  // ---------------------------------------------------------------------------
  // Outbox

  type ConnId = string

  /** Where an event goes: every member of a room, or one connection. */
  datatype Target = Room(name: string) | Connection(sid: ConnId)

  /** The events the server emits, with their payloads. */
  datatype Event =
    | ParticipantJoined(nickname: string, participantId: Option<int>)
    | GameStarted(quiz: Quiz, items: seq<QuizItem>)
    | AnswerResult(score: Score)
    | ResultsReady(leaderboard: seq<Row>)
    | GameEnded

  datatype Emit = Emit(target: Target, event: Event)

  function GameRoom(code: string): string { "game_" + code }
  function HostRoom(code: string): string { "host_" + code }

  /** The players' room and the host's room of a game are never the same room,
      and different codes have different rooms. */
  lemma RoomsApart(c: string, d: string)
    ensures GameRoom(c) != HostRoom(d)
    ensures GameRoom(c) == GameRoom(d) ==> c == d
    ensures HostRoom(c) == HostRoom(d) ==> c == d
  {
    assert GameRoom(c)[0] == 'g' && HostRoom(d)[0] == 'h';
    if GameRoom(c) == GameRoom(d) {
      assert c == GameRoom(c)[5..] && d == GameRoom(d)[5..];
    }
    if HostRoom(c) == HostRoom(d) {
      assert c == HostRoom(c)[5..] && d == HostRoom(d)[5..];
    }
  }

  // ---------------------------------------------------------------------------
  // Session status

  /** The sessions with the one stored under `code` moved to `status`. */
  function WithStatus(sessions: map<string, GameSession>, code: string, status: Status): (r: map<string, GameSession>)
    requires code in sessions
    ensures r.Keys == sessions.Keys
    ensures r[code].status == status
    ensures forall c :: c in sessions && c != code ==> r[c] == sessions[c]
  {
    sessions[code := sessions[code].(status := status)]
  }

  /** Changing one session's status keeps codes, ids and ownership intact. */
  lemma WithStatusKeepsKeys(sessions: map<string, GameSession>, code: string, status: Status)
    requires code in sessions
    ensures SessionsKeyedByCode(sessions) ==> SessionsKeyedByCode(WithStatus(sessions, code, status))
    ensures SessionIdsDistinct(sessions) ==> SessionIdsDistinct(WithStatus(sessions, code, status))
    ensures SessionIds(WithStatus(sessions, code, status)) == SessionIds(sessions)
  {
    var r := WithStatus(sessions, code, status);
    assert forall c :: c in r ==> r[c].id == sessions[c].id && r[c].code == sessions[c].code;
  }

  /** Ending a game twice is the same as ending it once. */
  lemma EndGameIdempotent(sessions: map<string, GameSession>, code: string)
    requires code in sessions
    ensures WithStatus(WithStatus(sessions, code, Completed), code, Completed) == WithStatus(sessions, code, Completed)
  {
  }

  /** Starting a game has no guard on its status: a completed game becomes active again. */
  lemma StartReopensCompleted(sessions: map<string, GameSession>, code: string)
    requires code in sessions && sessions[code].status == Completed
    ensures WithStatus(sessions, code, Active)[code].status == Active
    ensures WithStatus(WithStatus(sessions, code, Completed), code, Active) == WithStatus(sessions, code, Active)
  {
  }

  // ---------------------------------------------------------------------------
  // The server

  /** `int(form.get(key, default))`: the field parsed when present, else the
      default; `None` where `int()` raises. */
  function FormInt(field: Option<string>, default: Option<int>): (r: Option<int>)
    ensures field.Some? ==> r == ParseInt(field.value)
    ensures field.None? ==> r == default
  {
    if field.Some? then ParseInt(field.value) else default
  }

  /** What a handler reports instead of a result. */
  datatype ApiError =
    | EmailRegistered        // 400 "Email already registered"
    | UsernameTaken          // the unique constraint on `admin.username` rejects the commit
    | QuizNotFound           // 404 "Quiz not found"
    | ItemNotFound           // 404 "Item not found"
    | NoImageProvided        // 400 "No image provided"
    | NoImageSelected        // 400 "No image selected"
    | MalformedNumber        // `int()` raises on a form field
    | CodeTaken              // the unique constraint on `game_code` rejects the commit
    | GameNotFound           // 404 "Game not found"
    | GameHasEnded           // 400 "Game has ended"

  /** A quiz with its items in display order, as `get_quiz` returns it. */
  datatype QuizView = QuizView(quiz: Quiz, items: seq<QuizItem>)

  /** Changing a session's status keeps the session table and the participants'
      ownership. */
  lemma StatusKeepsTables(sessions: map<string, GameSession>, nextId: nat,
                          participants: map<nat, Participant>, nextParticipantId: nat, code: string, status: Status)
    requires code in sessions
    requires SessionTable(sessions, nextId) && ParticipantTable(participants, nextParticipantId, sessions)
    ensures SessionTable(WithStatus(sessions, code, status), nextId)
    ensures ParticipantTable(participants, nextParticipantId, WithStatus(sessions, code, status))
  {
    WithStatusKeepsKeys(sessions, code, status);
  }

  class Server {
    var admins: map<nat, Admin>
    var quizzes: map<nat, Quiz>
    var items: map<nat, QuizItem>
    var sessions: map<string, GameSession>
    var participants: map<nat, Participant>
    var answers: seq<ParticipantAnswer>
    /** Events emitted so far, oldest first. */
    var outbox: seq<Emit>
    /** (connection, room) pairs of room membership. */
    var rooms: set<(ConnId, string)>
    var nextAdminId: nat
    var nextQuizId: nat
    var nextItemId: nat
    var nextSessionId: nat
    var nextParticipantId: nat

    ghost predicate AdminsValid()
      reads this`admins, this`nextAdminId
    {
      AdminTable(admins, nextAdminId)
    }

    ghost predicate QuizzesValid()
      reads this`quizzes, this`nextQuizId
    {
      QuizTable(quizzes, nextQuizId)
    }

    ghost predicate ItemsValid()
      reads this`items, this`nextItemId
    {
      ItemTable(items, nextItemId)
    }

    ghost predicate SessionsValid()
      reads this`sessions, this`nextSessionId
    {
      SessionTable(sessions, nextSessionId)
    }

    ghost predicate ParticipantsValid()
      reads this`participants, this`nextParticipantId, this`sessions
    {
      ParticipantTable(participants, nextParticipantId, sessions)
    }

    ghost predicate AnswersValid()
      reads this`answers, this`participants
    {
      AnswersOwned(answers, participants)
    }

    /** Tables keyed by their primary key, keys below the next id to hand out,
        the unique constraints, and ownership along the cascades. */
    ghost predicate Valid()
      reads this
    {
      AdminsValid() && QuizzesValid() && ItemsValid() && SessionsValid() && ParticipantsValid() && AnswersValid()
    }

    /** An empty database; SQLite hands out ids from 1. */
    constructor ()
      ensures Valid()
      ensures admins == map[] && quizzes == map[] && items == map[] && sessions == map[]
      ensures participants == map[] && answers == [] && outbox == [] && rooms == {}
      ensures nextAdminId == 1 && nextQuizId == 1 && nextItemId == 1 && nextSessionId == 1 && nextParticipantId == 1
    {
      admins, quizzes, items, sessions := map[], map[], map[], map[];
      participants, answers, outbox, rooms := map[], [], [], {};
      nextAdminId, nextQuizId, nextItemId, nextSessionId, nextParticipantId := 1, 1, 1, 1, 1;
    }

    // -------------------------------------------------------------------------
    // Registration

    /** `register`: the e-mail is stored in lower case; an e-mail already in use
        is refused, and a username already in use fails the commit. */
    method RegisterAdmin(username: string, email: string, passwordHash: string) returns (r: Result<nat, ApiError>)
      requires Valid()
      modifies this`admins, this`nextAdminId
      ensures Valid()
      ensures r == Err(EmailRegistered) <==> exists k :: k in old(admins) && old(admins)[k].email == Lower(email)
      ensures r == Err(UsernameTaken) <==>
                (forall k :: k in old(admins) ==> old(admins)[k].email != Lower(email)) &&
                (exists k :: k in old(admins) && old(admins)[k].username == username)
      ensures r.Ok? <==> forall k :: k in old(admins) ==> old(admins)[k].email != Lower(email) && old(admins)[k].username != username
      ensures r.Err? ==> admins == old(admins) && nextAdminId == old(nextAdminId)
      ensures r.Ok? ==> r.value == old(nextAdminId) && nextAdminId == r.value + 1
      ensures r.Ok? ==> admins == old(admins)[r.value := Admin(r.value, username, Lower(email), passwordHash)]
      ensures r.Ok? || r == Err(EmailRegistered) || r == Err(UsernameTaken)
    {
      var lowered := Lower(email);
      if exists k :: k in admins && admins[k].email == lowered {
        return Err(EmailRegistered);
      }
      if exists k :: k in admins && admins[k].username == username {
        return Err(UsernameTaken);
      }
      var id := AddAdmin(username, lowered, passwordHash);
      r := Ok(id);
    }

    /** Stores an admin whose username and e-mail are both unused under the next admin id. */
    method AddAdmin(username: string, email: string, passwordHash: string) returns (id: nat)
      requires Valid()
      requires forall k :: k in admins ==> admins[k].email != email && admins[k].username != username
      modifies this`admins, this`nextAdminId
      ensures Valid()
      ensures id == old(nextAdminId) && nextAdminId == id + 1
      ensures admins == old(admins)[id := Admin(id, username, email, passwordHash)]
    {
      id := nextAdminId;
      admins := admins[id := Admin(id, username, email, passwordHash)];
      nextAdminId := nextAdminId + 1;
    }

    // -------------------------------------------------------------------------
    // Quiz authoring

    /** `create_quiz`: a new quiz with the request's fields and the column defaults. */
    method CreateQuiz(adminId: nat, title: string, description: Option<string>,
                      numPositions: Option<int>, layoutStyle: Option<string>) returns (id: nat)
      requires Valid()
      modifies this`quizzes, this`nextQuizId
      ensures Valid()
      ensures id == old(nextQuizId) && nextQuizId == id + 1
      ensures quizzes == old(quizzes)[id := CreatedQuiz(id, adminId, title, description, numPositions, layoutStyle)]
    {
      id := nextQuizId;
      quizzes := quizzes[id := CreatedQuiz(id, adminId, title, description, numPositions, layoutStyle)];
      nextQuizId := nextQuizId + 1;
    }

    /** `add_quiz_item`: `imageName` is the name of the uploaded file (`None`
        when the request has none) and `imageUrl` where it was stored; the text
        defaults to empty, `item_order` to 1, and `correct_position` is required.
        The quiz id is not checked against the quizzes. */
    method AddQuizItem(quizId: nat, imageName: Option<string>, imageUrl: string, text: Option<string>,
                       correctPosition: Option<string>, itemOrder: Option<string>) returns (r: Result<nat, ApiError>)
      requires Valid()
      modifies this`items, this`nextItemId
      ensures Valid()
      ensures imageName.None? ==> r == Err(NoImageProvided)
      ensures imageName == Some("") ==> r == Err(NoImageSelected)
      ensures r.Err? ==> items == old(items) && nextItemId == old(nextItemId)
      ensures r.Ok? <==> imageName.Some? && imageName.value != "" &&
                         FormInt(correctPosition, None).Some? && FormInt(itemOrder, Some(1)).Some?
      ensures r.Ok? ==> r.value == old(nextItemId) && nextItemId == r.value + 1
      ensures r.Ok? ==> items == old(items)[r.value := QuizItem(r.value, quizId, Some(text.GetOr("")), imageUrl, None,
                                              FormInt(correctPosition, None).value, FormInt(itemOrder, Some(1)).value)]
    {
      var position := FormInt(correctPosition, None);
      var order := FormInt(itemOrder, Some(1));
      if imageName.None? {
        r := Err(NoImageProvided);
      } else if imageName.value == "" {
        r := Err(NoImageSelected);
      } else if position.None? || order.None? {
        r := Err(MalformedNumber);
      } else {
        var id := AddItem(quizId, Some(text.GetOr("")), imageUrl, position.value, order.value);
        r := Ok(id);
      }
    }

    /** Stores an item without an original file name under the next item id. */
    method AddItem(quizId: nat, text: Option<string>, imageUrl: string, position: int, order: int) returns (id: nat)
      requires Valid()
      modifies this`items, this`nextItemId
      ensures Valid()
      ensures id == old(nextItemId) && nextItemId == id + 1
      ensures items == old(items)[id := QuizItem(id, quizId, text, imageUrl, None, position, order)]
    {
      id := nextItemId;
      var item := QuizItem(id, quizId, text, imageUrl, None, position, order);
      PutItemKeepsTable(items, nextItemId, item, nextItemId + 1);
      items := items[id := item];
      nextItemId := nextItemId + 1;
    }

    /** `get_quiz`: the quiz with all of its items, in `item_order`. */
    function GetQuiz(quizId: nat): (r: Result<QuizView, ApiError>)
      reads this
      requires Valid()
      ensures r.Err? <==> quizId !in quizzes
      ensures r.Err? ==> r.error == QuizNotFound
      ensures r.Ok? ==> r.value.quiz == quizzes[quizId]
      ensures r.Ok? ==> forall i, j :: 0 <= i < j < |r.value.items| ==> r.value.items[i].itemOrder <= r.value.items[j].itemOrder
      ensures r.Ok? ==> forall x :: x in r.value.items <==> x.id in items && items[x.id] == x && x.quizId == quizId
      ensures r.Ok? ==> multiset(r.value.items) == multiset(ItemsOf(items, quizId, nextItemId))
    {
      if quizId !in quizzes then Err(QuizNotFound)
      else Ok(QuizView(quizzes[quizId], OrderedItems(items, quizId, nextItemId)))
    }

    /** `export_quiz_to_zip`: the archive of a quiz the admin owns, its items in
        `item_order`; a quiz that is missing or belongs to another admin is not
        found. `onDisk` is the set of files in the upload folder. */
    function ExportQuiz(quizId: nat, adminId: nat, onDisk: set<string>): (r: Result<Transfer.Archive, ApiError>)
      reads this
      requires Valid()
      ensures r.Err? <==> quizId !in quizzes || quizzes[quizId].adminId != adminId
      ensures r.Err? ==> r.error == QuizNotFound
      ensures r.Ok? ==> |r.value.rows| == |ItemsOf(items, quizId, nextItemId)|
      ensures r.Ok? ==> r.value == Transfer.QuizArchive(quizzes[quizId].title, quizzes[quizId].description,
                                                         quizzes[quizId].numPositions, OrderedItems(items, quizId, nextItemId), onDisk)
    {
      if quizId !in quizzes || quizzes[quizId].adminId != adminId then Err(QuizNotFound)
      else
        var q := quizzes[quizId];
        var ordered := OrderedItems(items, quizId, nextItemId);
        assert |ordered| == |multiset(ordered)| == |ItemsOf(items, quizId, nextItemId)|;
        Ok(Transfer.QuizArchive(q.title, q.description, q.numPositions, ordered, onDisk))
    }

    /** `update_quiz`: the supplied fields replace the stored ones. */
    method UpdateQuiz(quizId: nat, patch: QuizPatch) returns (r: Result<nat, ApiError>)
      requires Valid()
      modifies this`quizzes
      ensures Valid()
      ensures quizId !in old(quizzes) ==> r == Err(QuizNotFound) && quizzes == old(quizzes)
      ensures quizId in old(quizzes) ==> r == Ok(quizId) && quizzes == old(quizzes)[quizId := PatchQuiz(old(quizzes)[quizId], patch)]
    {
      if quizId !in quizzes {
        return Err(QuizNotFound);
      }
      quizzes := quizzes[quizId := PatchQuiz(quizzes[quizId], patch)];
      r := Ok(quizId);
    }

    /** `update_quiz_item`: supplied text and numbers replace the stored ones,
        and a non-empty uploaded image (stored at `newImageUrl`) replaces the
        image; a number `int()` rejects leaves the item as it was. */
    method UpdateQuizItem(itemId: nat, text: Option<string>, correctPosition: Option<string>,
                          itemOrder: Option<string>, newImageUrl: Option<string>) returns (r: Result<nat, ApiError>)
      requires Valid()
      modifies this`items
      ensures Valid()
      ensures itemId !in old(items) ==> r == Err(ItemNotFound)
      ensures r.Err? ==> items == old(items)
      ensures itemId in old(items) ==>
        (r.Ok? <==> (correctPosition.Some? ==> FormInt(correctPosition, None).Some?) &&
                    (itemOrder.Some? ==> FormInt(itemOrder, None).Some?))
      ensures r.Ok? ==> r.value == itemId && itemId in old(items)
      ensures r.Ok? ==> items == old(items)[itemId := PatchItem(old(items)[itemId],
                          ItemPatch(text, FormInt(correctPosition, None), FormInt(itemOrder, None), newImageUrl))]
    {
      var position := FormInt(correctPosition, None);
      var order := FormInt(itemOrder, None);
      if itemId !in items {
        r := Err(ItemNotFound);
      } else if (correctPosition.Some? && position.None?) || (itemOrder.Some? && order.None?) {
        r := Err(MalformedNumber);
      } else {
        var item := PatchItem(items[itemId], ItemPatch(text, position, order, newImageUrl));
        PutItemKeepsTable(items, nextItemId, item, nextItemId);
        items := items[itemId := item];
        r := Ok(itemId);
      }
    }

    // -------------------------------------------------------------------------
    // Starting and joining a game

    /** `start_game`: a waiting session under a fresh six-character code. The
        quiz id is not checked; a code already in use fails the commit. */
    method StartGame(quizId: nat, adminId: nat, draws: seq<nat>) returns (r: Result<(string, nat), ApiError>)
      requires Valid()
      requires |draws| == CodeLength
      modifies this`sessions, this`nextSessionId
      ensures Valid()
      ensures GenerateGameCode(draws) in old(sessions) ==>
                r == Err(CodeTaken) && sessions == old(sessions) && nextSessionId == old(nextSessionId)
      ensures GenerateGameCode(draws) !in old(sessions) ==>
                r == Ok((GenerateGameCode(draws), old(nextSessionId))) && nextSessionId == old(nextSessionId) + 1 &&
                sessions == old(sessions)[GenerateGameCode(draws) :=
                  GameSession(old(nextSessionId), quizId, adminId, GenerateGameCode(draws), Waiting)]
    {
      var code := GenerateGameCode(draws);
      if code in sessions {
        return Err(CodeTaken);
      }
      var id := AddSession(quizId, adminId, code);
      r := Ok((code, id));
    }

    /** Stores a waiting session under a free code with the next session id. */
    method AddSession(quizId: nat, adminId: nat, code: string) returns (id: nat)
      requires Valid()
      requires code !in sessions && |code| <= MaxGameCodeLength
      modifies this`sessions, this`nextSessionId
      ensures Valid()
      ensures id == old(nextSessionId) && nextSessionId == id + 1
      ensures sessions == old(sessions)[code := GameSession(id, quizId, adminId, code, Waiting)]
    {
      id := nextSessionId;
      var session := NewSession(id, quizId, adminId, code, Some(Waiting));
      AddSessionKeepsTables(sessions, nextSessionId, participants, nextParticipantId, session);
      sessions := sessions[code := session];
      nextSessionId := nextSessionId + 1;
    }

    /** `join_game`: the code is upper-cased; an unknown code or a completed
        game is refused, otherwise one participant with score 0 is added. */
    method JoinGame(code: string, nickname: string) returns (r: Result<(nat, nat), ApiError>)
      requires Valid()
      modifies this`participants, this`nextParticipantId
      ensures Valid()
      ensures Upper(code) !in sessions ==> r == Err(GameNotFound)
      ensures Upper(code) in sessions && sessions[Upper(code)].status == Completed ==> r == Err(GameHasEnded)
      ensures r.Err? ==> participants == old(participants) && nextParticipantId == old(nextParticipantId)
      ensures r.Ok? <==> Upper(code) in sessions && sessions[Upper(code)].status != Completed
      ensures r.Ok? ==> r.value == (old(nextParticipantId), sessions[Upper(code)].id)
      ensures r.Ok? ==> nextParticipantId == old(nextParticipantId) + 1
      ensures r.Ok? ==> participants == old(participants)[old(nextParticipantId) :=
                          Participant(old(nextParticipantId), sessions[Upper(code)].id, nickname, 0)]
    {
      var gameCode := Upper(code);
      if gameCode !in sessions {
        return Err(GameNotFound);
      }
      var game := sessions[gameCode];
      if game.status == Completed {
        return Err(GameHasEnded);
      }
      var id := nextParticipantId;
      assert game.id in SessionIds(sessions);
      participants := participants[id := NewParticipant(id, game.id, nickname)];
      nextParticipantId := nextParticipantId + 1;
      r := Ok((id, game.id));
    }

    // -------------------------------------------------------------------------
    // Socket events

    /** `join_game` event: the connection joins the players' room and the host
        is told who joined. The code is not looked up. */
    method HandleJoinGame(sid: ConnId, code: string, nickname: string, participantId: Option<int>)
      modifies this`rooms, this`outbox
      ensures rooms == old(rooms) + {(sid, GameRoom(code))}
      ensures outbox == old(outbox) + [Emit(Room(HostRoom(code)), ParticipantJoined(nickname, participantId))]
    {
      rooms := rooms + {(sid, GameRoom(code))};
      outbox := outbox + [Emit(Room(HostRoom(code)), ParticipantJoined(nickname, participantId))];
    }

    /** `join_host_room` event: the host's connection joins both rooms of the game. */
    method HandleJoinHostRoom(sid: ConnId, code: string)
      modifies this`rooms
      ensures rooms == old(rooms) + {(sid, HostRoom(code)), (sid, GameRoom(code))}
    {
      rooms := rooms + {(sid, HostRoom(code))};
      rooms := rooms + {(sid, GameRoom(code))};
    }

    /** `start_game` event: the session becomes active whatever its status and
        the players' room receives the quiz with its items in display order.
        When the session's quiz is gone the status change is committed and the
        handler fails before emitting. */
    method HandleStartGame(code: string)
      requires Valid()
      modifies this`sessions, this`outbox
      ensures Valid()
      ensures code !in old(sessions) ==> sessions == old(sessions) && outbox == old(outbox)
      ensures code in old(sessions) ==> sessions == WithStatus(old(sessions), code, Active)
      ensures code in old(sessions) && old(sessions)[code].quizId in quizzes ==>
        outbox == old(outbox) + [Emit(Room(GameRoom(code)),
          GameStarted(quizzes[old(sessions)[code].quizId], OrderedItems(items, old(sessions)[code].quizId, nextItemId)))]
      ensures code in old(sessions) && old(sessions)[code].quizId !in quizzes ==> outbox == old(outbox)
    {
      if code !in sessions {
        return;
      }
      var game := sessions[code];
      AnnounceStart(code, game.quizId);
      SetStatus(code, Active);
    }

    /** Sets the status of the stored session under `code`. */
    method SetStatus(code: string, status: Status)
      requires Valid() && code in sessions
      modifies this`sessions
      ensures Valid()
      ensures sessions == WithStatus(old(sessions), code, status)
    {
      StatusKeepsTables(sessions, nextSessionId, participants, nextParticipantId, code, status);
      sessions := WithStatus(sessions, code, status);
    }

    /** The emit of `start_game`: the players' room receives the quiz and its
        ordered items; nothing is sent when the quiz is gone. */
    method AnnounceStart(code: string, quizId: nat)
      requires ItemsKeyedById(items) && QuizzesValid()
      modifies this`outbox
      ensures quizId in quizzes ==>
        outbox == old(outbox) + [Emit(Room(GameRoom(code)), GameStarted(quizzes[quizId], OrderedItems(items, quizId, nextItemId)))]
      ensures quizId !in quizzes ==> outbox == old(outbox)
    {
      if quizId in quizzes {
        var quiz := quizzes[quizId];
        outbox := outbox + [Emit(Room(GameRoom(code)), GameStarted(quiz, OrderedItems(items, quiz.id, nextItemId)))];
      }
    }

    /** The loop of `submit_answer`: each submitted (item, position) pair is
        checked in order against the stored items and each correct one is
        recorded; the result is the number of correct pairs. */
    method RecordCorrectAnswers(participantId: nat, entries: seq<Entry>) returns (correctCount: nat)
      modifies this`answers
      ensures correctCount == CorrectCount(entries, items)
      ensures answers == old(answers) + CorrectRows(participantId, entries, items)
    {
      correctCount := 0;
      var i := 0;
      while i < |entries|
        invariant 0 <= i <= |entries|
        invariant correctCount == CorrectCount(entries[..i], items)
        invariant answers == old(answers) + CorrectRows(participantId, entries[..i], items)
      {
        var (itemId, position) := entries[i];
        AppendEntry(participantId, entries[..i], entries[i], items);
        assert entries[..i + 1] == entries[..i] + [entries[i]];
        if itemId in items && items[itemId].correctPosition == position {
          correctCount := correctCount + 1;
          answers := answers + [NewAnswer(participantId, itemId, position, Some(true))];
        }
        i := i + 1;
      }
      assert entries[..|entries|] == entries;
    }

    /** `submit_answer` event: the correct pairs are recorded, the participant's
        score is replaced by the points of this submission, and the result goes
        back to the sender only. An unknown participant changes nothing. */
    method HandleSubmitAnswer(sid: ConnId, participantId: nat, entries: seq<Entry>)
      requires Valid()
      modifies this`answers, this`participants, this`outbox
      ensures Valid()
      ensures participantId !in old(participants) ==>
        answers == old(answers) && participants == old(participants) && outbox == old(outbox)
      ensures participantId in old(participants) ==>
        answers == old(answers) + CorrectRows(participantId, entries, items) &&
        participants == old(participants)[participantId :=
          old(participants)[participantId].(totalScore := ScoreOf(entries, items).pointsEarned)] &&
        outbox == old(outbox) + [Emit(Connection(sid), AnswerResult(ScoreOf(entries, items)))]
    {
      if participantId !in participants {
        return;
      }
      var correctCount := RecordCorrectAnswers(participantId, entries);
      AppendAnswersOwned(old(answers), CorrectRows(participantId, entries, items), participants, participantId);
      ReportScore(sid, participantId, Score(correctCount, |entries|, Points(correctCount, |entries|)));
    }

    /** The end of `submit_answer`: the participant's total score becomes the
        points of this submission and the score goes back to the sender. */
    method ReportScore(sid: ConnId, participantId: nat, score: Score)
      requires participantId in participants && ParticipantsValid() && AnswersValid()
      modifies this`participants, this`outbox
      ensures ParticipantsValid() && AnswersValid()
      ensures participants == old(participants)[participantId :=
                old(participants)[participantId].(totalScore := score.pointsEarned)]
      ensures outbox == old(outbox) + [Emit(Connection(sid), AnswerResult(score))]
    {
      ScoreKeepsTables(participants, nextParticipantId, sessions, answers, participantId, score.pointsEarned);
      participants := participants[participantId := participants[participantId].(totalScore := score.pointsEarned)];
      outbox := outbox + [Emit(Connection(sid), AnswerResult(score))];
    }

    /** `get_results` event: the players' room receives the leaderboard of the
        session's participants; nothing stored changes. */
    method HandleGetResults(code: string)
      requires Valid()
      modifies this`outbox
      ensures code !in sessions ==> outbox == old(outbox)
      ensures code in sessions ==>
        outbox == old(outbox) + [Emit(Room(GameRoom(code)),
          ResultsReady(Board(Roster(participants, sessions[code].id, nextParticipantId))))]
    {
      if code !in sessions {
        return;
      }
      var game := sessions[code];
      var board := Board(Roster(participants, game.id, nextParticipantId));
      outbox := outbox + [Emit(Room(GameRoom(code)), ResultsReady(board))];
    }

    /** `end_game` event: the session is completed and the players' room is told. */
    method HandleEndGame(code: string)
      requires Valid()
      modifies this`sessions, this`outbox
      ensures Valid()
      ensures code !in old(sessions) ==> sessions == old(sessions) && outbox == old(outbox)
      ensures code in old(sessions) ==>
        sessions == WithStatus(old(sessions), code, Completed) &&
        outbox == old(outbox) + [Emit(Room(GameRoom(code)), GameEnded)]
    {
      if code !in sessions {
        return;
      }
      SetStatus(code, Completed);
      outbox := outbox + [Emit(Room(GameRoom(code)), GameEnded)];
    }
  }
}
