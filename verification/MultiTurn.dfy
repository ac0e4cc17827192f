/** Multi-turn chat over the session tables (`execute_single_chat_internal` with a session and
    without streaming): what the model is shown and what a session's window looks like between
    turns. */
module MultiTurn {
  import opened Common
  import opened Sessions

  /** A chat carries the prompt as typed, the prompt after the retrieval step, which may extend
      it, and the reply that routing and the models came up with. */
  datatype Turn =
    | NewSession(id: string, max: int, now: nat)
    | Chat(id: string, prompt: string, augmented: string, reply: string, now: nat)
    | Resize(id: string, max: int)
    | Drop(id: string)
    | Sweep(timeout: int, now: nat)

  /** The messages handed to the model: the stored window and the augmented prompt. */
  function Shown(db: Tables, id: string, augmented: string): seq<Message> {
    Window(db, id) + [Message("user", augmented)]
  }

  /** The prompt as typed and the reply are appended, each with its own trim. */
  function ChatStep(db: Tables, id: string, prompt: string, reply: string, now: nat): Outcome {
    if id !in db.sessions then Outcome(db, Some(SessionNotFound))
    else
      var first := TableAppend(db, id, Message("user", prompt), now);
      if first.failure.Some? then first
      else TableAppend(first.db, id, Message("assistant", reply), now)
  }

  function TurnStep(db: Tables, turn: Turn): Tables {
    match turn
    case NewSession(id, max, now) => TableCreate(db, id, max, now).db
    case Chat(id, prompt, _, reply, now) => ChatStep(db, id, prompt, reply, now).db
    case Resize(id, max) => TableSetMax(db, id, max).db
    case Drop(id) => TableDelete(db, id)
    case Sweep(timeout, now) => TableCleanup(db, timeout, now)
  }

  function TurnRun(turns: seq<Turn>): Tables {
    if turns == [] then EMPTY_TABLES
    else TurnStep(TurnRun(turns[..|turns| - 1]), turns[|turns| - 1])
  }

  predicate Alternates(w: seq<Message>) {
    forall i :: 0 <= i < |w| ==> w[i].role == if i % 2 == 0 then "user" else "assistant"
  }

  /** A window of whole turns. */
  predicate WholeTurns(w: seq<Message>) {
    |w| % 2 == 0 && Alternates(w)
  }

  function AfterTurn(w: seq<Message>, prompt: string, reply: string, max: int): seq<Message> {
    LastN(LastN(w + [Message("user", prompt)], max) + [Message("assistant", reply)], max)
  }

  lemma AfterTurnWindow(w: seq<Message>, prompt: string, reply: string, max: nat)
    requires |w| <= max
    ensures var user, assistant := Message("user", prompt), Message("assistant", reply);
            AfterTurn(w, prompt, reply, max)
            == if max == 0 then [] else if max == 1 then [assistant]
               else (if |w| + 2 <= max then w else w[|w| + 2 - max..]) + [user, assistant]
  {
    var user, assistant := Message("user", prompt), Message("assistant", reply);
    if max >= 2 {
      if |w| < max {
        assert LastN(w + [user], max) == w + [user];
        assert (w + [user]) + [assistant] == w + [user, assistant];
      } else {
        assert LastN(w + [user], max) == w[1..] + [user];
        assert (w[1..] + [user]) + [assistant] == w[1..] + [user, assistant];
      }
    }
  }

  lemma DropTurns(w: seq<Message>, d: nat)
    requires WholeTurns(w) && d <= |w| && d % 2 == 0
    ensures WholeTurns(w[d..])
  {
    forall i | 0 <= i < |w| - d
      ensures w[d..][i].role == if i % 2 == 0 then "user" else "assistant"
    {
      assert w[d..][i] == w[i + d];
      assert (i + 2 * (d / 2)) % 2 == i % 2;
    }
  }

  lemma AddTurn(w: seq<Message>, prompt: string, reply: string)
    requires WholeTurns(w)
    ensures WholeTurns(w + [Message("user", prompt), Message("assistant", reply)])
  {
  }

  /** One turn keeps a window of whole turns exactly when the limit is even or still has room
      for both messages. */
  lemma TurnKeepsWholeTurnsIff(w: seq<Message>, prompt: string, reply: string, max: nat)
    requires WholeTurns(w) && |w| <= max
    ensures WholeTurns(AfterTurn(w, prompt, reply, max)) <==> max % 2 == 0 || |w| + 2 <= max
  {
    AfterTurnWindow(w, prompt, reply, max);
    if max >= 2 {
      if |w| + 2 <= max {
        AddTurn(w, prompt, reply);
      } else if max % 2 == 0 {
        DropTurns(w, |w| + 2 - max);
        AddTurn(w[|w| + 2 - max..], prompt, reply);
      }
    }
  }

  ghost predicate BetweenTurns(db: Tables, id: string)
    requires id in db.sessions
  {
    var max := db.sessions[id].maxMessages;
    max >= 0 && max % 2 == 0 && |Window(db, id)| <= max && WholeTurns(Window(db, id))
  }

  ghost predicate TurnInvariant(db: Tables) {
    && WellFormed(db)
    && forall id :: id in db.sessions ==> BetweenTurns(db, id)
  }

  predicate EvenLimit(turn: Turn) {
    turn.NewSession? || turn.Resize? ==> turn.max >= 0 && turn.max % 2 == 0
  }

  lemma AppendFacts(db: Tables, id: string, message: Message, now: nat)
    requires WellFormed(db) && id in db.sessions && db.sessions[id].maxMessages >= 0
    ensures var after := TableAppend(db, id, message, now);
            && after.failure.None? && WellFormed(after.db)
            && after.db.sessions == db.sessions[id := SessionRow(db.sessions[id].maxMessages, now)]
  {
  }

  /** A chat fails exactly in a missing session or one with a negative limit, and then no window
      changes. */
  lemma ChatFailsIff(db: Tables, id: string, prompt: string, reply: string, now: nat)
    ensures var after := ChatStep(db, id, prompt, reply, now);
            && (after.failure == Some(SessionNotFound) <==> id !in db.sessions)
            && (after.failure == Some(NegativeOffset) <==> id in db.sessions && db.sessions[id].maxMessages < 0)
            && after.failure != Some(DuplicateKey)
            && (after.failure.Some? ==> after.db.sessions == db.sessions && after.db.rows == db.rows)
  {
  }

  lemma ChatWindow(db: Tables, id: string, prompt: string, reply: string, now: nat, other: string)
    requires WellFormed(db) && id in db.sessions && db.sessions[id].maxMessages >= 0
    ensures var db' := ChatStep(db, id, prompt, reply, now).db;
            && WellFormed(db')
            && db'.sessions == db.sessions[id := SessionRow(db.sessions[id].maxMessages, now)]
            && Window(db', other) == if other == id then AfterTurn(Window(db, id), prompt, reply, db.sessions[id].maxMessages)
                                     else Window(db, other)
  {
    var user, assistant := Message("user", prompt), Message("assistant", reply);
    var first := TableAppend(db, id, user, now).db;
    AppendFacts(db, id, user, now);
    AppendFacts(first, id, assistant, now);
    AppendWindow(db, id, user, now, other);
    AppendWindow(first, id, assistant, now, other);
  }

  lemma ResizeWindow(db: Tables, id: string, max: nat, other: string)
    requires WellFormed(db) && id in db.sessions
    ensures Window(TableSetMax(db, id, max).db, other)
         == if other == id then LastN(Window(db, id), max) else Window(db, other)
  {
    var resized := db.(sessions := db.sessions[id := db.sessions[id].(maxMessages := max)]);
    TrimWindow(resized, id, max, other);
    assert Window(resized, other) == Window(db, other);
  }

  lemma ChatKeepsInvariant(db: Tables, id: string, prompt: string, reply: string, now: nat)
    requires TurnInvariant(db) && id in db.sessions
    ensures TurnInvariant(ChatStep(db, id, prompt, reply, now).db)
  {
    var db' := ChatStep(db, id, prompt, reply, now).db;
    assert BetweenTurns(db, id);
    ChatWindow(db, id, prompt, reply, now, id);
    TurnKeepsWholeTurnsIff(Window(db, id), prompt, reply, db.sessions[id].maxMessages);
    forall other | other in db'.sessions
      ensures BetweenTurns(db', other)
    {
      ChatWindow(db, id, prompt, reply, now, other);
      assert BetweenTurns(db, other);
    }
  }

  /** The newest `max` messages of whole turns are whole turns exactly when `max` is even or
      cuts nothing. */
  lemma LastNTurnsIff(w: seq<Message>, max: nat)
    requires WholeTurns(w)
    ensures |LastN(w, max)| <= max
    ensures WholeTurns(LastN(w, max)) <==> max % 2 == 0 || |w| <= max
  {
    if 0 < max < |w| && max % 2 == 0 {
      DropTurns(w, |w| - max);
    }
  }

  /** A limit change keeps whole turns exactly when it is refused, is even or cuts nothing. */
  lemma ResizeKeepsWholeTurnsIff(db: Tables, id: string, max: int)
    requires WellFormed(db) && id in db.sessions && WholeTurns(Window(db, id))
    ensures WholeTurns(Window(TableSetMax(db, id, max).db, id))
       <==> max < 0 || max % 2 == 0 || |Window(db, id)| <= max
  {
    if max >= 0 {
      ResizeWindow(db, id, max, id);
      LastNTurnsIff(Window(db, id), max);
    }
  }

  lemma ResizeKeepsInvariant(db: Tables, id: string, max: nat)
    requires TurnInvariant(db) && id in db.sessions && max % 2 == 0
    ensures TurnInvariant(TableSetMax(db, id, max).db)
  {
    var db' := TableSetMax(db, id, max).db;
    assert BetweenTurns(db, id);
    LastNTurnsIff(Window(db, id), max);
    forall other | other in db'.sessions
      ensures BetweenTurns(db', other)
    {
      ResizeWindow(db, id, max, other);
      assert BetweenTurns(db, other);
    }
  }

  lemma NewSessionKeepsInvariant(db: Tables, id: string, max: nat, now: nat)
    requires TurnInvariant(db) && id !in db.sessions && max % 2 == 0
    ensures TurnInvariant(TableCreate(db, id, max, now).db)
  {
    var db' := TableCreate(db, id, max, now).db;
    NoRows(db.rows, id, db.nextId);
    forall other | other in db'.sessions
      ensures BetweenTurns(db', other)
    {
      assert Window(db', other) == Window(db, other);
      assert other != id ==> BetweenTurns(db, other);
    }
  }

  lemma KeepKeepsInvariant(db: Tables, kept: map<string, SessionRow>)
    requires TurnInvariant(db)
    requires forall id :: id in kept ==> id in db.sessions && kept[id] == db.sessions[id]
    ensures TurnInvariant(KeepSessions(db, kept))
  {
    forall other | other in kept
      ensures BetweenTurns(KeepSessions(db, kept), other)
    {
      KeepWindow(db, kept, other);
      assert BetweenTurns(db, other);
    }
  }

  lemma TurnKeepsInvariant(db: Tables, turn: Turn)
    requires TurnInvariant(db) && EvenLimit(turn)
    ensures TurnInvariant(TurnStep(db, turn))
  {
    match turn
    case NewSession(id, max, now) =>
      if id !in db.sessions { NewSessionKeepsInvariant(db, id, max, now); }
    case Chat(id, prompt, _, reply, now) =>
      if id in db.sessions { ChatKeepsInvariant(db, id, prompt, reply, now); }
    case Resize(id, max) =>
      if id in db.sessions { ResizeKeepsInvariant(db, id, max); }
    case Drop(id) =>
      KeepKeepsInvariant(db, db.sessions - {id});
    case Sweep(timeout, now) =>
      KeepKeepsInvariant(db, TableCleanup(db, timeout, now).sessions);
  }

  lemma {:induction false} TurnRunInvariant(turns: seq<Turn>)
    requires forall turn :: turn in turns ==> EvenLimit(turn)
    ensures TurnInvariant(TurnRun(turns))
    decreases |turns|
  {
    if turns != [] {
      var init := turns[..|turns| - 1];
      TurnRunInvariant(init);
      TurnKeepsInvariant(TurnRun(init), turns[|turns| - 1]);
    }
  }

  /** Turn `i` of the run is a chat in an existing session. */
  predicate Chats(turns: seq<Turn>, i: nat) {
    i < |turns| && turns[i].Chat? && turns[i].id in TurnRun(turns[..i]).sessions
  }

  /** An alternating list that ends in the prompt, of at most `max + 1` entries. */
  predicate ShowsTurns(shown: seq<Message>, augmented: string, max: int) {
    && Alternates(shown) && |shown| % 2 == 1
    && shown[|shown| - 1] == Message("user", augmented)
    && |shown| <= max + 1
  }

  lemma ShownBetweenTurns(db: Tables, id: string, augmented: string)
    requires id in db.sessions && BetweenTurns(db, id)
    ensures ShowsTurns(Shown(db, id, augmented), augmented, db.sessions[id].maxMessages)
  {
  }

  ghost predicate ShownTurns(turns: seq<Turn>, i: nat)
    requires Chats(turns, i)
  {
    var db, chat := TurnRun(turns[..i]), turns[i];
    ShowsTurns(Shown(db, chat.id, chat.augmented), chat.augmented, db.sessions[chat.id].maxMessages)
  }

  lemma ShownInRun(turns: seq<Turn>, i: nat)
    requires forall turn :: turn in turns ==> EvenLimit(turn)
    requires Chats(turns, i)
    ensures ShownTurns(turns, i)
  {
    var db, chat := TurnRun(turns[..i]), turns[i];
    TurnRunInvariant(turns[..i]);
    assert BetweenTurns(db, chat.id);
    ShownBetweenTurns(db, chat.id, chat.augmented);
  }

  /** In every run in which all limits are even and not negative, between turns each session's
      window has even length and alternates user, assistant, starting with user; and in every
      chat of the run the model saw an alternating list that ends in the prompt, of at most
      `max_messages + 1` entries. */
  lemma {:induction false} TurnStructure(turns: seq<Turn>)
    requires forall turn :: turn in turns ==> EvenLimit(turn)
    ensures forall id :: id in TurnRun(turns).sessions ==> WholeTurns(Window(TurnRun(turns), id))
    ensures forall i: nat :: Chats(turns, i) ==> ShownTurns(turns, i)
  {
    TurnRunInvariant(turns);
    var db := TurnRun(turns);
    forall id | id in db.sessions
      ensures WholeTurns(Window(db, id))
    {
      assert BetweenTurns(db, id);
    }
    forall i: nat | Chats(turns, i)
      ensures ShownTurns(turns, i)
    {
      ShownInRun(turns, i);
    }
  }

  /** With a limit of one the first turn already leaves only the reply. */
  lemma OddLimitBreaksTurns(id: string, prompt: string, augmented: string, reply: string)
    ensures var turns := [NewSession(id, 1, 0), Chat(id, prompt, augmented, reply, 0)];
            Window(TurnRun(turns), id) == [Message("assistant", reply)]
  {
    var start, chat := NewSession(id, 1, 0), Chat(id, prompt, augmented, reply, 0);
    var turns := [start, chat];
    assert turns[..1] == [start] && [start][..0] == [];
    var db := TableCreate(EMPTY_TABLES, id, 1, 0).db;
    assert TurnRun([start]) == TurnStep(EMPTY_TABLES, start) == db;
    assert TurnRun(turns) == TurnStep(db, chat);
    assert Window(db, id) == [];
    ChatWindow(db, id, prompt, reply, 0, id);
    AfterTurnWindow([], prompt, reply, 1);
  }

  // ---------- Turns as session operations ----------

  function TurnOps(db: Tables, turn: Turn): seq<Op> {
    match turn
    case NewSession(id, max, now) => [Create(id, max, now)]
    case Resize(id, max) => [SetMax(id, max)]
    case Drop(id) => [Delete(id)]
    case Sweep(timeout, now) => [Cleanup(timeout, now)]
    case Chat(id, prompt, _, reply, now) =>
      if id !in db.sessions then []
      else
        var user := Append(id, Message("user", prompt), now);
        if db.sessions[id].maxMessages < 0 then [user]
        else [user, Append(id, Message("assistant", reply), now)]
  }

  function OpsOf(turns: seq<Turn>): seq<Op> {
    if turns == [] then []
    else
      var init := turns[..|turns| - 1];
      OpsOf(init) + TurnOps(TurnRun(init), turns[|turns| - 1])
  }

  lemma RunOne(ops: seq<Op>, op: Op)
    ensures TableRun(ops + [op]) == TableStep(TableRun(ops), op).db
  {
    assert (ops + [op])[..|ops|] == ops;
  }

  lemma RunTwo(ops: seq<Op>, first: Op, second: Op)
    ensures TableRun(ops + [first, second]) == TableStep(TableStep(TableRun(ops), first).db, second).db
  {
    RunOne(ops, first);
    RunOne(ops + [first], second);
    assert ops + [first, second] == (ops + [first]) + [second];
  }

  /** One turn does to the tables what its operations do. */
  lemma TurnIsItsOps(db: Tables, turn: Turn)
    ensures var ops, after := TurnOps(db, turn), TurnStep(db, turn);
            && |ops| <= 2
            && (|ops| == 0 ==> after == db)
            && (|ops| == 1 ==> after == TableStep(db, ops[0]).db)
            && (|ops| == 2 ==> after == TableStep(TableStep(db, ops[0]).db, ops[1]).db)
  {
  }

  lemma RunTurnOps(ops: seq<Op>, turn: Turn)
    ensures TableRun(ops + TurnOps(TableRun(ops), turn))
         == TurnStep(TableRun(ops), turn)
  {
    var added := TurnOps(TableRun(ops), turn);
    TurnIsItsOps(TableRun(ops), turn);
    if |added| == 0 {
      assert ops + added == ops;
    } else if |added| == 1 {
      assert added == [added[0]];
      RunOne(ops, added[0]);
    } else {
      assert added == [added[0], added[1]];
      RunTwo(ops, added[0], added[1]);
    }
  }

  /** A run of turns is a run of the session tables, so everything proved about those holds of
      chats: in particular a window is always a suffix of the session's transcript. */
  lemma {:induction false} TurnsAreSessionRuns(turns: seq<Turn>)
    ensures TurnRun(turns) == TableRun(OpsOf(turns))
    decreases |turns|
  {
    if turns != [] {
      var init := turns[..|turns| - 1];
      TurnsAreSessionRuns(init);
      RunTurnOps(OpsOf(init), turns[|turns| - 1]);
    }
  }

  lemma {:induction false} WindowIsTranscriptSuffix(turns: seq<Turn>, id: string)
    requires id in TurnRun(turns).sessions
    ensures var ops := OpsOf(turns);
            Follows(SessionView(TurnRun(turns), id), TableLog(ops, id), TableLimitConstant(ops, id))
  {
    TurnsAreSessionRuns(turns);
    TableWindowIsLogSuffix(OpsOf(turns), id);
  }

  /** The messages a model is shown: the newest of what was said in the session, oldest first, and
      then the prompt. */
  ghost predicate ShowsHistory(shown: seq<Message>, augmented: string, log: seq<Message>, size: nat, max: int, constant: bool) {
    && |shown| == size + 1
    && shown[size] == Message("user", augmented)
    && IsSuffix(shown[..size], log)
    && (constant ==> shown[..size] == LastN(log, max))
  }

  /** In every chat of every run, whatever the limits: the model sees the session's transcript up
      to then, cut to the stored window, and after it the prompt; under a constant limit exactly
      the last `min(n, max)` of the `n` prompts and replies. */
  lemma {:induction false} ModelSeesHistory(turns: seq<Turn>, i: nat)
    requires Chats(turns, i)
    ensures var db, ops, chat := TurnRun(turns[..i]), OpsOf(turns[..i]), turns[i];
            ShowsHistory(Shown(db, chat.id, chat.augmented), chat.augmented, TableLog(ops, chat.id),
                         |Window(db, chat.id)|, db.sessions[chat.id].maxMessages, TableLimitConstant(ops, chat.id))
  {
    var db, chat := TurnRun(turns[..i]), turns[i];
    WindowIsTranscriptSuffix(turns[..i], chat.id);
    assert Shown(db, chat.id, chat.augmented)[..|Window(db, chat.id)|] == Window(db, chat.id);
  }
}
