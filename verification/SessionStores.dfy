/** The two session stores as the objects that are updated in place. */
module SessionStores {
  import opened Common
  import opened Sessions

  /** `SessionManager` of session_manager.h. Ids and clock readings are parameters. */
  class SessionManager {
    var sessions: Memory

    constructor ()
      ensures sessions == map[]
    {
      sessions := map[];
    }

    method CreateSession(id: string, maxMessages: int, now: nat)
      modifies this
      ensures sessions == MemoryCreate(old(sessions), id, maxMessages, now)
    {
      sessions := sessions[id := ChatSession([], Seconds(now), maxMessages)];
    }

    /** A successful lookup counts as activity. */
    method GetSession(id: string, now: nat) returns (session: Option<ChatSession>)
      modifies this
      ensures sessions == MemoryLookup(old(sessions), id, now)
      ensures session == if id in old(sessions) then Some(old(sessions)[id].(lastActive := Seconds(now))) else None
    {
      if id in sessions {
        sessions := sessions[id := sessions[id].(lastActive := Seconds(now))];
        return Some(sessions[id]);
      }
      session := None;
    }

    /** Erase from the front until at most `limit` messages are left. A negative limit would
        erase from an empty vector. */
    method PopOldest(id: string, limit: nat)
      requires id in sessions
      modifies this
      ensures sessions == old(sessions)[id := old(sessions)[id].(messages := LastN(old(sessions)[id].messages, limit))]
    {
      while |sessions[id].messages| > limit
        invariant id in sessions
        invariant sessions == old(sessions)[id := old(sessions)[id].(messages := sessions[id].messages)]
        invariant LastN(sessions[id].messages, limit) == LastN(old(sessions)[id].messages, limit)
        decreases |sessions[id].messages|
      {
        sessions := sessions[id := sessions[id].(messages := sessions[id].messages[1..])];
      }
    }

    method AddMessage(id: string, message: Message, now: nat)
      requires id in sessions ==> sessions[id].maxMessages >= 0
      modifies this
      ensures sessions == MemoryAppend(old(sessions), id, message, now)
    {
      if id in sessions {
        sessions := sessions[id := sessions[id].(messages := sessions[id].messages + [message])];
        PopOldest(id, sessions[id].maxMessages);
        sessions := sessions[id := sessions[id].(lastActive := Seconds(now))];
      }
    }

    method SetMaxMessages(id: string, maxMessages: int) returns (found: bool)
      requires id in sessions ==> maxMessages >= 0
      modifies this
      ensures sessions == MemorySetMax(old(sessions), id, maxMessages)
      ensures found == (id in old(sessions))
    {
      if id in sessions {
        sessions := sessions[id := sessions[id].(maxMessages := maxMessages)];
        PopOldest(id, maxMessages);
        return true;
      }
      found := false;
    }

    method CleanupExpiredSessions(timeout: int, now: nat)
      modifies this
      ensures sessions == MemoryCleanup(old(sessions), timeout, now)
    {
      var todo := sessions.Keys;
      while todo != {}
        invariant todo <= sessions.Keys <= old(sessions).Keys
        invariant forall id :: id in sessions ==> sessions[id] == old(sessions)[id]
        invariant forall id :: id in old(sessions) ==>
                    (id in sessions <==> id in todo || !MemoryExpired(old(sessions)[id], timeout, now))
        decreases todo
      {
        var id :| id in todo;
        todo := todo - {id};
        if Seconds(now) - sessions[id].lastActive > timeout {
          sessions := sessions - {id};
        }
      }
    }
  }

  /** The session functions of pg_llm.cpp over the two catalog tables. Each call is one
      transaction: on failure the tables keep their rows. */
  class SessionTables {
    var sessions: map<string, SessionRow>
    var rows: map<nat, MessageRow>
    var nextId: nat

    ghost function State(): Tables
      reads this
    {
      Tables(sessions, rows, nextId)
    }

    ghost predicate Valid()
      reads this
    {
      WellFormed(State())
    }

    constructor ()
      ensures Valid() && State() == EMPTY_TABLES
    {
      sessions, rows, nextId := map[], map[], 0;
    }

    method CreateSession(id: string, maxMessages: int, now: nat) returns (failure: Option<Failure>)
      requires Valid()
      modifies this
      ensures Valid()
      ensures Outcome(State(), failure) == TableCreate(old(State()), id, maxMessages, now)
    {
      if id in sessions { return Some(DuplicateKey); }
      sessions := sessions[id := SessionRow(maxMessages, now)];
      failure := None;
    }

    method TrimSessionMessages(id: string, maxMessages: int) returns (failure: Option<Failure>)
      modifies `rows
      ensures failure == if maxMessages < 0 then Some(NegativeOffset) else None
      ensures State() == if maxMessages < 0 then old(State()) else Trim(old(State()), id, maxMessages)
    {
      if maxMessages < 0 { return Some(NegativeOffset); }
      var newestFirst := IdsDesc(rows, id, nextId);
      rows := DeleteIds(rows, Offset(newestFirst, maxMessages));
      failure := None;
    }

    method AppendSessionMessage(id: string, message: Message, now: nat) returns (failure: Option<Failure>)
      requires Valid()
      modifies this
      ensures Valid()
      ensures Outcome(State(), failure) == TableAppend(old(State()), id, message, now)
    {
      ghost var before := State();
      AppendWellFormed(before, id, message, now);
      if id !in sessions { return Some(SessionNotFound); }
      var savepoint := rows;
      rows := rows[nextId := MessageRow(id, message)];
      nextId := nextId + 1;
      assert State() == Insert(before, id, message);
      failure := TrimSessionMessages(id, sessions[id].maxMessages);
      if failure.Some? {
        rows := savepoint;
        return;
      }
      assert State() == Trim(Insert(before, id, message), id, before.sessions[id].maxMessages);
      sessions := sessions[id := sessions[id].(lastActive := now)];
    }

    method LoadSessionMessages(id: string) returns (messages: Result<seq<Message>, Failure>)
      requires Valid()
      ensures messages == if id in sessions then Ok(Window(State(), id)) else Err(SessionNotFound)
    {
      if id !in sessions { return Err(SessionNotFound); }
      messages := Ok(Select(rows, id, nextId));
    }

    method SetMaxMessages(id: string, maxMessages: int) returns (failure: Option<Failure>)
      requires Valid()
      modifies this
      ensures Valid()
      ensures Outcome(State(), failure) == TableSetMax(old(State()), id, maxMessages)
    {
      SetMaxWellFormed(State(), id, maxMessages);
      if id !in sessions { return Some(SessionNotFound); }
      var savepoint := sessions;
      sessions := sessions[id := sessions[id].(maxMessages := maxMessages)];
      failure := TrimSessionMessages(id, maxMessages);
      if failure.Some? {
        sessions := savepoint;
      }
    }

    method UpdateSessionState(id: string, now: nat) returns (failure: Option<Failure>)
      requires Valid()
      modifies `sessions
      ensures Valid()
      ensures Outcome(State(), failure) == TableUpdateState(old(State()), id, now)
    {
      if id !in sessions { return Some(SessionNotFound); }
      sessions := sessions[id := sessions[id].(lastActive := now)];
      failure := None;
    }

    method DeleteSession(id: string) returns (affected: bool)
      requires Valid()
      modifies this
      ensures Valid()
      ensures State() == TableDelete(old(State()), id)
      ensures affected == (id in old(sessions))
    {
      rows := map m | m in rows && rows[m].sessionId != id :: rows[m];
      affected := id in sessions;
      sessions := sessions - {id};
      assert rows == TableDelete(old(State()), id).rows;
    }

    method CleanupSessions(timeout: int, now: nat)
      requires Valid()
      modifies this
      ensures Valid()
      ensures State() == TableCleanup(old(State()), timeout, now)
    {
      sessions := map id | id in sessions && !TableExpired(sessions[id], timeout, now) :: sessions[id];
      rows := map m | m in rows && rows[m].sessionId in sessions :: rows[m];
    }
  }
}
