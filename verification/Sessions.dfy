/** The two session stores: the in-memory `SessionManager` and the two catalog tables, with
    their operations as functions on values. The classes that update them in place are in
    SessionStores.dfy. */
module Sessions {
  import opened Common

  datatype Message = Message(role: string, content: string)

  /** Clock readings are in microseconds, the resolution of `timestamptz`. */
  const MICROS: int := 1_000_000

  /** `time(nullptr)` for a clock reading. */
  function Seconds(now: nat): nat {
    now / MICROS
  }

  // ---------- SessionManager ----------

  datatype ChatSession = ChatSession(messages: seq<Message>, lastActive: nat, maxMessages: int)

  type Memory = map<string, ChatSession>

  function MemoryCreate(mem: Memory, id: string, max: int, now: nat): Memory {
    mem[id := ChatSession([], Seconds(now), max)]
  }

  function MemoryAppend(mem: Memory, id: string, message: Message, now: nat): Memory {
    if id !in mem then mem
    else
      var s := mem[id];
      mem[id := ChatSession(LastN(s.messages + [message], s.maxMessages), Seconds(now), s.maxMessages)]
  }

  function MemorySetMax(mem: Memory, id: string, max: int): Memory {
    if id !in mem then mem
    else mem[id := mem[id].(messages := LastN(mem[id].messages, max), maxMessages := max)]
  }

  /** `get_session`: a successful lookup counts as activity. */
  function MemoryLookup(mem: Memory, id: string, now: nat): Memory {
    if id !in mem then mem else mem[id := mem[id].(lastActive := Seconds(now))]
  }

  predicate MemoryExpired(s: ChatSession, timeout: int, now: nat) {
    Seconds(now) - s.lastActive > timeout
  }

  function MemoryCleanup(mem: Memory, timeout: int, now: nat): Memory {
    map id | id in mem && !MemoryExpired(mem[id], timeout, now) :: mem[id]
  }

  // ---------- The catalog tables ----------

  datatype SessionRow = SessionRow(maxMessages: int, lastActive: nat)

  datatype MessageRow = MessageRow(sessionId: string, message: Message)

  /** `pg_llm_sessions` by primary key, `pg_llm_session_messages` by primary key, and the next
      value of the sequence behind the message ids, shared by all sessions. */
  datatype Tables = Tables(sessions: map<string, SessionRow>, rows: map<nat, MessageRow>, nextId: nat)

  const EMPTY_TABLES := Tables(map[], map[], 0)

  datatype Failure = SessionNotFound | NegativeOffset | DuplicateKey

  /** The foreign key on messages, and ids drawn from the sequence. */
  ghost predicate WellFormed(db: Tables) {
    forall id :: id in db.rows ==> id < db.nextId && db.rows[id].sessionId in db.sessions
  }

  /** `SELECT id ... WHERE session_id = sid ORDER BY id DESC`, for ids below `bound`. */
  function IdsDesc(rows: map<nat, MessageRow>, sid: string, bound: nat): (ids: seq<nat>)
    ensures forall id: nat :: id in ids <==> id < bound && id in rows && rows[id].sessionId == sid
  {
    if bound == 0 then []
    else
      var top := bound - 1;
      (if top in rows && rows[top].sessionId == sid then [top] else []) + IdsDesc(rows, sid, top)
  }

  /** `OFFSET n`. */
  function Offset<T>(s: seq<T>, n: nat): seq<T> {
    if n <= |s| then s[n..] else []
  }

  /** `SELECT role, content ... WHERE session_id = sid ORDER BY id`, for ids below `bound`. */
  function Select(rows: map<nat, MessageRow>, sid: string, bound: nat): seq<Message> {
    if bound == 0 then []
    else
      var top := bound - 1;
      Select(rows, sid, top)
      + (if top in rows && rows[top].sessionId == sid then [rows[top].message] else [])
  }

  function Window(db: Tables, sid: string): seq<Message> {
    Select(db.rows, sid, db.nextId)
  }

  /** `DELETE ... WHERE id IN ids`. */
  function DeleteIds(rows: map<nat, MessageRow>, ids: seq<nat>): map<nat, MessageRow> {
    map id | id in rows && id !in ids :: rows[id]
  }

  /** The rows that the statement of `trim_session_messages` leaves. */
  function Trimmed(rows: map<nat, MessageRow>, sid: string, bound: nat, max: nat): map<nat, MessageRow> {
    DeleteIds(rows, Offset(IdsDesc(rows, sid, bound), max))
  }

  /** `trim_session_messages` for a limit the SQL engine accepts. */
  function Trim(db: Tables, sid: string, max: nat): Tables {
    db.(rows := Trimmed(db.rows, sid, db.nextId, max))
  }

  function Insert(db: Tables, sid: string, message: Message): Tables {
    db.(rows := db.rows[db.nextId := MessageRow(sid, message)], nextId := db.nextId + 1)
  }

  /** An error aborts the statement; a value taken from the id sequence stays taken. */
  datatype Outcome = Outcome(db: Tables, failure: Option<Failure>)

  function TableCreate(db: Tables, id: string, max: int, now: nat): Outcome {
    if id in db.sessions then Outcome(db, Some(DuplicateKey))
    else Outcome(db.(sessions := db.sessions[id := SessionRow(max, now)]), None)
  }

  function TableAppend(db: Tables, id: string, message: Message, now: nat): Outcome {
    if id !in db.sessions then Outcome(db, Some(SessionNotFound))
    else
      var max := db.sessions[id].maxMessages;
      if max < 0 then Outcome(db.(nextId := db.nextId + 1), Some(NegativeOffset))
      else
        var trimmed := Trim(Insert(db, id, message), id, max);
        Outcome(trimmed.(sessions := trimmed.sessions[id := SessionRow(max, now)]), None)
  }

  function TableSetMax(db: Tables, id: string, max: int): Outcome {
    if id !in db.sessions then Outcome(db, Some(SessionNotFound))
    else if max < 0 then Outcome(db, Some(NegativeOffset))
    else
      var row := db.sessions[id].(maxMessages := max);
      Outcome(Trim(db.(sessions := db.sessions[id := row]), id, max), None)
  }

  /** `update_session_state_internal` without the state column. */
  function TableUpdateState(db: Tables, id: string, now: nat): Outcome {
    if id !in db.sessions then Outcome(db, Some(SessionNotFound))
    else Outcome(db.(sessions := db.sessions[id := db.sessions[id].(lastActive := now)]), None)
  }

  /** Rows whose session survives; the cascade of the foreign key removes the others. */
  function KeepSessions(db: Tables, kept: map<string, SessionRow>): Tables {
    Tables(kept, map id | id in db.rows && db.rows[id].sessionId in kept :: db.rows[id], db.nextId)
  }

  function TableDelete(db: Tables, id: string): Tables {
    KeepSessions(db, db.sessions - {id})
  }

  predicate TableExpired(s: SessionRow, timeout: int, now: nat) {
    s.lastActive < now - timeout * MICROS
  }

  function TableCleanup(db: Tables, timeout: int, now: nat): Tables {
    KeepSessions(db, map id | id in db.sessions && !TableExpired(db.sessions[id], timeout, now) :: db.sessions[id])
  }

  // ---------- What the statements do to windows ----------

  /** A window depends only on its own session's rows. */
  lemma {:induction false} SelectFrame(a: map<nat, MessageRow>, b: map<nat, MessageRow>, sid: string, bound: nat)
    requires forall id: nat :: id < bound && id in a && a[id].sessionId == sid ==> id in b && b[id] == a[id]
    requires forall id: nat :: id < bound && id in b && b[id].sessionId == sid ==> id in a && a[id] == b[id]
    ensures Select(a, sid, bound) == Select(b, sid, bound)
  {
    if bound > 0 {
      SelectFrame(a, b, sid, bound - 1);
    }
  }

  /** How a trim below `top + 1` relates to a trim below `top`, row `top` being of the session. */
  lemma TrimCountsTop(rows: map<nat, MessageRow>, sid: string, top: nat, max: nat)
    requires top in rows && rows[top].sessionId == sid
    ensures var trimmed := Trimmed(rows, sid, top + 1, max);
            && (max == 0 ==> top !in trimmed)
            && (max > 0 ==> top in trimmed && trimmed[top] == rows[top])
            && Select(trimmed, sid, top)
               == Select(Trimmed(rows, sid, top, if max == 0 then 0 else max - 1), sid, top)
  {
    var below, ids := IdsDesc(rows, sid, top), IdsDesc(rows, sid, top + 1);
    assert ids == [top] + below;
    if max == 0 {
      assert Offset(ids, 0) == ids && Offset(below, 0) == below;
    } else {
      assert Offset(ids, max) == Offset(below, max - 1);
      assert top !in Offset(below, max - 1);
    }
    SelectFrame(Trimmed(rows, sid, top + 1, max),
                Trimmed(rows, sid, top, if max == 0 then 0 else max - 1), sid, top);
  }

  ghost predicate KeepsNewest(rows: map<nat, MessageRow>, sid: string, bound: nat, max: nat) {
    Select(Trimmed(rows, sid, bound, max), sid, bound) == LastN(Select(rows, sid, bound), max)
  }

  lemma KeepsNoneWithTop(rows: map<nat, MessageRow>, sid: string, top: nat)
    requires top in rows && rows[top].sessionId == sid
    requires KeepsNewest(rows, sid, top, 0)
    ensures KeepsNewest(rows, sid, top + 1, 0)
  {
    TrimCountsTop(rows, sid, top, 0);
  }

  lemma KeepsNewestWithTop(rows: map<nat, MessageRow>, sid: string, top: nat, max: nat)
    requires top in rows && rows[top].sessionId == sid && max > 0
    requires KeepsNewest(rows, sid, top, max - 1)
    ensures KeepsNewest(rows, sid, top + 1, max)
  {
    TrimCountsTop(rows, sid, top, max);
    LastNPush(Select(rows, sid, top), rows[top].message, max);
  }

  lemma KeepsNewestWithoutTop(rows: map<nat, MessageRow>, sid: string, top: nat, max: nat)
    requires !(top in rows && rows[top].sessionId == sid)
    requires KeepsNewest(rows, sid, top, max)
    ensures KeepsNewest(rows, sid, top + 1, max)
  {
    var trimmed := Trimmed(rows, sid, top, max);
    assert IdsDesc(rows, sid, top + 1) == [] + IdsDesc(rows, sid, top) == IdsDesc(rows, sid, top);
    assert Select(rows, sid, top + 1) == Select(rows, sid, top) + [] == Select(rows, sid, top);
    assert Select(trimmed, sid, top + 1) == Select(trimmed, sid, top) + [] == Select(trimmed, sid, top);
  }

  /** Deleting everything past the newest `max` ids leaves the newest `max` messages. */
  lemma {:induction false} TrimKeepsNewest(rows: map<nat, MessageRow>, sid: string, bound: nat, max: nat)
    ensures Select(Trimmed(rows, sid, bound, max), sid, bound) == LastN(Select(rows, sid, bound), max)
  {
    if bound > 0 {
      var top := bound - 1;
      if top in rows && rows[top].sessionId == sid {
        TrimKeepsNewest(rows, sid, top, if max == 0 then 0 else max - 1);
        if max == 0 { KeepsNoneWithTop(rows, sid, top); } else { KeepsNewestWithTop(rows, sid, top, max); }
      } else {
        TrimKeepsNewest(rows, sid, top, max);
        KeepsNewestWithoutTop(rows, sid, top, max);
      }
    }
  }

  lemma LastNPush<T>(s: seq<T>, x: T, n: nat)
    requires n > 0
    ensures LastN(s + [x], n) == LastN(s, n - 1) + [x]
  {
  }

  lemma TrimWindow(db: Tables, sid: string, max: nat, other: string)
    ensures Window(Trim(db, sid, max), other)
         == if other == sid then LastN(Window(db, sid), max) else Window(db, other)
  {
    if other == sid {
      TrimKeepsNewest(db.rows, sid, db.nextId, max);
    } else {
      SelectFrame(db.rows, Trim(db, sid, max).rows, other, db.nextId);
    }
  }

  lemma InsertWindow(db: Tables, sid: string, message: Message, other: string)
    requires WellFormed(db)
    ensures Window(Insert(db, sid, message), other)
         == Window(db, other) + (if other == sid then [message] else [])
  {
    SelectFrame(db.rows, Insert(db, sid, message).rows, other, db.nextId);
  }

  lemma AppendWindow(db: Tables, id: string, message: Message, now: nat, other: string)
    requires WellFormed(db) && id in db.sessions && db.sessions[id].maxMessages >= 0
    ensures Window(TableAppend(db, id, message, now).db, other)
         == if other == id then LastN(Window(db, id) + [message], db.sessions[id].maxMessages)
            else Window(db, other)
  {
    InsertWindow(db, id, message, other);
    TrimWindow(Insert(db, id, message), id, db.sessions[id].maxMessages, other);
  }

  lemma KeepWindow(db: Tables, kept: map<string, SessionRow>, sid: string)
    requires sid in kept
    ensures Window(KeepSessions(db, kept), sid) == Window(db, sid)
  {
    SelectFrame(db.rows, KeepSessions(db, kept).rows, sid, db.nextId);
  }

  lemma {:induction false} UnusedId(rows: map<nat, MessageRow>, sid: string, bound: nat)
    requires bound !in rows
    ensures Select(rows, sid, bound + 1) == Select(rows, sid, bound)
  {
  }

  lemma {:induction false} NoRows(rows: map<nat, MessageRow>, sid: string, bound: nat)
    requires forall id: nat :: id in rows ==> rows[id].sessionId != sid
    ensures Select(rows, sid, bound) == []
  {
    if bound > 0 {
      NoRows(rows, sid, bound - 1);
    }
  }

  // ---------- Runs ----------

  datatype Op =
    | Create(id: string, max: int, now: nat)
    | Append(id: string, message: Message, now: nat)
    | SetMax(id: string, max: int)
    | Lookup(id: string, now: nat)
    | UpdateState(id: string, now: nat)
    | Delete(id: string)
    | Cleanup(timeout: int, now: nat)

  /** `SessionManager` has no call that deletes one session; erasing its map entry is the
      counterpart used for the comparison. It has no state to update either. */
  function MemoryStep(mem: Memory, op: Op): Memory {
    match op
    case Create(id, max, now) => MemoryCreate(mem, id, max, now)
    case Append(id, message, now) => MemoryAppend(mem, id, message, now)
    case SetMax(id, max) => MemorySetMax(mem, id, max)
    case Lookup(id, now) => MemoryLookup(mem, id, now)
    case UpdateState(_, _) => mem
    case Delete(id) => mem - {id}
    case Cleanup(timeout, now) => MemoryCleanup(mem, timeout, now)
  }

  /** Reading a session row does not count as activity. */
  function TableStep(db: Tables, op: Op): Outcome {
    match op
    case Create(id, max, now) => TableCreate(db, id, max, now)
    case Append(id, message, now) => TableAppend(db, id, message, now)
    case SetMax(id, max) => TableSetMax(db, id, max)
    case Lookup(id, _) => Outcome(db, if id in db.sessions then None else Some(SessionNotFound))
    case UpdateState(id, now) => TableUpdateState(db, id, now)
    case Delete(id) => Outcome(TableDelete(db, id), None)
    case Cleanup(timeout, now) => Outcome(TableCleanup(db, timeout, now), None)
  }

  function MemoryRun(ops: seq<Op>): Memory {
    if ops == [] then map[] else MemoryStep(MemoryRun(ops[..|ops| - 1]), ops[|ops| - 1])
  }

  function TableRun(ops: seq<Op>): Tables {
    if ops == [] then EMPTY_TABLES else TableStep(TableRun(ops[..|ops| - 1]), ops[|ops| - 1]).db
  }

  /** The sub-second interval in which the two clocks disagree about expiry: as many whole
      seconds as the timeout have passed, and the microsecond part has grown. */
  predicate InExpiryGap(lastActive: nat, timeout: int, now: nat) {
    now / 1_000_000 - lastActive / 1_000_000 == timeout && lastActive % 1_000_000 < now % 1_000_000
  }

  /** The activity time that one store alone would take over is the one both have already. */
  predicate InActiveSecond(db: Tables, id: string, now: nat) {
    id in db.sessions ==> Seconds(now) == Seconds(db.sessions[id].lastActive)
  }

  /** What a caller must respect for the stores to agree in all respects: limits are not negative,
      created ids are new, lookups and state updates fall into the second of the last activity,
      and cleanup is not called while a session is inside the expiry gap. Naming a missing session
      is allowed. */
  predicate Admissible(db: Tables, op: Op) {
    match op
    case Create(id, max, now) => id !in db.sessions && max >= 0
    case SetMax(id, max) => max >= 0
    case Cleanup(timeout, now) =>
      forall id :: id in db.sessions ==> !InExpiryGap(db.sessions[id].lastActive, timeout, now)
    case Lookup(id, now) => InActiveSecond(db, id, now)
    case UpdateState(id, now) => InActiveSecond(db, id, now)
    case Append(_, _, _) => true
    case Delete(_) => true
  }

  ghost predicate AdmissibleRun(ops: seq<Op>) {
    ops != [] ==>
      AdmissibleRun(ops[..|ops| - 1]) && Admissible(TableRun(ops[..|ops| - 1]), ops[|ops| - 1])
  }

  // ---------- Refinement ----------

  ghost predicate LimitsNonNegative(db: Tables) {
    forall id :: id in db.sessions ==> db.sessions[id].maxMessages >= 0
  }

  ghost predicate Refines(db: Tables, mem: Memory) {
    && WellFormed(db)
    && db.sessions.Keys == mem.Keys
    && forall id :: id in mem ==>
         mem[id] == ChatSession(Window(db, id), Seconds(db.sessions[id].lastActive), db.sessions[id].maxMessages)
  }

  /** The two expiry tests agree exactly outside the gap; inside it only the table expires. */
  lemma ExpiryAgreesOutsideGap(row: SessionRow, timeout: int, now: nat)
    ensures var s := ChatSession([], Seconds(row.lastActive), row.maxMessages);
            && (TableExpired(row, timeout, now) == MemoryExpired(s, timeout, now)
                <==> !InExpiryGap(row.lastActive, timeout, now))
            && (InExpiryGap(row.lastActive, timeout, now) ==> TableExpired(row, timeout, now))
  {
    var n, l := Seconds(now), Seconds(row.lastActive);
    assert now == n * MICROS + now % MICROS && row.lastActive == l * MICROS + row.lastActive % MICROS;
    var d := n - l - timeout;
    assert now - timeout * MICROS - row.lastActive == d * MICROS + (now % MICROS - row.lastActive % MICROS);
  }

  lemma CreateRefines(db: Tables, mem: Memory, id: string, max: int, now: nat)
    requires Refines(db, mem) && id !in db.sessions
    ensures Refines(TableCreate(db, id, max, now).db, MemoryCreate(mem, id, max, now))
  {
    var db' := TableCreate(db, id, max, now).db;
    NoRows(db'.rows, id, db'.nextId);
    assert forall k :: Window(db', k) == Window(db, k);
  }

  lemma AppendRefines(db: Tables, mem: Memory, id: string, message: Message, now: nat)
    requires Refines(db, mem) && LimitsNonNegative(db)
    ensures Refines(TableAppend(db, id, message, now).db, MemoryAppend(mem, id, message, now))
  {
    if id in db.sessions {
      var db', mem' := TableAppend(db, id, message, now).db, MemoryAppend(mem, id, message, now);
      forall k | k in mem'
        ensures mem'[k] == ChatSession(Window(db', k), Seconds(db'.sessions[k].lastActive), db'.sessions[k].maxMessages)
      {
        AppendWindow(db, id, message, now, k);
      }
    }
  }

  lemma SetMaxRefines(db: Tables, mem: Memory, id: string, max: nat)
    requires Refines(db, mem)
    ensures Refines(TableSetMax(db, id, max).db, MemorySetMax(mem, id, max))
  {
    if id in db.sessions {
      var db', mem' := TableSetMax(db, id, max).db, MemorySetMax(mem, id, max);
      var resized := db.(sessions := db.sessions[id := db.sessions[id].(maxMessages := max)]);
      forall k | k in mem'
        ensures mem'[k] == ChatSession(Window(db', k), Seconds(db'.sessions[k].lastActive), db'.sessions[k].maxMessages)
      {
        TrimWindow(resized, id, max, k);
        assert Window(resized, k) == Window(db, k);
      }
    }
  }

  /** Lookups move the activity time in memory only, state updates in the table only. */
  lemma ActivityRefinesIff(db: Tables, mem: Memory, id: string, now: nat)
    requires Refines(db, mem)
    ensures Refines(db, MemoryLookup(mem, id, now)) <==> InActiveSecond(db, id, now)
    ensures Refines(TableUpdateState(db, id, now).db, mem) <==> InActiveSecond(db, id, now)
  {
    if id in mem {
      assert MemoryLookup(mem, id, now)[id].lastActive == Seconds(now);
      assert mem[id].lastActive == Seconds(db.sessions[id].lastActive);
      var db' := TableUpdateState(db, id, now).db;
      assert db'.sessions[id].lastActive == now;
      assert forall k :: Window(db', k) == Window(db, k);
    }
  }

  lemma KeepRefines(db: Tables, mem: Memory, kept: map<string, SessionRow>, mem': Memory)
    requires Refines(db, mem)
    requires kept.Keys == mem'.Keys && kept.Keys <= db.sessions.Keys
    requires forall k :: k in kept ==> kept[k] == db.sessions[k] && mem'[k] == mem[k]
    ensures Refines(KeepSessions(db, kept), mem')
  {
    forall k | k in mem'
      ensures Window(KeepSessions(db, kept), k) == Window(db, k)
    {
      KeepWindow(db, kept, k);
    }
  }

  lemma CleanupRefines(db: Tables, mem: Memory, timeout: int, now: nat)
    requires Refines(db, mem)
    ensures Refines(TableCleanup(db, timeout, now), MemoryCleanup(mem, timeout, now))
       <==> forall id :: id in db.sessions ==> !InExpiryGap(db.sessions[id].lastActive, timeout, now)
  {
    var db', mem' := TableCleanup(db, timeout, now), MemoryCleanup(mem, timeout, now);
    forall id | id in db.sessions
      ensures (id in db'.sessions <==> id in mem') <==> !InExpiryGap(db.sessions[id].lastActive, timeout, now)
    {
      ExpiryAgreesOutsideGap(db.sessions[id], timeout, now);
    }
    if forall id :: id in db.sessions ==> !InExpiryGap(db.sessions[id].lastActive, timeout, now) {
      assert db'.sessions.Keys == mem'.Keys;
      KeepRefines(db, mem, db'.sessions, mem');
    }
  }

  lemma StepRefines(db: Tables, mem: Memory, op: Op)
    requires Refines(db, mem) && LimitsNonNegative(db) && Admissible(db, op)
    ensures Refines(TableStep(db, op).db, MemoryStep(mem, op))
    ensures LimitsNonNegative(TableStep(db, op).db)
    ensures TableStep(db, op).failure
         == if (op.Append? || op.SetMax? || op.Lookup? || op.UpdateState?) && op.id !in mem then Some(SessionNotFound) else None
  {
    match op
    case Create(id, max, now) => CreateRefines(db, mem, id, max, now);
    case Append(id, message, now) => AppendRefines(db, mem, id, message, now);
    case SetMax(id, max) => SetMaxRefines(db, mem, id, max);
    case Lookup(id, now) => ActivityRefinesIff(db, mem, id, now);
    case UpdateState(id, now) => ActivityRefinesIff(db, mem, id, now);
    case Delete(id) => KeepRefines(db, mem, db.sessions - {id}, mem - {id});
    case Cleanup(timeout, now) => CleanupRefines(db, mem, timeout, now);
  }

  /** After every admissible run from empty stores the tables show, for each session, exactly
      the window, limit and activity second that the in-memory manager holds. */
  lemma {:induction false} TablesRefineMemory(ops: seq<Op>)
    requires AdmissibleRun(ops)
    ensures Refines(TableRun(ops), MemoryRun(ops))
    ensures LimitsNonNegative(TableRun(ops))
    decreases |ops|
  {
    if ops != [] {
      TablesRefineMemory(ops[..|ops| - 1]);
      StepRefines(TableRun(ops[..|ops| - 1]), MemoryRun(ops[..|ops| - 1]), ops[|ops| - 1]);
    }
  }

  /** A run in which the stores part: half a second into the gap only the table expires. */
  lemma StoresPartInsideGap(id: string)
    ensures var ops := [Create(id, 10, 0), Cleanup(1, 1_500_000)];
            id in MemoryRun(ops) && id !in TableRun(ops).sessions
  {
    var create, cleanup := Create(id, 10, 0), Cleanup(1, 1_500_000);
    var ops := [create, cleanup];
    assert ops[..1] == [create] && [create][..0] == [];
    assert MemoryRun([create]) == MemoryStep(map[], create);
    assert TableRun([create]) == TableStep(EMPTY_TABLES, create).db;
    assert MemoryRun(ops) == MemoryStep(MemoryRun([create]), cleanup);
    assert TableRun(ops) == TableStep(TableRun([create]), cleanup).db;
  }

  /** Without any condition on the operation, failing ones included: a session that the
      operation does not name keeps its window, or (cleanup only) disappears as a whole. */
  lemma SessionsAreIsolated(db: Tables, op: Op, other: string)
    requires WellFormed(db) && other in db.sessions
    requires op.Cleanup? || op.id != other
    ensures var db' := TableStep(db, op).db;
            && WellFormed(db')
            && (other in db'.sessions ==> db'.sessions[other] == db.sessions[other] && Window(db', other) == Window(db, other))
            && (other !in db'.sessions ==> op.Cleanup? && Window(db', other) == [])
  {
    match op
    case Create(id, max, now) =>
    case Append(id, message, now) =>
      if id in db.sessions {
        if db.sessions[id].maxMessages >= 0 {
          AppendWindow(db, id, message, now, other);
        } else {
          UnusedId(db.rows, other, db.nextId);
        }
      }
    case SetMax(id, max) =>
      if id in db.sessions && max >= 0 {
        TrimWindow(db, id, max, other);
        TrimWindow(db.(sessions := db.sessions[id := db.sessions[id].(maxMessages := max)]), id, max, other);
      }
    case Lookup(_, _) =>
    case UpdateState(_, _) =>
    case Delete(id) => KeepWindow(db, db.sessions - {id}, other);
    case Cleanup(timeout, now) =>
      var db' := TableCleanup(db, timeout, now);
      if other in db'.sessions {
        KeepWindow(db, db'.sessions, other);
      } else {
        NoRows(db'.rows, other, db'.nextId);
      }
  }

  // ---------- Agreement whatever the clocks do ----------

  /** Created ids are new to both stores, and limits are not negative. */
  predicate NewIdsAndLimits(db: Tables, mem: Memory, op: Op) {
    && (op.Create? ==> op.id !in db.sessions && op.id !in mem)
    && (op.Create? || op.SetMax? ==> op.max >= 0)
  }

  ghost predicate OrderlyRun(ops: seq<Op>) {
    ops != [] ==>
      var init, last := ops[..|ops| - 1], ops[|ops| - 1];
      OrderlyRun(init) && NewIdsAndLimits(TableRun(init), MemoryRun(init), last)
  }

  /** Same messages in the same order, and the same limit. */
  ghost predicate AgreeOn(db: Tables, mem: Memory, id: string) {
    id in db.sessions && id in mem ==>
      mem[id].messages == Window(db, id) && mem[id].maxMessages == db.sessions[id].maxMessages >= 0
  }

  lemma OtherStepAgrees(db: Tables, mem: Memory, op: Op, id: string)
    requires WellFormed(db) && AgreeOn(db, mem, id)
    requires op.Cleanup? || op.id != id
    ensures AgreeOn(TableStep(db, op).db, MemoryStep(mem, op), id)
  {
    if id in db.sessions {
      SessionsAreIsolated(db, op, id);
    }
  }

  lemma OwnStepAgrees(db: Tables, mem: Memory, op: Op, id: string)
    requires WellFormed(db) && AgreeOn(db, mem, id)
    requires !op.Cleanup? && op.id == id && NewIdsAndLimits(db, mem, op)
    ensures AgreeOn(TableStep(db, op).db, MemoryStep(mem, op), id)
  {
    match op
    case Create(_, max, now) =>
      NoRows(db.rows, id, db.nextId);
      assert Window(TableStep(db, op).db, id) == Window(db, id) == [];
    case Append(_, message, now) =>
      if id in db.sessions && id in mem { AppendWindow(db, id, message, now, id); }
    case SetMax(_, max) =>
      if id in db.sessions {
        var resized := db.(sessions := db.sessions[id := db.sessions[id].(maxMessages := max)]);
        TrimWindow(resized, id, max, id);
        assert Window(resized, id) == Window(db, id);
      }
    case Lookup(_, _) =>
    case UpdateState(_, now) =>
      assert Window(TableUpdateState(db, id, now).db, id) == Window(db, id);
    case Delete(_) =>
  }

  lemma AppendWellFormed(db: Tables, id: string, message: Message, now: nat)
    requires WellFormed(db)
    ensures WellFormed(TableAppend(db, id, message, now).db)
  {
  }

  lemma SetMaxWellFormed(db: Tables, id: string, max: int)
    requires WellFormed(db)
    ensures WellFormed(TableSetMax(db, id, max).db)
  {
  }

  lemma StepWellFormed(db: Tables, op: Op)
    requires WellFormed(db)
    ensures WellFormed(TableStep(db, op).db)
  {
  }

  lemma {:induction false} RunWellFormed(ops: seq<Op>)
    ensures WellFormed(TableRun(ops))
    decreases |ops|
  {
    if ops != [] {
      RunWellFormed(ops[..|ops| - 1]);
      StepWellFormed(TableRun(ops[..|ops| - 1]), ops[|ops| - 1]);
    }
  }

  /** Whatever lookups, state updates and cleanups do to the activity times of the two stores: a
      session that both still hold has the same messages and the same limit in both. */
  lemma {:induction false} SharedSessionsAgree(ops: seq<Op>, id: string)
    requires OrderlyRun(ops)
    ensures AgreeOn(TableRun(ops), MemoryRun(ops), id)
    decreases |ops|
  {
    if ops != [] {
      var init, last := ops[..|ops| - 1], ops[|ops| - 1];
      SharedSessionsAgree(init, id);
      RunWellFormed(init);
      if last.Cleanup? || last.id != id {
        OtherStepAgrees(TableRun(init), MemoryRun(init), last, id);
      } else {
        OwnStepAgrees(TableRun(init), MemoryRun(init), last, id);
      }
    }
  }

  // ---------- Windows over whole runs ----------

  /** Everything appended to `id` since it was last created. */
  function Log(ops: seq<Op>, id: string): seq<Message> {
    if ops == [] then []
    else
      var init, last := ops[..|ops| - 1], ops[|ops| - 1];
      if last.Create? && last.id == id then []
      else if last.Append? && last.id == id then Log(init, id) + [last.message]
      else Log(init, id)
  }

  /** No limit change since `id` was last created. */
  predicate LimitConstant(ops: seq<Op>, id: string) {
    ops != [] ==>
      var init, last := ops[..|ops| - 1], ops[|ops| - 1];
      || (last.Create? && last.id == id)
      || (!(last.SetMax? && last.id == id) && LimitConstant(init, id))
  }

  predicate LimitsAreNat(ops: seq<Op>) {
    forall op :: op in ops && (op.Create? || op.SetMax?) ==> op.max >= 0
  }

  ghost predicate Follows(s: ChatSession, log: seq<Message>, constant: bool) {
    && |s.messages| <= s.maxMessages
    && IsSuffix(s.messages, log)
    && (constant ==> s.messages == LastN(log, s.maxMessages))
  }

  lemma AppendFollows(s: ChatSession, log: seq<Message>, constant: bool, message: Message, now: nat)
    requires Follows(s, log, constant)
    ensures Follows(ChatSession(LastN(s.messages + [message], s.maxMessages), now, s.maxMessages),
                    log + [message], constant)
  {
  }

  lemma StepFollows(mem: Memory, op: Op, id: string, log: seq<Message>, constant: bool)
    requires id in mem && Follows(mem[id], log, constant) && id in MemoryStep(mem, op)
    requires !(op.Create? && op.id == id) && (op.SetMax? ==> op.max >= 0)
    ensures Follows(MemoryStep(mem, op)[id],
                    if op.Append? && op.id == id then log + [op.message] else log,
                    constant && !(op.SetMax? && op.id == id))
  {
    if op.Append? && op.id == id {
      AppendFollows(mem[id], log, constant, op.message, Seconds(op.now));
    }
  }

  /** The window is always a suffix of the log within the limit, and with a constant limit it
      is exactly the last `min(n, max)` of the `n` messages appended. */
  lemma {:induction false} WindowIsLogSuffix(ops: seq<Op>, id: string)
    requires LimitsAreNat(ops) && id in MemoryRun(ops)
    ensures Follows(MemoryRun(ops)[id], Log(ops, id), LimitConstant(ops, id))
    decreases |ops|
  {
    var init, last := ops[..|ops| - 1], ops[|ops| - 1];
    assert last in ops && forall op :: op in init ==> op in ops;
    if !(last.Create? && last.id == id) {
      WindowIsLogSuffix(init, id);
      StepFollows(MemoryRun(init), last, id, Log(init, id), LimitConstant(init, id));
    }
  }

  // ---------- The same for the tables, for every run, failing operations included ----------

  predicate Succeeds(db: Tables, op: Op) {
    TableStep(db, op).failure.None?
  }

  /** Everything successfully appended to `id` since it was last successfully created. */
  function TableLog(ops: seq<Op>, id: string): seq<Message> {
    if ops == [] then []
    else
      var init, last := ops[..|ops| - 1], ops[|ops| - 1];
      if !Succeeds(TableRun(init), last) then TableLog(init, id)
      else if last.Create? && last.id == id then []
      else if last.Append? && last.id == id then TableLog(init, id) + [last.message]
      else TableLog(init, id)
  }

  predicate TableLimitConstant(ops: seq<Op>, id: string) {
    ops != [] ==>
      var init, last := ops[..|ops| - 1], ops[|ops| - 1];
      if !Succeeds(TableRun(init), last) then TableLimitConstant(init, id)
      else (last.Create? && last.id == id) || (!(last.SetMax? && last.id == id) && TableLimitConstant(init, id))
  }

  /** A table session as an in-memory one; a negative limit keeps nothing, like zero. */
  function SessionView(db: Tables, id: string): ChatSession
    requires id in db.sessions
  {
    var max := db.sessions[id].maxMessages;
    ChatSession(Window(db, id), 0, if max < 0 then 0 else max)
  }

  lemma OwnAppendFollows(db: Tables, id: string, message: Message, now: nat, log: seq<Message>, constant: bool)
    requires WellFormed(db) && id in db.sessions && Follows(SessionView(db, id), log, constant)
    ensures var after := TableAppend(db, id, message, now);
            Follows(SessionView(after.db, id), if after.failure.None? then log + [message] else log, constant)
  {
    if db.sessions[id].maxMessages >= 0 {
      AppendWindow(db, id, message, now, id);
      AppendFollows(SessionView(db, id), log, constant, message, 0);
    } else {
      UnusedId(db.rows, id, db.nextId);
    }
  }

  lemma OwnSetMaxFollows(db: Tables, id: string, max: int, log: seq<Message>, constant: bool)
    requires WellFormed(db) && id in db.sessions && Follows(SessionView(db, id), log, constant)
    ensures var after := TableSetMax(db, id, max);
            Follows(SessionView(after.db, id), log, constant && after.failure.Some?)
  {
    if max >= 0 {
      var resized := db.(sessions := db.sessions[id := db.sessions[id].(maxMessages := max)]);
      TrimWindow(resized, id, max, id);
      assert Window(resized, id) == Window(db, id);
    }
  }

  lemma OwnStepFollows(db: Tables, op: Op, id: string, log: seq<Message>, constant: bool)
    requires WellFormed(db) && id in db.sessions && Follows(SessionView(db, id), log, constant)
    requires !op.Cleanup? && op.id == id && id in TableStep(db, op).db.sessions
    ensures var ok := Succeeds(db, op);
            Follows(SessionView(TableStep(db, op).db, id),
                    if ok && op.Append? then log + [op.message] else log,
                    constant && !(ok && op.SetMax?))
  {
    match op
    case Create(_, _, _) =>
    case Append(_, message, now) => OwnAppendFollows(db, id, message, now, log, constant);
    case SetMax(_, max) => OwnSetMaxFollows(db, id, max, log, constant);
    case Lookup(_, _) =>
    case UpdateState(_, _) =>
    case Delete(_) =>
  }

  lemma CreatedFollows(db: Tables, op: Op)
    requires WellFormed(db) && op.Create? && op.id !in db.sessions
    ensures Follows(SessionView(TableStep(db, op).db, op.id), [], true)
  {
    NoRows(db.rows, op.id, db.nextId);
    assert Window(TableStep(db, op).db, op.id) == Window(db, op.id);
  }

  /** For every run whatsoever: the window of an existing session is a suffix, within the limit,
      of what was successfully appended since its creation, and with a constant limit exactly the
      last `min(n, max)` of it. */
  lemma {:induction false} TableWindowIsLogSuffix(ops: seq<Op>, id: string)
    requires id in TableRun(ops).sessions
    ensures Follows(SessionView(TableRun(ops), id), TableLog(ops, id), TableLimitConstant(ops, id))
    decreases |ops|
  {
    var init, last := ops[..|ops| - 1], ops[|ops| - 1];
    var db := TableRun(init);
    RunWellFormed(init);
    if id !in db.sessions {
      assert last.Create? && last.id == id;
      CreatedFollows(db, last);
    } else {
      TableWindowIsLogSuffix(init, id);
      if !last.Cleanup? && last.id == id {
        OwnStepFollows(db, last, id, TableLog(init, id), TableLimitConstant(init, id));
      } else {
        SessionsAreIsolated(db, last, id);
      }
    }
  }

  // ---------- Errors and activity times ----------

  /** Which of the three errors an operation reports, and that an error leaves sessions and messages
      alone; one id is drawn by every append to an existing session, failing or not. */
  lemma StepErrors(db: Tables, op: Op)
    ensures var after := TableStep(db, op);
            && (after.failure == Some(DuplicateKey) <==> op.Create? && op.id in db.sessions)
            && (after.failure == Some(SessionNotFound) <==>
                  (op.Append? || op.SetMax? || op.Lookup? || op.UpdateState?) && op.id !in db.sessions)
            && (after.failure == Some(NegativeOffset) <==>
                  || (op.Append? && op.id in db.sessions && db.sessions[op.id].maxMessages < 0)
                  || (op.SetMax? && op.id in db.sessions && op.max < 0))
            && (after.failure.Some? ==> after.db.sessions == db.sessions && after.db.rows == db.rows)
            && after.db.nextId == db.nextId + (if op.Append? && op.id in db.sessions then 1 else 0)
  {
  }

  /** The time of the last creation, append or lookup of `id`. */
  function MemoryTouched(ops: seq<Op>, id: string): nat {
    if ops == [] then 0
    else
      var last := ops[|ops| - 1];
      if (last.Create? || last.Append? || last.Lookup?) && last.id == id then last.now
      else MemoryTouched(ops[..|ops| - 1], id)
  }

  /** The time of the last successful creation, append or state update of `id`. */
  function TableTouched(ops: seq<Op>, id: string): nat {
    if ops == [] then 0
    else
      var init, last := ops[..|ops| - 1], ops[|ops| - 1];
      if (last.Create? || last.Append? || last.UpdateState?) && last.id == id && Succeeds(TableRun(init), last) then last.now
      else TableTouched(init, id)
  }

  /** What counts as activity, over every run: in memory also a lookup, in the table also a state
      update, and nothing else does. */
  lemma {:induction false} ActivityIsLastTouch(ops: seq<Op>, id: string)
    ensures id in MemoryRun(ops) ==> MemoryRun(ops)[id].lastActive == Seconds(MemoryTouched(ops, id))
    ensures id in TableRun(ops).sessions ==> TableRun(ops).sessions[id].lastActive == TableTouched(ops, id)
    decreases |ops|
  {
    if ops != [] {
      var init, last := ops[..|ops| - 1], ops[|ops| - 1];
      ActivityIsLastTouch(init, id);
      if id in MemoryRun(ops) { MemoryActivityStep(MemoryRun(init), last, id); }
      if id in TableRun(ops).sessions { TableActivityStep(TableRun(init), last, id); }
    }
  }

  lemma MemoryActivityStep(mem: Memory, op: Op, id: string)
    requires id in MemoryStep(mem, op)
    ensures (op.Create? || op.Append? || op.Lookup?) && op.id == id ==> MemoryStep(mem, op)[id].lastActive == Seconds(op.now)
    ensures !((op.Create? || op.Append? || op.Lookup?) && op.id == id) ==>
              id in mem && MemoryStep(mem, op)[id].lastActive == mem[id].lastActive
  {
  }

  lemma TableActivityStep(db: Tables, op: Op, id: string)
    requires id in TableStep(db, op).db.sessions
    ensures var after, touches := TableStep(db, op).db.sessions[id].lastActive,
                                  (op.Create? || op.Append? || op.UpdateState?) && op.id == id && Succeeds(db, op);
            if touches then after == op.now else id in db.sessions && after == db.sessions[id].lastActive
  {
  }
}
