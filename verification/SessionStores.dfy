/** The encrypted session stores of the sync gateway, in memory and in a file, against the plain
    expiring map they stand for. Encryption is a seal that opens under the same key for the same
    session; storage keys are digests of session identifiers, taken as one-to-one. */
module SessionStores {
  import opened Common

  type SessionId = nat
  type KeyId = nat
  type Time = nat

  /** A session value as its JSON text; the length of the text is its size in bytes. */
  type Value = string

  const MAX_SESSION_BYTES := 1024 * 1024
  /** The initialization vector and the authentication tag. */
  const SEAL_OVERHEAD := 28

  // ----- the cipher -----

  /** `Legacy` payloads carry no key name and are tried under every key. */
  datatype Ciphertext =
    | Sealed(key: KeyId, session: SessionId, value: Value)
    | Legacy(key: KeyId, session: SessionId, value: Value)

  datatype Opened = Opened(value: Value, needsRotation: bool)

  predicate PayloadAccepted(v: Value) {
    29 <= SEAL_OVERHEAD + |v| <= MAX_SESSION_BYTES
  }

  function Encrypt(keys: seq<KeyId>, session: SessionId, v: Value): Option<Ciphertext>
    requires keys != []
  {
    if |v| > MAX_SESSION_BYTES then None else Some(Sealed(keys[0], session, v))
  }

  function Decrypt(keys: seq<KeyId>, session: SessionId, c: Ciphertext): Option<Opened>
    requires keys != []
  {
    if c.key !in keys || c.session != session || !PayloadAccepted(c.value) then None
    else Some(Opened(c.value, c.Legacy? || c.key != keys[0]))
  }

  /** Sealing adds 28 bytes, but both directions compare with the same limit: a sealed value opens
      again exactly when it leaves room for them. */
  lemma SealRoundTrip(keys: seq<KeyId>, session: SessionId, v: Value)
    requires keys != [] && |v| > 0
    ensures Encrypt(keys, session, v).Some? <==> |v| <= MAX_SESSION_BYTES
    ensures Encrypt(keys, session, v).Some? ==>
              (Decrypt(keys, session, Encrypt(keys, session, v).value) == Some(Opened(v, false))
               <==> |v| <= MAX_SESSION_BYTES - SEAL_OVERHEAD)
  {
  }

  // ----- requests and answers -----

  datatype Request =
    | Get(id: SessionId)
    | Set(id: SessionId, value: Value)
    | Take(id: SessionId)
    | Move(id: SessionId, to: SessionId, value: Value)
    | Delete(id: SessionId)

  datatype Answer = Absent | Found(value: Value) | Done | Unauthorized | TooLarge

  // ----- the plain expiring map -----

  datatype Entry = Entry(value: Value, expiresAt: Time)
  type Plain = map<SessionId, Entry>

  predicate Live(m: Plain, id: SessionId, now: Time) {
    id in m && now < m[id].expiresAt
  }

  function PlainAnswer(m: Plain, r: Request, now: Time): Answer {
    match r
    case Get(id) => if Live(m, id, now) then Found(m[id].value) else Absent
    case Set(id, v) => if |v| > MAX_SESSION_BYTES then TooLarge else Done
    case Take(id) => if Live(m, id, now) then Found(m[id].value) else Absent
    case Move(id, to, v) =>
      if !Live(m, id, now) then Unauthorized else if |v| > MAX_SESSION_BYTES then TooLarge else Done
    case Delete(id) => Done
  }

  function PlainNext(m: Plain, r: Request, now: Time, ttl: nat): Plain {
    match r
    case Get(id) => m
    case Set(id, v) => if |v| > MAX_SESSION_BYTES then m else m[id := Entry(v, now + ttl)]
    case Take(id) => m - {id}
    case Move(id, to, v) =>
      if !Live(m, id, now) then m - {id}
      else if |v| > MAX_SESSION_BYTES then m
      else (m - {id})[to := Entry(v, now + ttl)]
    case Delete(id) => m - {id}
  }

  // ----- the encrypted table -----

  datatype Record = Record(ciphertext: Ciphertext, expiresAt: Time)
  type Table = map<SessionId, Record>

  datatype Result = Result(table: Table, answer: Answer)

  /** `get`: an expired record is dropped, one that does not open is dropped and refused, and one
      sealed under an older key is sealed again under the first key. */
  function GetStep(t: Table, keys: seq<KeyId>, id: SessionId, now: Time): Result
    requires keys != []
  {
    if id !in t then Result(t, Absent)
    else if t[id].expiresAt <= now then Result(t - {id}, Absent)
    else
      match Decrypt(keys, id, t[id].ciphertext)
      case None => Result(t - {id}, Unauthorized)
      case Some(clear) =>
        if clear.needsRotation then
          Result(t[id := t[id].(ciphertext := Sealed(keys[0], id, clear.value))], Found(clear.value))
        else Result(t, Found(clear.value))
  }

  function PutStep(t: Table, keys: seq<KeyId>, id: SessionId, v: Value, now: Time, ttl: nat): Result
    requires keys != []
  {
    match Encrypt(keys, id, v)
    case None => Result(t, TooLarge)
    case Some(c) => Result(t[id := Record(c, now + ttl)], Done)
  }

  function TakeStep(t: Table, keys: seq<KeyId>, id: SessionId, now: Time): Result
    requires keys != []
  {
    if id !in t || t[id].expiresAt <= now then Result(t - {id}, Absent)
    else
      match Decrypt(keys, id, t[id].ciphertext)
      case None => Result(t - {id}, Unauthorized)
      case Some(clear) => Result(t - {id}, Found(clear.value))
  }

  function MoveStep(
      t: Table, keys: seq<KeyId>, id: SessionId, to: SessionId, v: Value, now: Time, ttl: nat): Result
    requires keys != []
  {
    if id !in t || t[id].expiresAt <= now || Decrypt(keys, id, t[id].ciphertext).None? then
      Result(t - {id}, Unauthorized)
    else
      match Encrypt(keys, to, v)
      case None => Result(t, TooLarge)
      case Some(c) =>
        Result(if id == to then t[to := Record(c, now + ttl)] else t[to := Record(c, now + ttl)] - {id}, Done)
  }

  function Purged(t: Table, now: Time): Table {
    map id | id in t && now < t[id].expiresAt :: t[id]
  }

  function MemoryStep(t: Table, keys: seq<KeyId>, r: Request, now: Time, ttl: nat): Result
    requires keys != []
  {
    match r
    case Get(id) => GetStep(t, keys, id, now)
    case Set(id, v) => PutStep(t, keys, id, v, now, ttl)
    case Take(id) => TakeStep(t, keys, id, now)
    case Move(id, to, v) => MoveStep(t, keys, id, to, v, now, ttl)
    case Delete(id) => Result(t - {id}, Done)
  }

  /** The file store differs in `set`: it purges every expired record, unless the value is refused and
      nothing is written. */
  function FileStep(t: Table, keys: seq<KeyId>, r: Request, now: Time, ttl: nat): Result
    requires keys != []
  {
    if r.Set? && |r.value| <= MAX_SESSION_BYTES
    then PutStep(Purged(t, now), keys, r.id, r.value, now, ttl)
    else MemoryStep(t, keys, r, now, ttl)
  }

  // ----- the two stores -----

  class MemoryStore {
    const keys: seq<KeyId>
    const ttl: nat
    var records: Table

    constructor (keys: seq<KeyId>, ttl: nat)
      ensures this.keys == keys && this.ttl == ttl && records == map[]
    {
      this.keys, this.ttl, this.records := keys, ttl, map[];
    }

    method Get(id: SessionId, now: Time) returns (answer: Answer)
      requires keys != []
      modifies this
      ensures Result(records, answer) == MemoryStep(old(records), keys, Request.Get(id), now, ttl)
    {
      if id !in records { return Absent; }
      var record := records[id];
      if record.expiresAt <= now {
        records := records - {id};
        return Absent;
      }
      var decrypted := Decrypt(keys, id, record.ciphertext);
      if decrypted.None? {
        records := records - {id};
        return Unauthorized;
      }
      if decrypted.value.needsRotation {
        var again := Encrypt(keys, id, decrypted.value.value);
        records := records[id := record.(ciphertext := again.value)];
      }
      return Found(decrypted.value.value);
    }

    method Set(id: SessionId, value: Value, now: Time) returns (answer: Answer)
      requires keys != []
      modifies this
      ensures Result(records, answer) == MemoryStep(old(records), keys, Request.Set(id, value), now, ttl)
    {
      var c := Encrypt(keys, id, value);
      if c.None? { return TooLarge; }
      records := records[id := Record(c.value, now + ttl)];
      return Done;
    }

    method Take(id: SessionId, now: Time) returns (answer: Answer)
      requires keys != []
      modifies this
      ensures Result(records, answer) == MemoryStep(old(records), keys, Request.Take(id), now, ttl)
    {
      var record := if id in records then Some(records[id]) else None;
      records := records - {id};
      if record.None? || record.value.expiresAt <= now { return Absent; }
      var clear := Decrypt(keys, id, record.value.ciphertext);
      if clear.None? { return Unauthorized; }
      return Found(clear.value.value);
    }

    method Move(id: SessionId, to: SessionId, value: Value, now: Time) returns (answer: Answer)
      requires keys != []
      modifies this
      ensures Result(records, answer) == MemoryStep(old(records), keys, Request.Move(id, to, value), now, ttl)
    {
      if id !in records || records[id].expiresAt <= now {
        records := records - {id};
        return Unauthorized;
      }
      var clear := Decrypt(keys, id, records[id].ciphertext);
      if clear.None? {
        records := records - {id};
        return Unauthorized;
      }
      var c := Encrypt(keys, to, value);
      if c.None? { return TooLarge; }
      records := records[to := Record(c.value, now + ttl)];
      if id != to { records := records - {id}; }
      return Done;
    }

    method Delete(id: SessionId, ghost now: Time) returns (answer: Answer)
      requires keys != []
      modifies this
      ensures Result(records, answer) == MemoryStep(old(records), keys, Request.Delete(id), now, ttl)
    {
      records := records - {id};
      return Done;
    }

    method Ask(r: Request, now: Time) returns (answer: Answer)
      requires keys != []
      modifies this
      ensures Result(records, answer) == MemoryStep(old(records), keys, r, now, ttl)
    {
      match r
      case Get(id) => answer := Get(id, now);
      case Set(id, value) => answer := Set(id, value, now);
      case Take(id) => answer := Take(id, now);
      case Move(id, to, value) => answer := Move(id, to, value, now);
      case Delete(id) => answer := Delete(id, now);
    }
  }

  class FileStore {
    const keys: seq<KeyId>
    const ttl: nat
    /** The records of the file on disk. */
    var file: Table

    /** A store on an existing file; a missing file is an empty table. */
    constructor (keys: seq<KeyId>, ttl: nat, file: Table)
      ensures this.keys == keys && this.ttl == ttl && this.file == file
    {
      this.keys, this.ttl, this.file := keys, ttl, file;
    }

    /** The purging loop works on the records that were read; nothing is written yet. */
    method RemoveExpired(read: Table, now: Time) returns (kept: Table)
      ensures kept == Purged(read, now)
    {
      kept := read;
      var todo := read.Keys;
      while todo != {}
        invariant todo <= read.Keys
        invariant kept == map id | id in read && (id in todo || now < read[id].expiresAt) :: read[id]
        decreases todo
      {
        var id :| id in todo;
        if read[id].expiresAt <= now {
          kept := kept - {id};
        }
        todo := todo - {id};
      }
    }

    method Set(id: SessionId, value: Value, now: Time) returns (answer: Answer)
      requires keys != []
      modifies this
      ensures Result(file, answer) == FileStep(old(file), keys, Request.Set(id, value), now, ttl)
    {
      var read := RemoveExpired(file, now);
      var c := Encrypt(keys, id, value);
      if c.None? { return TooLarge; }
      file := read[id := Record(c.value, now + ttl)];
      return Done;
    }

    method Get(id: SessionId, now: Time) returns (answer: Answer)
      requires keys != []
      modifies this
      ensures Result(file, answer) == FileStep(old(file), keys, Request.Get(id), now, ttl)
    {
      var read := file;
      if id !in read { return Absent; }
      var record := read[id];
      if record.expiresAt <= now {
        file := read - {id};
        return Absent;
      }
      var decrypted := Decrypt(keys, id, record.ciphertext);
      if decrypted.None? {
        file := read - {id};
        return Unauthorized;
      }
      if decrypted.value.needsRotation {
        var again := Encrypt(keys, id, decrypted.value.value);
        file := read[id := record.(ciphertext := again.value)];
      }
      return Found(decrypted.value.value);
    }

    method Move(id: SessionId, to: SessionId, value: Value, now: Time) returns (answer: Answer)
      requires keys != []
      modifies this
      ensures Result(file, answer) == FileStep(old(file), keys, Request.Move(id, to, value), now, ttl)
    {
      var read := file;
      if id !in read || read[id].expiresAt <= now {
        file := read - {id};
        return Unauthorized;
      }
      var clear := Decrypt(keys, id, read[id].ciphertext);
      if clear.None? {
        file := read - {id};
        return Unauthorized;
      }
      var c := Encrypt(keys, to, value);
      if c.None? { return TooLarge; }
      read := read[to := Record(c.value, now + ttl)];
      if id != to { read := read - {id}; }
      file := read;
      return Done;
    }

    method Take(id: SessionId, now: Time) returns (answer: Answer)
      requires keys != []
      modifies this
      ensures Result(file, answer) == FileStep(old(file), keys, Request.Take(id), now, ttl)
    {
      if id !in file {
        assert file - {id} == file;
        return Absent;
      }
      var record := file[id];
      file := file - {id};
      if record.expiresAt <= now { return Absent; }
      var clear := Decrypt(keys, id, record.ciphertext);
      if clear.None? { return Unauthorized; }
      return Found(clear.value.value);
    }

    method Delete(id: SessionId, ghost now: Time) returns (answer: Answer)
      requires keys != []
      modifies this
      ensures Result(file, answer) == FileStep(old(file), keys, Request.Delete(id), now, ttl)
    {
      file := file - {id};
      return Done;
    }

    method Ask(r: Request, now: Time) returns (answer: Answer)
      requires keys != []
      modifies this
      ensures Result(file, answer) == FileStep(old(file), keys, r, now, ttl)
    {
      match r
      case Get(id) => answer := Get(id, now);
      case Set(id, value) => answer := Set(id, value, now);
      case Take(id) => answer := Take(id, now);
      case Move(id, to, value) => answer := Move(id, to, value, now);
      case Delete(id) => answer := Delete(id, now);
    }
  }

  // ----- what the tables stand for -----

  /** At this moment the table and the plain map have the same live sessions, with the same value and
      the same expiry, and every live record opens. */
  ghost predicate StandsFor(t: Table, keys: seq<KeyId>, m: Plain, now: Time)
    requires keys != []
  {
    && (forall id | id in t && now < t[id].expiresAt :: Live(m, id, now))
    && (forall id | Live(m, id, now) ::
          && id in t && t[id].expiresAt == m[id].expiresAt
          && Decrypt(keys, id, t[id].ciphertext).Some?
          && Decrypt(keys, id, t[id].ciphertext).value.value == m[id].value)
  }

  /** Values that are refused outright, or leave room for the seal. */
  predicate Fits(r: Request) {
    r.Set? || r.Move? ==> |r.value| > MAX_SESSION_BYTES || 0 < |r.value| <= MAX_SESSION_BYTES - SEAL_OVERHEAD
  }

  lemma LaterStandsFor(t: Table, keys: seq<KeyId>, m: Plain, now: Time, later: Time)
    requires keys != [] && StandsFor(t, keys, m, now) && now <= later
    ensures StandsFor(t, keys, m, later)
  {
  }

  lemma PurgeStandsFor(t: Table, keys: seq<KeyId>, m: Plain, now: Time)
    requires keys != [] && StandsFor(t, keys, m, now)
    ensures StandsFor(Purged(t, now), keys, m, now)
  {
  }

  lemma PutStandsFor(t: Table, keys: seq<KeyId>, m: Plain, now: Time, id: SessionId, v: Value, ttl: nat)
    requires keys != [] && StandsFor(t, keys, m, now) && 0 < |v| <= MAX_SESSION_BYTES - SEAL_OVERHEAD
    ensures StandsFor(t[id := Record(Sealed(keys[0], id, v), now + ttl)], keys, m[id := Entry(v, now + ttl)], now)
  {
  }

  lemma DropStandsFor(t: Table, keys: seq<KeyId>, m: Plain, now: Time, id: SessionId)
    requires keys != [] && StandsFor(t, keys, m, now)
    ensures StandsFor(t - {id}, keys, m - {id}, now)
  {
  }

  lemma GetStandsFor(t: Table, keys: seq<KeyId>, m: Plain, now: Time, id: SessionId)
    requires keys != [] && StandsFor(t, keys, m, now)
    ensures GetStep(t, keys, id, now).answer == PlainAnswer(m, Get(id), now)
    ensures StandsFor(GetStep(t, keys, id, now).table, keys, m, now)
  {
  }

  lemma MoveStandsFor(
      t: Table, keys: seq<KeyId>, m: Plain, now: Time, id: SessionId, to: SessionId, v: Value, ttl: nat)
    requires keys != [] && StandsFor(t, keys, m, now) && Fits(Move(id, to, v))
    ensures MoveStep(t, keys, id, to, v, now, ttl).answer == PlainAnswer(m, Move(id, to, v), now)
    ensures StandsFor(MoveStep(t, keys, id, to, v, now, ttl).table, keys, PlainNext(m, Move(id, to, v), now, ttl), now)
  {
    DropStandsFor(t, keys, m, now, id);
    if Live(m, id, now) && |v| <= MAX_SESSION_BYTES {
      PutStandsFor(t - {id}, keys, m - {id}, now, to, v, ttl);
      var record := Record(Sealed(keys[0], to, v), now + ttl);
      assert id == to ==> (t - {id})[to := record] == t[to := record];
      assert id != to ==> (t - {id})[to := record] == t[to := record] - {id};
    }
  }

  /** One request: both stores answer as the plain map does and go on standing for it. */
  lemma StepStandsFor(t: Table, keys: seq<KeyId>, m: Plain, r: Request, now: Time, ttl: nat)
    requires keys != [] && StandsFor(t, keys, m, now) && Fits(r)
    ensures MemoryStep(t, keys, r, now, ttl).answer == FileStep(t, keys, r, now, ttl).answer == PlainAnswer(m, r, now)
    ensures StandsFor(MemoryStep(t, keys, r, now, ttl).table, keys, PlainNext(m, r, now, ttl), now)
    ensures StandsFor(FileStep(t, keys, r, now, ttl).table, keys, PlainNext(m, r, now, ttl), now)
  {
    match r
    case Get(id) => GetStandsFor(t, keys, m, now, id);
    case Set(id, v) =>
      if |v| <= MAX_SESSION_BYTES {
        PutStandsFor(t, keys, m, now, id, v, ttl);
        PurgeStandsFor(t, keys, m, now);
        PutStandsFor(Purged(t, now), keys, m, now, id, v, ttl);
      }
    case Take(id) => DropStandsFor(t, keys, m, now, id);
    case Move(id, to, v) => MoveStandsFor(t, keys, m, now, id, to, v, ttl);
    case Delete(id) => DropStandsFor(t, keys, m, now, id);
  }

  // ----- whole runs -----

  /** A request at a time, or a restart of the file store with other keys. */
  datatype Event = Ask(request: Request, now: Time) | Rekey(keys: seq<KeyId>)

  datatype FileState = FileState(table: Table, keys: seq<KeyId>, clock: Time)

  /** Times do not go back, values fit, and a restart keeps every key a live record is sealed under. */
  predicate Admissible(s: FileState, e: Event) {
    match e
    case Ask(r, now) => s.clock <= now && Fits(r)
    case Rekey(keys) =>
      keys != [] && forall id | id in s.table && s.clock < s.table[id].expiresAt :: s.table[id].ciphertext.key in keys
  }

  function FileNext(s: FileState, e: Event, ttl: nat): FileState
    requires s.keys != []
  {
    match e
    case Ask(r, now) => s.(table := FileStep(s.table, s.keys, r, now, ttl).table, clock := now)
    case Rekey(keys) => s.(keys := keys)
  }

  function PlainRun(m: Plain, e: Event, ttl: nat): Plain {
    match e
    case Ask(r, now) => PlainNext(m, r, now, ttl)
    case Rekey(_) => m
  }

  ghost predicate AdmissibleRun(s: FileState, events: seq<Event>, ttl: nat)
    requires s.keys != []
    decreases events
  {
    events == [] ||
    (Admissible(s, events[0]) && AdmissibleRun(FileNext(s, events[0], ttl), events[1..], ttl))
  }

  function FileAnswers(s: FileState, events: seq<Event>, ttl: nat): seq<Answer>
    requires s.keys != []
    requires forall i | 0 <= i < |events| && events[i].Rekey? :: events[i].keys != []
    decreases events
  {
    if events == [] then [] else
    (if events[0].Ask? then [FileStep(s.table, s.keys, events[0].request, events[0].now, ttl).answer] else [])
    + FileAnswers(FileNext(s, events[0], ttl), events[1..], ttl)
  }

  function PlainAnswers(m: Plain, events: seq<Event>, ttl: nat): seq<Answer>
    decreases events
  {
    if events == [] then [] else
    (if events[0].Ask? then [PlainAnswer(m, events[0].request, events[0].now)] else [])
    + PlainAnswers(PlainRun(m, events[0], ttl), events[1..], ttl)
  }

  function MemoryAnswers(t: Table, keys: seq<KeyId>, events: seq<Event>, ttl: nat): seq<Answer>
    requires keys != []
    decreases events
  {
    if events == [] then [] else
    if events[0].Rekey? then MemoryAnswers(t, keys, events[1..], ttl) else
    var r := MemoryStep(t, keys, events[0].request, events[0].now, ttl);
    [r.answer] + MemoryAnswers(r.table, keys, events[1..], ttl)
  }

  lemma RekeyStandsFor(t: Table, keys: seq<KeyId>, keys': seq<KeyId>, m: Plain, now: Time)
    requires keys != [] && keys' != [] && StandsFor(t, keys, m, now)
    requires forall id | id in t && now < t[id].expiresAt :: t[id].ciphertext.key in keys'
    ensures StandsFor(t, keys', m, now)
  {
  }

  /** For every sequence of requests under a clock that does not go back, with restarts that keep the
      keys in use, the file store answers as the plain map. */
  lemma {:induction false} FileStoreRefines(s: FileState, m: Plain, events: seq<Event>, ttl: nat)
    requires s.keys != [] && StandsFor(s.table, s.keys, m, s.clock) && AdmissibleRun(s, events, ttl)
    requires forall i | 0 <= i < |events| && events[i].Rekey? :: events[i].keys != []
    ensures FileAnswers(s, events, ttl) == PlainAnswers(m, events, ttl)
    decreases events
  {
    if events != [] {
      var e := events[0];
      match e {
      case Ask(r, now) =>
        LaterStandsFor(s.table, s.keys, m, s.clock, now);
        StepStandsFor(s.table, s.keys, m, r, now, ttl);
      case Rekey(keys) =>
        RekeyStandsFor(s.table, s.keys, keys, m, s.clock);
      }
      FileStoreRefines(FileNext(s, e, ttl), PlainRun(m, e, ttl), events[1..], ttl);
    }
  }

  predicate InOrder(events: seq<Event>, from: Time) {
    events == [] ||
    (events[0].Ask? && from <= events[0].now && Fits(events[0].request) && InOrder(events[1..], events[0].now))
  }

  /** The memory store, which expires lazily, answers the same. */
  lemma {:induction false} MemoryStoreRefines(
      t: Table, keys: seq<KeyId>, m: Plain, clock: Time, events: seq<Event>, ttl: nat)
    requires keys != [] && StandsFor(t, keys, m, clock) && InOrder(events, clock)
    ensures MemoryAnswers(t, keys, events, ttl) == PlainAnswers(m, events, ttl)
    decreases events
  {
    if events != [] {
      var r, now := events[0].request, events[0].now;
      LaterStandsFor(t, keys, m, clock, now);
      StepStandsFor(t, keys, m, r, now, ttl);
      MemoryStoreRefines(
        MemoryStep(t, keys, r, now, ttl).table, keys, PlainNext(m, r, now, ttl), now, events[1..], ttl);
    }
  }

  /** A client of the file store, restarts included: the answers it gets are those of the plain map. */
  method ServeFile(store: FileStore, events: seq<Event>, ghost clock: Time, ghost m: Plain)
      returns (answers: seq<Answer>)
    requires store.keys != [] && StandsFor(store.file, store.keys, m, clock)
    requires AdmissibleRun(FileState(store.file, store.keys, clock), events, store.ttl)
    requires forall i | 0 <= i < |events| && events[i].Rekey? :: events[i].keys != []
    modifies store
    ensures answers == PlainAnswers(m, events, store.ttl)
    ensures answers == FileAnswers(FileState(old(store.file), store.keys, clock), events, store.ttl)
    decreases |events|
  {
    FileStoreRefines(FileState(store.file, store.keys, clock), m, events, store.ttl);
    if events == [] { return []; }
    match events[0] {
      case Ask(r, now) =>
        LaterStandsFor(store.file, store.keys, m, clock, now);
        StepStandsFor(store.file, store.keys, m, r, now, store.ttl);
        var answer := store.Ask(r, now);
        var rest := ServeFile(store, events[1..], now, PlainNext(m, r, now, store.ttl));
        answers := [answer] + rest;
      case Rekey(keys) =>
        RekeyStandsFor(store.file, store.keys, keys, m, clock);
        var restarted := new FileStore(keys, store.ttl, store.file);
        var rest := ServeFile(restarted, events[1..], clock, m);
        answers := [] + rest;
    }
  }

  /** A client of the memory store. */
  method ServeMemory(store: MemoryStore, events: seq<Event>, ghost clock: Time, ghost m: Plain)
      returns (answers: seq<Answer>)
    requires store.keys != [] && StandsFor(store.records, store.keys, m, clock) && InOrder(events, clock)
    modifies store
    ensures answers == PlainAnswers(m, events, store.ttl)
    ensures answers == MemoryAnswers(old(store.records), store.keys, events, store.ttl)
    decreases |events|
  {
    MemoryStoreRefines(store.records, store.keys, m, clock, events, store.ttl);
    if events == [] { return []; }
    var r, now := events[0].request, events[0].now;
    LaterStandsFor(store.records, store.keys, m, clock, now);
    StepStandsFor(store.records, store.keys, m, r, now, store.ttl);
    var answer := store.Ask(r, now);
    var rest := ServeMemory(store, events[1..], now, PlainNext(m, r, now, store.ttl));
    answers := [answer] + rest;
  }

  /** Sealing again under a newer key changes neither what a record opens to nor when it expires. */
  lemma RotationKeepsSessions(t: Table, keys: seq<KeyId>, id: SessionId, now: Time)
    requires keys != [] && id in t && now < t[id].expiresAt && Decrypt(keys, id, t[id].ciphertext).Some?
    ensures var t' := GetStep(t, keys, id, now).table;
            && t'.Keys == t.Keys
            && t'[id].expiresAt == t[id].expiresAt
            && Decrypt(keys, id, t'[id].ciphertext) == Some(Opened(Decrypt(keys, id, t[id].ciphertext).value.value, false))
            && forall other | other in t && other != id :: t'[other] == t[other]
  {
  }

  /** A record that has expired, was sealed under a key that is gone or was moved there from another
      session is never answered: whatever asks for it removes it and leaves all others. */
  lemma DeadSessionsGo(t: Table, keys: seq<KeyId>, id: SessionId, to: SessionId, v: Value, now: Time, ttl: nat)
    requires keys != []
    requires id in t && (t[id].expiresAt <= now || t[id].ciphertext.key !in keys || t[id].ciphertext.session != id)
    ensures forall r | r in {Get(id), Take(id), Move(id, to, v)} ::
              && MemoryStep(t, keys, r, now, ttl) == FileStep(t, keys, r, now, ttl)
              && MemoryStep(t, keys, r, now, ttl).table == t - {id}
              && MemoryStep(t, keys, r, now, ttl).answer
                 == if r.Move? || now < t[id].expiresAt then Unauthorized else Absent
  {
  }

  function Reads(ids: seq<SessionId>, now: Time): seq<Event> {
    seq(|ids|, i requires 0 <= i < |ids| => Ask(Get(ids[i]), now))
  }

  function FileRun(s: FileState, events: seq<Event>, ttl: nat): FileState
    requires s.keys != []
    requires forall i | 0 <= i < |events| && events[i].Rekey? :: events[i].keys != []
    decreases events
  {
    if events == [] then s else FileRun(FileNext(s, events[0], ttl), events[1..], ttl)
  }

  /** Every live record is under the first key, but for those still to be read. */
  ghost predicate Renewed(s: FileState, unread: set<SessionId>)
    requires s.keys != []
  {
    forall id | id in s.table && s.clock < s.table[id].expiresAt && id !in unread ::
      s.table[id].ciphertext == Sealed(s.keys[0], id, s.table[id].ciphertext.value)
  }

  /** Reading every live session once is enough to retire all keys but the first: the store still stands
      for the same sessions under that key alone. */
  lemma RetiringKeys(s: FileState, m: Plain, ids: seq<SessionId>, ttl: nat)
    requires s.keys != [] && StandsFor(s.table, s.keys, m, s.clock)
    requires forall id | Live(m, id, s.clock) :: id in ids
    ensures var s' := FileRun(s, Reads(ids, s.clock), ttl);
            && s'.clock == s.clock && Admissible(s', Rekey([s.keys[0]])) && StandsFor(s'.table, [s.keys[0]], m, s.clock)
  {
    ReadsRenew(s, m, ids, (set id | id in ids), ttl);
    var s' := FileRun(s, Reads(ids, s.clock), ttl);
    RekeyStandsFor(s'.table, s.keys, [s.keys[0]], m, s.clock);
  }

  lemma {:induction false} ReadsRenew(s: FileState, m: Plain, ids: seq<SessionId>, unread: set<SessionId>, ttl: nat)
    requires s.keys != [] && StandsFor(s.table, s.keys, m, s.clock)
    requires Renewed(s, unread) && unread <= set id | id in ids
    ensures var s' := FileRun(s, Reads(ids, s.clock), ttl);
            s'.keys == s.keys && s'.clock == s.clock && Renewed(s', {}) && StandsFor(s'.table, s.keys, m, s.clock)
    decreases |ids|
  {
    var events := Reads(ids, s.clock);
    if ids != [] {
      var next := FileNext(s, events[0], ttl);
      assert events[1..] == Reads(ids[1..], s.clock);
      GetStandsFor(s.table, s.keys, m, s.clock, ids[0]);
      assert ids == [ids[0]] + ids[1..];
      ReadsRenew(next, m, ids[1..], unread - {ids[0]}, ttl);
    }
  }

  /** The last 28 sizes below the limit are accepted by `set` and lost by the next `get`: the session
      is refused and deleted, where the plain map would answer. */
  lemma SessionsNearTheLimitAreLost(keys: seq<KeyId>, id: SessionId, v: Value, now: Time, later: Time, ttl: nat)
    requires keys != [] && now <= later < now + ttl
    requires MAX_SESSION_BYTES - SEAL_OVERHEAD < |v| <= MAX_SESSION_BYTES
    ensures var stored := MemoryStep(map[], keys, Set(id, v), now, ttl);
            && stored.answer == Done
            && MemoryStep(stored.table, keys, Get(id), later, ttl) == Result(map[], Unauthorized)
            && PlainAnswer(PlainNext(map[], Set(id, v), now, ttl), Get(id), later) == Found(v)
  {
    var stored := MemoryStep(map[], keys, Set(id, v), now, ttl);
    assert stored.table - {id} == map[];
  }
}
