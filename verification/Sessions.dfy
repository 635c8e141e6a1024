/** crypticengine/src/secure_session.c: the session table, its operations under the lock, and
    session_destroy_all while other threads run between its lock regions. */
module Sessions {
  import opened Wrappers
  import opened CText
  import opened Seqs
  import SessionText

  const MAX_ACTIVE: nat := SessionText.MAX_ACTIVE
  const DEFAULT_MEMORY: nat := 512 * 1024 * 1024

  datatype State = Inactive | Starting | Active | Stopping

  datatype Session = Session(id: int, name: string, pid: int, state: State, startTime: nat, memory: nat, network: bool)

  const EMPTY := Session(0, "", 0, Inactive, 0, 0, false)

  /** The arguments of session_create, and what the system makes of them: the time, whether the stack
      can be allocated, and clone's answer. */
  datatype Request = Request(name: Option<string>, memory: nat, network: bool, time: nat, stackOk: bool, clone: int)

  // ---- The table as a value ----

  /** The whole static array with its stale part, the length of the live prefix, and the id counter. */
  datatype Table = Table(slots: seq<Session>, count: nat, nextId: int)

  function Live(t: Table): seq<Session>
    requires t.count <= |t.slots|
  {
    t.slots[..t.count]
  }

  predicate Shape(t: Table) {
    |t.slots| == MAX_ACTIVE && t.count <= MAX_ACTIVE && t.nextId >= 1
  }

  /** What holds whenever the lock is free. */
  ghost predicate Inv(t: Table) {
    && Shape(t)
    && (forall i | 0 <= i < t.count :: 1 <= t.slots[i].id < t.nextId && t.slots[i].state == Active)
    && (forall i, j | 0 <= i < j < t.count :: t.slots[i].id < t.slots[j].id)
  }

  /** find_session: the first live slot with this id, or the count. */
  function Find(t: Table, id: int, i: nat): (idx: nat)
    requires t.count <= |t.slots| && i <= t.count
    ensures i <= idx <= t.count && (idx < t.count ==> t.slots[idx].id == id)
    ensures forall j | i <= j < idx :: t.slots[j].id != id
    decreases t.count - i
  {
    if i == t.count || t.slots[i].id == id then i else Find(t, id, i + 1)
  }

  function SlotName(r: Request, id: int): string {
    match r.name
    case Some(n) => Truncate(n, SessionText.NAME_SIZE)
    case None => if id >= 0 then Truncate("session-" + Decimal(id), SessionText.NAME_SIZE) else ""
  }

  /** The record session_create fills in before it clones. */
  function NewSession(r: Request, id: int): Session {
    Session(id, SlotName(r, id), 0, Starting, r.time, if r.memory > 0 then r.memory else DEFAULT_MEMORY, r.network)
  }

  /** session_create under the lock. A failed clone leaves its record in the slot past the live prefix, and
      its id is used up. */
  function CreateStep(t: Table, r: Request): Table
    requires Shape(t)
  {
    if t.count >= MAX_ACTIVE then t
    else
      var s := NewSession(r, t.nextId);
      if !r.stackOk || r.clone < 0 then Table(t.slots[t.count := s], t.count, t.nextId + 1)
      else Table(t.slots[t.count := s.(pid := r.clone, state := Active)], t.count + 1, t.nextId + 1)
  }

  function Created(t: Table, r: Request): bool {
    t.count < MAX_ACTIVE && r.stackOk && r.clone >= 0
  }

  /** The slots after the entry at `idx` is marked and the later live ones move down; the last live slot
      keeps a stale copy. */
  function Compact(t: Table, idx: nat): (slots: seq<Session>)
    requires Shape(t) && idx < t.count
    ensures |slots| == |t.slots|
  {
    seq(|t.slots|, i requires 0 <= i < |t.slots| =>
          if idx <= i < t.count - 1 then t.slots[i + 1]
          else if i == idx then t.slots[i].(state := Stopping) else t.slots[i])
  }

  /** session_destroy under the lock. */
  function DestroyStep(t: Table, id: int): Table
    requires Shape(t)
  {
    var idx := Find(t, id, 0);
    if idx == t.count then t else Table(Compact(t, idx), t.count - 1, t.nextId)
  }

  // ---- The table in place ----

  class SessionTable {
    const sessions: array<Session>
    var count: nat
    var nextId: int
    var initialized: bool

    ghost predicate Valid()
      reads this, sessions
    {
      Inv(View())
    }

    ghost function View(): Table
      reads this, sessions
    {
      Table(sessions[..], count, nextId)
    }

    /** session_init on a fresh process. */
    constructor ()
      ensures Valid() && initialized && Live(View()) == [] && nextId == 1 && fresh(sessions)
    {
      sessions := new Session[MAX_ACTIVE](_ => EMPTY);
      count, nextId, initialized := 0, 1, true;
    }

    method FindSession(id: int) returns (idx: Option<nat>)
      requires Valid()
      ensures idx == if Find(View(), id, 0) == count then None else Some(Find(View(), id, 0))
    {
      var i := 0;
      while i < count
        invariant 0 <= i <= count && Find(View(), id, 0) == Find(View(), id, i)
      {
        if sessions[i].id == id {
          return Some(i);
        }
        i := i + 1;
      }
      return None;
    }

    /** session_create up to the unlock; `slot` is where `s` points. */
    method CreateLocked(r: Request) returns (slot: Option<nat>)
      requires Valid() && initialized
      modifies this, sessions
      ensures Valid() && initialized && View() == CreateStep(old(View()), r)
      ensures slot == if Created(old(View()), r) then Some(old(count)) else None
    {
      CreateKeepsInv(View(), r);
      if count >= MAX_ACTIVE {
        return None;
      }
      var idx := count;
      sessions[idx] := NewSession(r, nextId);
      nextId := nextId + 1;
      if !r.stackOk || r.clone < 0 {
        return None;
      }
      sessions[idx] := sessions[idx].(pid := r.clone, state := Active);
      count := count + 1;
      return Some(idx);
    }

    /** session_destroy. */
    method Destroy(id: int) returns (ok: bool)
      requires Valid()
      modifies this, sessions
      ensures Valid() && initialized == old(initialized) && View() == DestroyStep(old(View()), id)
      ensures ok <==> exists i :: 0 <= i < old(count) && old(sessions[..])[i].id == id
    {
      ghost var t := View();
      DestroyKeepsInv(t, id);
      var found := FindSession(id);
      if found.None? {
        return false;
      }
      var idx := found.value;
      assert t.slots[idx].id == id;
      sessions[idx] := sessions[idx].(state := Stopping);
      MoveDown(idx, t);
      return true;
    }

    /** The later slots move down. */
    method MoveDown(idx: nat, ghost t: Table)
      requires Shape(t) && idx < count == t.count <= MAX_ACTIVE
      requires sessions[..] == t.slots[idx := t.slots[idx].(state := Stopping)]
      modifies this`count, sessions
      ensures count == t.count - 1 && sessions[..] == Compact(t, idx)
    {
      if idx < count - 1 {
        forall i | idx <= i < count - 1 {
          sessions[i] := sessions[i + 1];
        }
      }
      count := count - 1;
      assert sessions[..] == Compact(t, idx);
    }

    /** The first half of session_destroy_all: the ids, copied under the lock. */
    method CopyIds() returns (ids: array<int>)
      requires Valid()
      ensures fresh(ids) && ids.Length == MAX_ACTIVE
      ensures forall k | 0 <= k < count :: ids[k] == View().slots[k].id
    {
      ids := new int[MAX_ACTIVE];
      var i := 0;
      while i < count
        invariant 0 <= i <= count && forall k | 0 <= k < i :: ids[k] == sessions[k].id
      {
        ids[i] := sessions[i].id;
        i := i + 1;
      }
    }

    /** Any operations of other threads, each a whole lock region. */
    method Others(ops: seq<Op>)
      requires Valid() && initialized
      modifies this, sessions
      ensures Valid() && initialized && View() == Run(old(View()), ops)
    {
      var n := 0;
      ghost var t0 := View();
      while n < |ops|
        invariant 0 <= n <= |ops| && Valid() && initialized
        invariant Run(t0, ops) == Run(View(), ops[n..])
      {
        assert ops[n..][1..] == ops[n + 1..];
        match ops[n] {
          case Create(r) => var slot := CreateLocked(r);
          case Destroy(id) => var ok := Destroy(id);
        }
        n := n + 1;
      }
    }
  }

  /** What another thread can do between two lock regions. */
  datatype Op = Create(r: Request) | Destroy(id: int)

  function Step(t: Table, op: Op): (t': Table)
    requires Shape(t)
    ensures Shape(t')
  {
    match op case Create(r) => CreateStep(t, r) case Destroy(id) => DestroyStep(t, id)
  }

  function Run(t: Table, ops: seq<Op>): (t': Table)
    requires Shape(t)
    ensures Shape(t')
    decreases |ops|
  {
    if ops == [] then t else Run(Step(t, ops[0]), ops[1..])
  }

  lemma CreateKeepsInv(t: Table, r: Request)
    requires Inv(t)
    ensures Inv(CreateStep(t, r))
  {
  }

  lemma DestroyKeepsInv(t: Table, id: int)
    requires Inv(t)
    ensures Inv(DestroyStep(t, id))
  {
  }

  lemma {:induction false} RunKeepsInv(t: Table, ops: seq<Op>)
    requires Inv(t)
    ensures Inv(Run(t, ops)) && Run(t, ops).nextId >= t.nextId
    decreases |ops|
  {
    if ops != [] {
      CreateKeepsInvAll(t, ops[0]);
      RunKeepsInv(Step(t, ops[0]), ops[1..]);
    }
  }

  lemma CreateKeepsInvAll(t: Table, op: Op)
    requires Inv(t)
    ensures Inv(Step(t, op)) && Step(t, op).nextId >= t.nextId
  {
    match op
    case Create(r) => CreateKeepsInv(t, r);
    case Destroy(id) => DestroyKeepsInv(t, id);
  }

  // ---- The table refines a map ----

  /** The first `n` slots as a map from id to record. */
  function MapTo(slots: seq<Session>, n: nat): map<int, Session>
    requires n <= |slots|
  {
    if n == 0 then map[] else MapTo(slots, n - 1)[slots[n - 1].id := slots[n - 1]]
  }

  function AsMap(t: Table): map<int, Session>
    requires Shape(t)
  {
    MapTo(t.slots, t.count)
  }

  lemma {:induction false} MapEntries(slots: seq<Session>, n: nat, bound: int)
    requires n <= |slots| && forall i | 0 <= i < n :: slots[i].id < bound
    ensures forall id | id in MapTo(slots, n) :: id < bound && exists i :: 0 <= i < n && slots[i].id == id
  {
    if n > 0 {
      MapEntries(slots, n - 1, bound);
    }
  }

  lemma {:induction false} SamePrefix(a: seq<Session>, b: seq<Session>, n: nat)
    requires n <= |a| && n <= |b| && forall i | 0 <= i < n :: a[i] == b[i]
    ensures MapTo(a, n) == MapTo(b, n)
  {
    if n > 0 {
      SamePrefix(a, b, n - 1);
    }
  }

  /** Moving the later slots down takes one entry out of the map. */
  lemma {:induction false} RemoveSlot(a: seq<Session>, b: seq<Session>, idx: nat, n: nat)
    requires idx < n <= |a| && n - 1 <= |b|
    requires forall i | 0 <= i < n - 1 :: b[i] == a[if i < idx then i else i + 1]
    requires forall i, j | 0 <= i < j < n :: a[i].id < a[j].id
    ensures MapTo(b, n - 1) == MapTo(a, n) - {a[idx].id}
  {
    if n - 1 == idx {
      SamePrefix(a, b, idx);
      MapEntries(a, idx, a[idx].id);
      AddedThenRemoved(MapTo(a, idx), a[idx].id, a[idx]);
    } else {
      RemoveSlot(a, b, idx, n - 1);
      assert b[n - 2] == a[n - 1] && a[idx].id != a[n - 1].id;
      RemovedFirst(MapTo(a, n - 1), a[idx].id, a[n - 1].id, a[n - 1]);
    }
  }

  lemma AddedThenRemoved(m: map<int, Session>, id: int, x: Session)
    requires id !in m
    ensures m[id := x] - {id} == m
  {
  }

  lemma RemovedFirst(m: map<int, Session>, gone: int, id: int, x: Session)
    requires gone != id
    ensures (m - {gone})[id := x] == m[id := x] - {gone}
  {
  }

  /** A successful create adds one entry under an id that is not in use; a failed one adds nothing. */
  lemma CreateAddsEntry(t: Table, r: Request)
    requires Inv(t)
    ensures t.nextId !in AsMap(t)
    ensures Created(t, r) ==>
              AsMap(CreateStep(t, r)) == AsMap(t)[t.nextId := NewSession(r, t.nextId).(pid := r.clone, state := Active)]
    ensures !Created(t, r) ==> AsMap(CreateStep(t, r)) == AsMap(t)
  {
    MapEntries(t.slots, t.count, t.nextId);
    SamePrefix(t.slots, CreateStep(t, r).slots, t.count);
  }

  /** What a create records. It succeeds when there is a free slot and the stack and the clone can be had; then the
      number's entry has the name asked for, cut to 63 characters, or one made of the number, and the memory asked
      for, or 512 MiB. A clone that fails uses the number up. */
  lemma CreateRefines(t: Table, r: Request)
    requires Inv(t)
    ensures var t' := CreateStep(t, r);
            var made := t.count < 16 && r.stackOk && r.clone >= 0;
            && (t.nextId in AsMap(t') <==> made) && AsMap(t') - {t.nextId} == AsMap(t)
            && t'.nextId == (if t.count < 16 then t.nextId + 1 else t.nextId)
            && (made ==>
                  var s := AsMap(t')[t.nextId];
                  && s.id == t.nextId && s.pid == r.clone && s.state == Active
                  && s.startTime == r.time && s.network == r.network
                  && s.memory == (if r.memory == 0 then 536870912 else r.memory)
                  && s.name == Take(if r.name.Some? then r.name.value else "session-" + Decimal(t.nextId), 63))
  {
    hide Decimal;
    CreateAddsEntry(t, r);
    MapEntries(t.slots, t.count, t.nextId);
    assert t.nextId !in AsMap(t);
    var t' := CreateStep(t, r);
    assert AsMap(t)[t.nextId := NewSession(r, t.nextId).(pid := r.clone, state := Active)] - {t.nextId} == AsMap(t);
    assert AsMap(t) - {t.nextId} == AsMap(t);
  }

  /** Destroying removes the id's entry and no other. */
  lemma DestroyRefines(t: Table, id: int)
    requires Inv(t)
    ensures AsMap(DestroyStep(t, id)) == AsMap(t) - {id}
  {
    hide Find, MapTo;
    var idx := Find(t, id, 0);
    if idx < t.count {
      RemoveSlot(t.slots, Compact(t, idx), idx, t.count);
    } else {
      MapEntries(t.slots, t.count, t.nextId);
      assert id !in AsMap(t);
    }
  }

  ghost function Ids(t: Table): set<int>
    requires t.count <= |t.slots|
  {
    set i | 0 <= i < t.count :: t.slots[i].id
  }

  lemma StepIds(t: Table, op: Op)
    requires Inv(t)
    ensures Ids(Step(t, op)) <= Ids(t) + {t.nextId}
    ensures op.Destroy? ==> Ids(Step(t, op)) <= Ids(t) - {op.id}
  {
    match op
    case Create(r) => CreateIds(t, r);
    case Destroy(id) => DestroyIds(t, id);
  }

  lemma CreateIds(t: Table, r: Request)
    requires Inv(t)
    ensures Ids(CreateStep(t, r)) <= Ids(t) + {t.nextId}
  {
    var t' := CreateStep(t, r);
    forall id | id in Ids(t') ensures id in Ids(t) + {t.nextId} {
      var i :| 0 <= i < t'.count && t'.slots[i].id == id;
      if i < t.count {
        assert t.slots[i].id == id;
      }
    }
  }

  lemma DestroyIds(t: Table, gone: int)
    requires Inv(t)
    ensures Ids(DestroyStep(t, gone)) <= Ids(t) - {gone}
  {
    hide Find;
    var t' := DestroyStep(t, gone);
    var idx := Find(t, gone, 0);
    forall id | id in Ids(t') ensures id in Ids(t) && id != gone {
      var i :| 0 <= i < t'.count && t'.slots[i].id == id;
      var k := if i < idx then i else i + 1;
      assert idx < t.count ==> t.slots[k].id == id;
    }
  }

  /** Whatever runs, only ids from the counter on appear. So an id that is not live now, and was handed out,
      never comes back. */
  lemma {:induction false} RunIds(t: Table, ops: seq<Op>)
    requires Inv(t)
    ensures forall id | id in Ids(Run(t, ops)) :: id in Ids(t) || id >= t.nextId
    decreases |ops|
  {
    if ops != [] {
      CreateKeepsInvAll(t, ops[0]);
      StepIds(t, ops[0]);
      RunIds(Step(t, ops[0]), ops[1..]);
    }
  }

  // ---- session_destroy_all ----

  /** What the loop keeps after `n` of the snapshot's ids: they are gone, and every other old id that is
      still live is one of the remaining ones. */
  ghost predicate Cleared(t: Table, snap: Table, n: nat) {
    && Inv(t) && Inv(snap) && t.nextId >= snap.nextId && n <= snap.count
    && forall id | id in Ids(t) :: id >= snap.nextId || exists i :: n <= i < snap.count && snap.slots[i].id == id
  }

  lemma ClearedStart(snap: Table)
    requires Inv(snap)
    ensures Cleared(snap, snap, 0)
  {
    forall id | id in Ids(snap) ensures exists i :: 0 <= i < snap.count && snap.slots[i].id == id {
      var i :| 0 <= i < snap.count && snap.slots[i].id == id;
    }
  }

  lemma ClearedEnd(t: Table, snap: Table)
    requires Cleared(t, snap, snap.count)
    ensures forall id | id in Ids(t) :: id >= snap.nextId
    ensures forall i | 0 <= i < snap.count :: snap.slots[i].id !in Ids(t)
  {
  }

  lemma ClearedByOthers(t: Table, snap: Table, n: nat, ops: seq<Op>)
    requires Cleared(t, snap, n)
    ensures Cleared(Run(t, ops), snap, n)
  {
    RunKeepsInv(t, ops);
    RunIds(t, ops);
  }

  lemma ClearedByDestroy(t: Table, snap: Table, n: nat)
    requires Cleared(t, snap, n) && n < snap.count
    ensures Cleared(DestroyStep(t, snap.slots[n].id), snap, n + 1)
  {
    var id := snap.slots[n].id;
    DestroyKeepsInv(t, id);
    StepIds(t, Destroy(id));
    var t' := DestroyStep(t, id);
    forall j | j in Ids(t') && j < snap.nextId ensures exists i :: n + 1 <= i < snap.count && snap.slots[i].id == j {
      var i :| n <= i < snap.count && snap.slots[i].id == j;
      assert i != n;
    }
  }

  /** session_destroy_all. `others(k)` is what other threads do before the k-th time it takes the lock
      (`others(snap.count + 1)` after the last). Whatever they do, on return no session of the snapshot
      is live, and every live session is newer than the snapshot. */
  method DestroyAll(table: SessionTable, others: nat -> seq<Op>) returns (ghost snap: Table)
    requires table.Valid() && table.initialized
    modifies table, table.sessions
    ensures table.Valid()
    ensures snap == Run(old(table.View()), others(0))
    ensures forall i | 0 <= i < snap.count :: snap.slots[i].id !in Ids(table.View())
    ensures forall id | id in Ids(table.View()) :: id >= snap.nextId
  {
    hide Run, Cleared, DestroyStep, Ids, Inv;
    table.Others(others(0));
    snap := table.View();
    var count := table.count;
    var ids := table.CopyIds();
    ghost var copied := ids[..count];
    ClearedStart(snap);
    var i := 0;
    while i < count
      invariant 0 <= i <= count == |copied| <= ids.Length && table.Valid() && table.initialized
      invariant Cleared(table.View(), snap, i) && ids[..count] == copied
    {
      ClearedByOthers(table.View(), snap, i, others(i + 1));
      table.Others(others(i + 1));
      ClearedByDestroy(table.View(), snap, i);
      assert ids[i] == copied[i] == snap.slots[i].id;
      var ok := table.Destroy(ids[i]);
      i := i + 1;
    }
    ClearedByOthers(table.View(), snap, i, others(i + 1));
    table.Others(others(i + 1));
    ClearedEnd(table.View(), snap);
  }

  // ---- The id that session_create returns ----

  /** Whether an operation writes another record into the slot. */
  predicate Rewrites(t: Table, op: Op, slot: nat)
    requires Shape(t)
  {
    match op
    case Create(r) => t.count == slot < MAX_ACTIVE
    case Destroy(id) => Find(t, id, 0) <= slot && slot + 1 < t.count
  }

  predicate Rewritten(t: Table, ops: seq<Op>, slot: nat)
    requires Shape(t)
    decreases |ops|
  {
    ops != [] && (Rewrites(t, ops[0], slot) || Rewritten(Step(t, ops[0]), ops[1..], slot))
  }

  /** The id in a slot only grows, and grows exactly when the slot is rewritten. */
  lemma StepSlot(t: Table, op: Op, slot: nat)
    requires Inv(t) && slot < MAX_ACTIVE && t.slots[slot].id < t.nextId
    ensures var t' := Step(t, op);
            && t'.slots[slot].id < t'.nextId
            && (if Rewrites(t, op, slot) then t'.slots[slot].id > t.slots[slot].id
                else t'.slots[slot].id == t.slots[slot].id)
  {
  }

  lemma {:induction false} RunSlot(t: Table, ops: seq<Op>, slot: nat)
    requires Inv(t) && slot < MAX_ACTIVE && t.slots[slot].id < t.nextId
    ensures Run(t, ops).slots[slot].id >= t.slots[slot].id
    ensures Run(t, ops).slots[slot].id == t.slots[slot].id <==> !Rewritten(t, ops, slot)
    decreases |ops|
  {
    if ops != [] {
      StepSlot(t, ops[0], slot);
      CreateKeepsInvAll(t, ops[0]);
      RunSlot(Step(t, ops[0]), ops[1..], slot);
    }
  }

  /** session_create: it refuses before the table is initialised, and reads the id to return from the slot
      after unlocking. It returns the id it gave out exactly when no other thread rewrote the slot in between. */
  method CreateSession(table: SessionTable, r: Request, others: seq<Op>) returns (id: int)
    requires table.Valid()
    modifies table, table.sessions
    ensures table.Valid() && table.initialized == old(table.initialized)
    ensures !table.initialized ==> id == -1 && table.View() == old(table.View())
    ensures table.initialized ==> table.View() == Run(CreateStep(old(table.View()), r), others)
    ensures table.initialized && !Created(old(table.View()), r) ==> id == -1
    ensures table.initialized && Created(old(table.View()), r) ==>
              (id == old(table.nextId) <==> !Rewritten(CreateStep(old(table.View()), r), others, old(table.count)))
  {
    if !table.initialized {
      return -1;
    }
    var slot := table.CreateLocked(r);
    ghost var t := table.View();
    if slot.Some? {
      RunSlot(t, others, slot.value);
    }
    table.Others(others);
    if slot.None? {
      return -1;
    }
    return table.sessions[slot.value].id;
  }

  /** Other threads that only destroy cannot disturb the answer. */
  lemma {:induction false} DestroysDoNotRewrite(t: Table, ops: seq<Op>, slot: nat)
    requires Inv(t) && t.count <= slot + 1 && forall i | 0 <= i < |ops| :: ops[i].Destroy?
    ensures !Rewritten(t, ops, slot)
    decreases |ops|
  {
    if ops != [] {
      CreateKeepsInvAll(t, ops[0]);
      DestroysDoNotRewrite(Step(t, ops[0]), ops[1..], slot);
    }
  }

  /** One destroy and one create in between are enough: the caller is told another session's id. */
  lemma WrongIdReturned(t: Table, r: Request, r': Request)
    requires Inv(t) && 0 < t.count < MAX_ACTIVE && Created(t, r) && r'.stackOk && r'.clone >= 0
    ensures var t1 := CreateStep(t, r);
            var t2 := Run(t1, [Destroy(t.slots[0].id), Create(r')]);
            t2.slots[t.count].id == t.nextId + 1 && t.nextId in Ids(t2)
  {
    var t1, first := CreateStep(t, r), t.slots[0].id;
    CreateKeepsInv(t, r);
    var ops := [Destroy(first), Create(r')];
    assert ops[1..] == [Create(r')] && ops[1..][1..] == [];
    var t2 := DestroyStep(t1, first);
    assert Run(t1, ops) == Run(t2, ops[1..]) == Run(CreateStep(t2, r'), []);
    assert t2.slots[t.count - 1].id == t.nextId;
    assert CreateStep(t2, r').slots[t.count - 1].id == t.nextId;
  }

  // ---- The printed list ----

  function RowOf(s: Session): SessionText.Row {
    SessionText.Row(s.id, s.name, s.pid)
  }

  /** session_list, as the daemon prints it. */
  function Rows(t: Table): (rows: seq<SessionText.Row>)
    requires Shape(t)
    ensures |rows| == t.count && forall i | 0 <= i < |rows| :: rows[i] == RowOf(t.slots[i])
  {
    seq(t.count, i requires 0 <= i < t.count => RowOf(t.slots[i]))
  }

  lemma {:induction false} MapLookup(slots: seq<Session>, n: nat, k: nat)
    requires k < n <= |slots| && forall i, j | 0 <= i < j < n :: slots[i].id < slots[j].id
    ensures slots[k].id in MapTo(slots, n) && MapTo(slots, n)[slots[k].id] == slots[k]
  {
    if k < n - 1 {
      MapLookup(slots, n - 1, k);
    }
  }

  lemma RowEntry(t: Table, i: nat)
    requires Inv(t) && i < t.count
    ensures var r := Rows(t)[i];
            r.id in AsMap(t) && AsMap(t)[r.id].id == r.id && r.name == AsMap(t)[r.id].name && r.pid == AsMap(t)[r.id].pid
  {
    hide MapTo;
    MapLookup(t.slots, t.count, i);
  }

  /** The listing is the map from id to record in the order of the ids: every entry once and nothing else. */
  lemma RowsRefine(t: Table)
    requires Inv(t)
    ensures forall i, j | 0 <= i < j < |Rows(t)| :: Rows(t)[i].id < Rows(t)[j].id
    ensures forall i | 0 <= i < |Rows(t)| ::
              var r := Rows(t)[i];
              r.id in AsMap(t) && AsMap(t)[r.id].id == r.id && r.name == AsMap(t)[r.id].name && r.pid == AsMap(t)[r.id].pid
    ensures forall id | id in AsMap(t) :: exists i :: 0 <= i < |Rows(t)| && Rows(t)[i].id == id
  {
    hide AsMap;
    forall i | 0 <= i < |Rows(t)|
      ensures var r := Rows(t)[i];
              r.id in AsMap(t) && AsMap(t)[r.id].id == r.id && r.name == AsMap(t)[r.id].name && r.pid == AsMap(t)[r.id].pid
    {
      RowEntry(t, i);
    }
    forall id | id in AsMap(t) ensures exists i :: 0 <= i < |Rows(t)| && Rows(t)[i].id == id {
      var k := EntrySlot(t, id);
      assert Rows(t)[k].id == id;
    }
  }

  lemma EntrySlot(t: Table, id: int) returns (k: nat)
    requires Inv(t) && id in AsMap(t)
    ensures k < t.count && t.slots[k].id == id
  {
    MapEntries(t.slots, t.count, t.nextId);
    k :| 0 <= k < t.count && t.slots[k].id == id;
  }

  /** Names stay within their buffer and process ids non-negative, whatever runs. */
  ghost predicate Listable(t: Table) {
    Shape(t) && forall i | 0 <= i < t.count :: |t.slots[i].name| < SessionText.NAME_SIZE && 0 <= t.slots[i].pid <= SessionText.INT_MAX
  }

  ghost predicate SmallPids(ops: seq<Op>) {
    forall i | 0 <= i < |ops| && ops[i].Create? :: ops[i].r.clone <= SessionText.INT_MAX
  }

  lemma {:induction false} RunListable(t: Table, ops: seq<Op>)
    requires Inv(t) && Listable(t) && SmallPids(ops)
    ensures Listable(Run(t, ops))
    decreases |ops|
  {
    if ops != [] {
      CreateKeepsInvAll(t, ops[0]);
      assert Listable(Step(t, ops[0]));
      RunListable(Step(t, ops[0]), ops[1..]);
    }
  }

  /** After any run from a listable table, the list the shell parses is the list of live sessions exactly
      when no name holds a quote. The id counter must still fit an int. */
  lemma ListReadsBack(t: Table, ops: seq<Op>)
    requires Inv(t) && Listable(t) && SmallPids(ops) && Run(t, ops).nextId <= SessionText.INT_MAX
    ensures var rows := Rows(Run(t, ops));
            && SessionText.AllPrintable(rows) && |rows| <= MAX_ACTIVE
            && SessionText.ParseResponse(SessionText.PrintList(rows)).0 == |rows|
            && (SessionText.ParseResponse(SessionText.PrintList(rows)).1 == rows <==>
                forall i | 0 <= i < |rows| :: NoQuote(rows[i].name))
  {
    RunKeepsInv(t, ops);
    RunListable(t, ops);
    var rows := Rows(Run(t, ops));
    assert forall i | 0 <= i < |rows| :: SessionText.Printable(rows[i]);
    GoodRows(rows);
    SessionText.ParseUndoesPrint(rows);
  }

  lemma GoodRows(rows: seq<SessionText.Row>)
    requires forall i | 0 <= i < |rows| :: |rows[i].name| < SessionText.NAME_SIZE
    ensures SessionText.GoodNames(rows) <==> forall i | 0 <= i < |rows| :: NoQuote(rows[i].name)
  {
    assert SessionText.GoodNames(rows) <==> forall i | 0 <= i < |rows| :: NoQuote(rows[i].name);
  }
}
