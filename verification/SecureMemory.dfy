/** crypticengine/src/secure_memory.c: the allocation tracker, a linked list unlinked through a
    pointer to the link, and the allocator over it. */
module SecureMemory {
  import opened Wrappers

  /** size_t wraps around here. */
  const WORD: nat := 0x1_0000_0000_0000_0000

  /** A size_t value, and its addition and subtraction. */
  type Size = x: nat | x < WORD

  function AddWord(a: Size, b: Size): Size {
    if a + b < WORD then a + b else a + b - WORD
  }

  function SubWord(a: Size, b: Size): Size {
    if a >= b then a - b else a - b + WORD
  }

  // ---- The allocator as a value ----

  /** One tracked allocation. */
  datatype Entry = Entry(ptr: nat, size: Size)

  /** The tracker's list, its byte counter, and the live sodium allocations with their sizes. */
  datatype Mem = Mem(tracked: seq<Entry>, total: Size, live: map<nat, Size>)

  /** A call and what the system answers: `answer` is the block sodium_malloc returns (None: it fails), and
      `node` says whether the tracker's own node can be allocated. */
  datatype Op = Alloc(size: Size, answer: Option<nat>, node: bool) | Free(ptr: nat, size: Size) | Wipe

  function WithoutFirst(es: seq<Entry>, ptr: nat): seq<Entry> {
    if es == [] then [] else if es[0].ptr == ptr then es[1..] else [es[0]] + WithoutFirst(es[1..], ptr)
  }

  predicate Tracks(es: seq<Entry>, ptr: nat) {
    exists i :: 0 <= i < |es| && es[i].ptr == ptr
  }

  function Ptrs(es: seq<Entry>): set<nat> {
    set i | 0 <= i < |es| :: es[i].ptr
  }

  function Step(m: Mem, op: Op): Mem {
    match op
    case Alloc(size, ptr, node) =>
      if size == 0 || ptr.None? then m
      else
        var m' := m.(live := m.live[ptr.value := size]);
        if node then m'.(tracked := [Entry(ptr.value, size)] + m.tracked, total := AddWord(m.total, size)) else m'
    case Free(ptr, size) =>
      var m' := m.(live := m.live - {ptr});
      if Tracks(m.tracked, ptr) then
        m'.(tracked := WithoutFirst(m.tracked, ptr), total := SubWord(m.total, size))
      else m'
    case Wipe => Mem([], 0, m.live - Ptrs(m.tracked))
  }

  /** What the callers and the system owe: a new block is not a live one, and only live blocks are freed. */
  predicate Allowed(m: Mem, op: Op) {
    match op
    case Alloc(size, ptr, node) => ptr.Some? ==> ptr.value !in m.live
    case Free(ptr, size) => ptr in m.live
    case Wipe => true
  }

  ghost predicate AllLive(es: seq<Entry>, live: map<nat, Size>) {
    forall e | e in es :: e.ptr in live && live[e.ptr] == e.size
  }

  ghost predicate Distinct(es: seq<Entry>) {
    forall i, j | 0 <= i < j < |es| :: es[i].ptr != es[j].ptr
  }

  /** Every tracked block is live, recorded with its size, and tracked once. */
  ghost predicate Inv(m: Mem) {
    AllLive(m.tracked, m.live) && Distinct(m.tracked)
  }

  lemma {:induction false} WithoutFirstAt(es: seq<Entry>, i: nat)
    requires i < |es| && forall j | 0 <= j < i :: es[j].ptr != es[i].ptr
    ensures WithoutFirst(es, es[i].ptr) == es[..i] + es[i + 1..]
  {
    if i > 0 {
      WithoutFirstAt(es[1..], i - 1);
      assert es[1..][i - 1] == es[i] && es[1..][..i - 1] == es[1..i] && es[1..][i..] == es[i + 1..];
      assert es[..i] == [es[0]] + es[1..i];
    }
  }

  lemma {:induction false} WithoutFirstRest(es: seq<Entry>, ptr: nat)
    requires Distinct(es)
    ensures Distinct(WithoutFirst(es, ptr))
    ensures forall e | e in WithoutFirst(es, ptr) :: e in es && e.ptr != ptr
  {
    if es != [] {
      var rest := es[1..];
      assert forall i | 0 <= i < |rest| :: rest[i] == es[i + 1] && rest[i].ptr != es[0].ptr;
      WithoutFirstRest(rest, ptr);
    }
  }

  lemma AllocStep(m: Mem, size: Size, p: nat)
    requires Inv(m) && p !in m.live
    ensures Inv(Mem(m.tracked, m.total, m.live[p := size]))
    ensures Inv(Mem([Entry(p, size)] + m.tracked, AddWord(m.total, size), m.live[p := size]))
  {
    var es := [Entry(p, size)] + m.tracked;
    assert forall i | 0 < i < |es| :: es[i] == m.tracked[i - 1] && es[i] in m.tracked;
  }

  /** What a free leaves, whether or not the block was tracked. */
  lemma FreeStep(m: Mem, ptr: nat, size: Size)
    requires Inv(m) && ptr in m.live
    ensures Step(m, Free(ptr, size)) ==
            Mem(WithoutFirst(m.tracked, ptr), if Tracks(m.tracked, ptr) then SubWord(m.total, size) else m.total, m.live - {ptr})
    ensures Inv(Step(m, Free(ptr, size)))
  {
    NotTracked(m.tracked, ptr);
    WithoutFirstRest(m.tracked, ptr);
  }

  /** What a call does to the live blocks, tracked or not, and that an untracked one leaves the tracker alone. */
  lemma StepLive(m: Mem, op: Op)
    requires Inv(m) && Allowed(m, op)
    ensures var m' := Step(m, op);
            match op
            case Alloc(size, answer, node) =>
              && (size == 0 || answer.None? ==> m' == m)
              && (size > 0 && answer.Some? ==> m'.live == m.live[answer.value := size])
              && (!node ==> m'.tracked == m.tracked && m'.total == m.total)
            case Free(ptr, size) =>
              && m'.live == m.live - {ptr} && !Tracks(m'.tracked, ptr)
              && (!Tracks(m.tracked, ptr) ==> m'.tracked == m.tracked && m'.total == m.total)
            case Wipe => forall p :: p in m'.live <==> p in m.live && !Tracks(m.tracked, p)
  {
    match op
    case Alloc(_, _, _) =>
    case Free(ptr, size) =>
      FreeStep(m, ptr, size);
      WithoutFirstRest(m.tracked, ptr);
      NotTracked(m.tracked, ptr);
      var left := WithoutFirst(m.tracked, ptr);
      forall i | 0 <= i < |left| ensures left[i].ptr != ptr {
        assert left[i] in left;
      }
    case Wipe =>
  }

  lemma StepKeepsInv(m: Mem, op: Op)
    requires Inv(m) && Allowed(m, op)
    ensures Inv(Step(m, op))
  {
    match op
    case Alloc(size, answer, node) =>
      if answer.Some? {
        AllocStep(m, size, answer.value);
      }
    case Free(ptr, size) => FreeStep(m, ptr, size);
    case Wipe =>
  }

  // ---- The list in place ----

  class AllocNode {
    const ptr: nat
    const size: Size
    var next: AllocNode?

    constructor (ptr: nat, size: Size, next: AllocNode?)
      ensures this.ptr == ptr && this.size == size && this.next == next
    {
      this.ptr, this.size, this.next := ptr, size, next;
    }
  }

  /** What the nodes record; it never changes after a node is made. */
  ghost function Entries(ns: seq<AllocNode>): (es: seq<Entry>)
    ensures |es| == |ns|
  {
    seq(|ns|, i requires 0 <= i < |ns| => Entry(ns[i].ptr, ns[i].size))
  }

  lemma EntriesWithout(ns: seq<AllocNode>, i: nat)
    requires i < |ns|
    ensures Entries(ns[..i] + ns[i + 1..]) == Entries(ns)[..i] + Entries(ns)[i + 1..]
  {
  }

  lemma FoundAt(es: seq<Entry>, ptr: nat, i: nat)
    requires i <= |es| && (i < |es| ==> es[i].ptr == ptr) && forall j | 0 <= j < i :: es[j].ptr != ptr
    ensures Tracks(es, ptr) <==> i < |es|
  {
  }

  class SecureAllocator {
    var list: AllocNode?
    var count: nat
    var total: Size
    var live: map<nat, Size>
    ghost var nodes: seq<AllocNode>

    /** The list runs through `nodes` in order. */
    ghost predicate Linked()
      reads this, nodes
    {
      && (forall i, j | 0 <= i < j < |nodes| :: nodes[i] != nodes[j])
      && (if nodes == [] then list == null else list == nodes[0] && nodes[|nodes| - 1].next == null)
      && (forall i | 0 <= i < |nodes| - 1 :: nodes[i].next == nodes[i + 1])
      && count == |nodes|
    }

    ghost function View(): Mem
      reads this
    {
      Mem(Entries(nodes), total, live)
    }

    ghost predicate Valid()
      reads this, nodes
    {
      Linked() && Inv(View())
    }

    constructor ()
      ensures Valid() && View() == Mem([], 0, map[]) && fresh(nodes)
    {
      list, count, total, live, nodes := null, 0, 0, map[], [];
    }

    /** tracker_add, with a node that was allocated: it goes in front. */
    method TrackerAdd(ptr: nat, size: Size)
      requires Linked()
      modifies this
      ensures Linked() && forall n | n in nodes :: n in old(nodes) || fresh(n)
      ensures Entries(nodes) == [Entry(ptr, size)] + Entries(old(nodes))
      ensures total == AddWord(old(total), size) && live == old(live)
    {
      var node := new AllocNode(ptr, size, list);
      list := node;
      nodes := [node] + nodes;
      count := count + 1;
      total := AddWord(total, size);
    }

    /** `*current = to_free->next` */
    method Unlink(prev: AllocNode?, current: AllocNode, ghost i: nat)
      requires Linked() && i < |nodes| && current == nodes[i] && prev == (if i > 0 then nodes[i - 1] else null)
      modifies this, nodes
      ensures Linked() && nodes == old(nodes)[..i] + old(nodes)[i + 1..]
      ensures Entries(nodes) == Entries(old(nodes))[..i] + Entries(old(nodes))[i + 1..]
      ensures total == old(total) && live == old(live)
    {
      if prev == null {
        list := current.next;
      } else {
        prev.next := current.next;
      }
      hide Entries;
      ghost var ns := nodes;
      nodes := ns[..i] + ns[i + 1..];
      assert forall k | 0 <= k < |nodes| :: nodes[k] == ns[if k < i then k else k + 1];
      EntriesWithout(ns, i);
      count := count - 1;
    }

    /** The walk of tracker_remove: `prev` holds the link that leads to `current` (null: the list head). */
    method FindLink(ptr: nat) returns (prev: AllocNode?, current: AllocNode?, ghost i: nat)
      requires Linked()
      ensures i <= |nodes| && current == (if i < |nodes| then nodes[i] else null)
      ensures prev == (if i > 0 then nodes[i - 1] else null)
      ensures i < |nodes| ==> Entries(nodes)[i].ptr == ptr
      ensures forall j | 0 <= j < i :: Entries(nodes)[j].ptr != ptr
    {
      prev, current, i := null, list, 0;
      while current != null && current.ptr != ptr
        invariant i <= |nodes| && current == (if i < |nodes| then nodes[i] else null)
        invariant prev == (if i > 0 then nodes[i - 1] else null)
        invariant forall j | 0 <= j < i :: nodes[j].ptr != ptr
        decreases |nodes| - i
      {
        prev, current, i := current, current.next, i + 1;
      }
    }

    /** tracker_remove */
    method TrackerRemove(ptr: nat, size: Size)
      requires Linked()
      modifies this, nodes
      ensures Linked() && (forall n | n in nodes :: n in old(nodes)) && live == old(live)
      ensures Entries(nodes) == WithoutFirst(Entries(old(nodes)), ptr)
      ensures total == if Tracks(Entries(old(nodes)), ptr) then SubWord(old(total), size) else old(total)
    {
      hide WithoutFirst, Tracks;
      ghost var es := Entries(nodes);
      var prev, current, i := FindLink(ptr);
      FoundAt(es, ptr, i);
      if current == null {
        NotTracked(es, ptr);
        return;
      }
      WithoutFirstAt(es, i);
      Unlink(prev, current, i);
      total := SubWord(total, size);
    }

    /** secure_alloc: `ptr` is sodium_malloc's answer, `node` the tracker's malloc. */
    method Alloc(size: Size, ptr: Option<nat>, node: bool) returns (p: Option<nat>)
      requires Valid() && Allowed(View(), Op.Alloc(size, ptr, node))
      modifies this
      ensures Valid() && forall n | n in nodes :: n in old(nodes) || fresh(n)
      ensures View() == Step(old(View()), Op.Alloc(size, ptr, node))
      ensures p == if size == 0 then None else ptr
    {
      if size == 0 || ptr.None? {
        return None;
      }
      AllocStep(View(), size, ptr.value);
      live := live[ptr.value := size];
      if node {
        TrackerAdd(ptr.value, size);
      }
      return ptr;
    }

    /** secure_free */
    method Free(ptr: nat, size: Size)
      requires Valid() && ptr in live
      modifies this, nodes
      ensures Valid() && forall n | n in nodes :: n in old(nodes)
      ensures View() == Step(old(View()), Op.Free(ptr, size))
    {
      ghost var m := View();
      FreeStep(m, ptr, size);
      TrackerRemove(ptr, size);
      live := live - {ptr};
      assert View() == Step(m, Op.Free(ptr, size));
    }

    /** secure_emergency_wipe: each tracked block is live when it is freed, so each is freed exactly once. */
    method EmergencyWipe()
      requires Valid()
      modifies this
      ensures Valid() && View() == Step(old(View()), Op.Wipe) && count == 0
    {
      ghost var es, all := Entries(nodes), live;
      var current := list;
      ghost var i := 0;
      while current != null
        invariant 0 <= i <= |nodes| && Linked() && Entries(nodes) == es && nodes == old(nodes)
        invariant current == (if i < |nodes| then nodes[i] else null)
        invariant live == all - Ptrs(es[..i])
        decreases |nodes| - i
      {
        WipesNext(es, i, all);
        assert es[i] == Entry(current.ptr, current.size);
        live := live - {current.ptr};
        current, i := current.next, i + 1;
      }
      assert es[..i] == es;
      list, count, total, nodes := null, 0, 0, [];
    }
  }

  /** The next tracked block is still live when the ones before it were freed. */
  lemma WipesNext(es: seq<Entry>, i: nat, all: map<nat, Size>)
    requires i < |es| && AllLive(es, all) && Distinct(es)
    ensures es[i].ptr in all - Ptrs(es[..i]) && all - Ptrs(es[..i + 1]) == all - Ptrs(es[..i]) - {es[i].ptr}
  {
    assert es[i] in es && es[..i + 1] == es[..i] + [es[i]];
    PtrsSnoc(es[..i], es[i]);
  }

  lemma PtrsSnoc(es: seq<Entry>, e: Entry)
    ensures Ptrs(es + [e]) == Ptrs(es) + {e.ptr}
  {
    var all := es + [e];
    forall p | p in Ptrs(es) + {e.ptr} ensures p in Ptrs(all) {
      if p == e.ptr {
        assert all[|es|].ptr == p;
      } else {
        var i :| 0 <= i < |es| && es[i].ptr == p;
        assert all[i].ptr == p;
      }
    }
  }

  lemma {:induction false} NotTracked(es: seq<Entry>, ptr: nat)
    ensures !Tracks(es, ptr) ==> WithoutFirst(es, ptr) == es
  {
    if es != [] {
      NotTracked(es[1..], ptr);
      assert Tracks(es[1..], ptr) ==> Tracks(es, ptr) by {
        if i :| 0 <= i < |es[1..]| && es[1..][i].ptr == ptr {
          assert es[i + 1].ptr == ptr;
        }
      }
    }
  }

  // ---- Whole runs ----

  function Run(m: Mem, ops: seq<Op>): Mem
    decreases |ops|
  {
    if ops == [] then m else Run(Step(m, ops[0]), ops[1..])
  }

  predicate AllAllowed(m: Mem, ops: seq<Op>)
    decreases |ops|
  {
    ops == [] || (Allowed(m, ops[0]) && AllAllowed(Step(m, ops[0]), ops[1..]))
  }

  lemma {:induction false} RunKeepsInv(m: Mem, ops: seq<Op>)
    requires Inv(m) && AllAllowed(m, ops)
    ensures Inv(Run(m, ops))
    decreases |ops|
  {
    if ops != [] {
      StepKeepsInv(m, ops[0]);
      RunKeepsInv(Step(m, ops[0]), ops[1..]);
    }
  }

  /** As a set of blocks, the tracker's list is the set of live allocations. */
  ghost predicate Complete(m: Mem) {
    Ptrs(m.tracked) == m.live.Keys
  }

  lemma StepKeepsComplete(m: Mem, op: Op)
    requires Inv(m) && Allowed(m, op) && Complete(m) && (op.Alloc? ==> op.node)
    ensures Complete(Step(m, op))
  {
    var m' := Step(m, op);
    match op
    case Alloc(size, ptr, node) =>
      if size > 0 && ptr.Some? {
        PtrsCons(Entry(ptr.value, size), m.tracked);
      }
    case Free(ptr, size) =>
      assert ptr in Ptrs(m.tracked);
      var i :| 0 <= i < |m.tracked| && m.tracked[i].ptr == ptr;
      WithoutFirstAt(m.tracked, i);
      PtrsWithout(m.tracked, i);
    case Wipe =>
  }

  lemma PtrsCons(e: Entry, es: seq<Entry>)
    ensures Ptrs([e] + es) == {e.ptr} + Ptrs(es)
  {
    var all := [e] + es;
    assert all[0] == e && forall i | 0 <= i < |es| :: all[i + 1] == es[i];
    forall p | p in Ptrs(all) ensures p in {e.ptr} + Ptrs(es) {
      var i :| 0 <= i < |all| && all[i].ptr == p;
      assert i > 0 ==> es[i - 1].ptr == p;
    }
    forall p | p in Ptrs(es) ensures p in Ptrs(all) {
      var i :| 0 <= i < |es| && es[i].ptr == p;
      assert all[i + 1].ptr == p;
    }
  }

  lemma PtrsWithout(es: seq<Entry>, k: nat)
    requires k < |es| && forall i, j | 0 <= i < j < |es| :: es[i].ptr != es[j].ptr
    ensures Ptrs(es[..k] + es[k + 1..]) == Ptrs(es) - {es[k].ptr}
  {
    var rest := es[..k] + es[k + 1..];
    forall p | p in Ptrs(rest) ensures p in Ptrs(es) - {es[k].ptr} {
      var i :| 0 <= i < |rest| && rest[i].ptr == p;
      assert es[if i < k then i else i + 1].ptr == p;
    }
    forall p | p in Ptrs(es) - {es[k].ptr} ensures p in Ptrs(rest) {
      var i :| 0 <= i < |es| && es[i].ptr == p;
      assert rest[if i < k then i else i - 1].ptr == p;
    }
  }

  /** When the tracker's node allocation always succeeds, the list is exactly the live allocations after any
      run, each once with its own size; and then a wipe leaves nothing live. */
  lemma {:induction false} TrackerComplete(m: Mem, ops: seq<Op>)
    requires Inv(m) && Complete(m) && AllAllowed(m, ops)
    requires forall i | 0 <= i < |ops| && ops[i].Alloc? :: ops[i].node
    ensures Complete(Run(m, ops)) && Inv(Run(m, ops))
    ensures Step(Run(m, ops), Wipe).live == map[]
    decreases |ops|
  {
    if ops != [] {
      StepKeepsInv(m, ops[0]);
      StepKeepsComplete(m, ops[0]);
      TrackerComplete(Step(m, ops[0]), ops[1..]);
    }
  }

  // ---- The byte counter ----

  function Sum(es: seq<Entry>): nat {
    if es == [] then 0 else es[0].size + Sum(es[1..])
  }

  lemma {:induction false} SumWithout(es: seq<Entry>, i: nat)
    requires i < |es|
    ensures Sum(es[..i] + es[i + 1..]) == Sum(es) - es[i].size
  {
    var rest := es[..i] + es[i + 1..];
    if i == 0 {
      assert rest == es[1..];
    } else {
      SumWithout(es[1..], i - 1);
      assert rest[1..] == es[1..][..i - 1] + es[1..][i..];
    }
  }

  /** How far one call pushes the counter off: a free whose size is not the recorded one. */
  function Drift(m: Mem, drift: int, op: Op): int {
    match op
    case Alloc(size, ptr, node) => drift
    case Free(ptr, size) => if Tracks(m.tracked, ptr) && ptr in m.live then drift + m.live[ptr] as int - size else drift
    case Wipe => 0
  }

  function RunDrift(m: Mem, drift: int, ops: seq<Op>): int
    decreases |ops|
  {
    if ops == [] then drift else RunDrift(Step(m, ops[0]), Drift(m, drift, ops[0]), ops[1..])
  }

  /** The counter and the number differ by a multiple of 2^64. */
  predicate Congruent(total: Size, n: int) {
    (total - n) % WORD == 0
  }

  lemma CongruentMove(total: Size, total': Size, n: int, n': int)
    requires Congruent(total, n)
    requires var d := (total' - n') - (total - n); d == 0 || d == WORD || d == 0 - WORD
    ensures Congruent(total', n')
  {
  }

  lemma SumCons(e: Entry, es: seq<Entry>)
    ensures Sum([e] + es) == e.size + Sum(es)
  {
    assert ([e] + es)[1..] == es;
  }

  /** A free of a tracked block takes its recorded size from the sum. */
  lemma SumFreed(m: Mem, ptr: nat)
    requires Inv(m) && ptr in m.live
    ensures Sum(WithoutFirst(m.tracked, ptr)) == Sum(m.tracked) - (if Tracks(m.tracked, ptr) then m.live[ptr] else 0)
  {
    hide Sum, WithoutFirst;
    NotTracked(m.tracked, ptr);
    if i :| 0 <= i < |m.tracked| && m.tracked[i].ptr == ptr {
      assert m.tracked[i] in m.tracked;
      WithoutFirstAt(m.tracked, i);
      SumWithout(m.tracked, i);
    }
  }

  lemma StepBytes(m: Mem, drift: int, op: Op)
    requires Inv(m) && Allowed(m, op) && Congruent(m.total, Sum(m.tracked) + drift)
    ensures Congruent(Step(m, op).total, Sum(Step(m, op).tracked) + Drift(m, drift, op))
  {
    hide Congruent, Inv, WithoutFirst, Tracks;
    match op
    case Alloc(size, answer, node) => AllocBytes(m, drift, size, answer, node);
    case Free(ptr, size) => FreeBytes(m, drift, ptr, size);
    case Wipe => NothingCounted();
  }

  lemma NothingCounted()
    ensures Congruent(0, Sum([]) + 0)
  {
  }

  lemma AllocBytes(m: Mem, drift: int, size: Size, answer: Option<nat>, node: bool)
    requires Congruent(m.total, Sum(m.tracked) + drift)
    ensures var m' := Step(m, Alloc(size, answer, node));
            Congruent(m'.total, Sum(m'.tracked) + drift)
  {
    hide Congruent, Sum;
    if size != 0 && answer.Some? && node {
      var e := Entry(answer.value, size);
      SumCons(e, m.tracked);
      CongruentMove(m.total, AddWord(m.total, size), Sum(m.tracked) + drift, Sum([e] + m.tracked) + drift);
    }
  }

  lemma FreeBytes(m: Mem, drift: int, ptr: nat, size: Size)
    requires Inv(m) && ptr in m.live && Congruent(m.total, Sum(m.tracked) + drift)
    ensures var m' := Step(m, Free(ptr, size));
            Congruent(m'.total, Sum(m'.tracked) + Drift(m, drift, Free(ptr, size)))
  {
    hide Congruent, Inv, Sum, WithoutFirst, Tracks;
    SumFreed(m, ptr);
    if Tracks(m.tracked, ptr) {
      CongruentMove(m.total, SubWord(m.total, size), Sum(m.tracked) + drift,
                    Sum(WithoutFirst(m.tracked, ptr)) + (drift + m.live[ptr] as int - size));
    }
  }

  /** After any run from an exact counter, the counter is the sum of the tracked sizes plus the accumulated
      drift, modulo 2^64. So it is exact precisely when the sizes passed to free since the last wipe make
      up for each other; in particular when every free passes the recorded size. */
  lemma {:induction false} ByteTotal(m: Mem, drift: int, ops: seq<Op>)
    requires Inv(m) && AllAllowed(m, ops) && Congruent(m.total, Sum(m.tracked) + drift)
    ensures var m' := Run(m, ops);
            && Congruent(m'.total, Sum(m'.tracked) + RunDrift(m, drift, ops))
            && (Congruent(m'.total, Sum(m'.tracked)) <==> RunDrift(m, drift, ops) % WORD == 0)
    decreases |ops|
  {
    hide Inv, Step, Drift, Sum, Allowed, Congruent;
    if ops != [] {
      StepKeepsInv(m, ops[0]);
      StepBytes(m, drift, ops[0]);
      ByteTotal(Step(m, ops[0]), Drift(m, drift, ops[0]), ops[1..]);
    }
    DriftCounts(Run(m, ops).total, Sum(Run(m, ops).tracked), RunDrift(m, drift, ops));
  }

  lemma DriftCounts(total: Size, sum: nat, drift: int)
    ensures Congruent(total, sum + drift) ==> (Congruent(total, sum) <==> drift % WORD == 0)
  {
  }

  lemma {:induction false} MatchingFrees(m: Mem, ops: seq<Op>)
    requires Inv(m) && AllAllowed(m, ops) && SizesMatch(m, ops)
    ensures RunDrift(m, 0, ops) == 0
    decreases |ops|
  {
    if ops != [] {
      StepKeepsInv(m, ops[0]);
      MatchingFrees(Step(m, ops[0]), ops[1..]);
    }
  }

  /** Every free passes the size the block was allocated with. */
  predicate SizesMatch(m: Mem, ops: seq<Op>)
    decreases |ops|
  {
    ops == [] ||
    ((ops[0].Free? && ops[0].ptr in m.live ==> ops[0].size == m.live[ops[0].ptr]) && SizesMatch(Step(m, ops[0]), ops[1..]))
  }
}
