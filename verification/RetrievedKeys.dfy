/** Retrieved keys in the allocation tracker: keystore_retrieve of crypticengine/src/key_storage.c tells its caller a
    length that is not the one secure_alloc of crypticengine/src/secure_memory.c has recorded. */
module RetrievedKeys {
  import opened Crypto
  import opened Host
  import KeyStoreCalls
  import opened SecureMemory
  import opened Wrappers

  /** The tracker's live blocks are the secure blocks of the machine. */
  ghost predicate SameBlocks(live: map<nat, Size>, secure: map<nat, nat>) {
    live.Keys == secure.Keys && forall p | p in live :: live[p] == secure[p]
  }

  /** The tracker's view of a block that the machine gained. */
  function Received(block: nat, n: nat): Op
    requires n + MAC_LEN < WORD
  {
    Alloc(n + MAC_LEN, Some(block), true)
  }

  /** A key is received, and then freed with the length the caller was told: the list and the live blocks are as
      before, and the counter is off by 16 more. */
  lemma ReceivedThenFreed(mem: Mem, drift: int, block: nat, n: nat)
    requires Inv(mem) && block !in mem.live && n + MAC_LEN < WORD
    ensures var ops := [Received(block, n), Free(block, n)];
            && AllAllowed(mem, ops) && RunDrift(mem, drift, ops) == drift + MAC_LEN
            && Run(mem, ops).tracked == mem.tracked && Run(mem, ops).live == mem.live
  {
    var a, b := Received(block, n), Free(block, n);
    var mem1 := Step(mem, a);
    var mem2 := Step(mem1, b);
    assert mem1.tracked[0].ptr == block && Tracks(mem1.tracked, block);
    assert mem1.tracked[1..] == mem.tracked && mem1.live - {block} == mem.live;
    assert mem2.tracked == mem.tracked && mem2.live == mem.live;
    assert Drift(mem, drift, a) == drift && Drift(mem1, drift, b) == drift + MAC_LEN;
    TwoCalls(mem, drift, a, b);
  }

  lemma TwoCalls(m: Mem, drift: int, a: Op, b: Op)
    ensures Run(m, [a, b]) == Step(Step(m, a), b)
    ensures RunDrift(m, drift, [a, b]) == Drift(Step(m, a), Drift(m, drift, a), b)
    ensures AllAllowed(m, [a, b]) <==> Allowed(m, a) && Allowed(Step(m, a), b)
  {
    var m1, d1 := Step(m, a), Drift(m, drift, a);
    assert [a, b][1..] == [b] && [b][1..] == [];
    LastCall(m1, d1, b);
  }

  lemma LastCall(m: Mem, drift: int, op: Op)
    ensures Run(m, [op]) == Step(m, op) && RunDrift(m, drift, [op]) == Drift(m, drift, op)
    ensures AllAllowed(m, [op]) <==> Allowed(m, op)
  {
    assert [op][1..] == [];
  }

  /** A retrieval in a machine whose secure blocks the tracker knows: `ops` is what the tracker has seen once the
      caller has freed the key with the length it was told. */
  method TrackedRetrieval(m: Machine, c: Suite, name: Bytestring, pw: string, calls: KeyStoreCalls.RetrieveCalls,
                          ghost mem: Mem, ghost drift: int)
    returns (key: Option<Bytestring>, block: Option<nat>, ghost ops: seq<Op>)
    requires m.Valid() && c.Lawful() && Inv(mem) && SameBlocks(mem.live, m.secure)
    modifies m
    ensures m.Valid() && m.heap == old(m.heap) && m.files == old(m.files)
    ensures key.Some? && |key.value| + MAC_LEN < WORD ==>
              && block.Some? && ops == [Received(block.value, |key.value|), Free(block.value, |key.value|)]
              && AllAllowed(mem, ops) && RunDrift(mem, drift, ops) == drift + MAC_LEN
              && SameBlocks(Step(mem, ops[0]).live, m.secure) && SameBlocks(Run(mem, ops).live, old(m.secure))
              && Run(mem, ops).tracked == mem.tracked
    ensures key.None? ==> m.secure == old(m.secure)
  {
    hide KeyStoreCalls.Answer;
    ops := [];
    key, block := KeyStoreCalls.Retrieve(m, c, name, pw, calls);
    if key.Some? && |key.value| + MAC_LEN < WORD {
      ops := [Received(block.value, |key.value|), Free(block.value, |key.value|)];
      ReceivedThenFreed(mem, drift, block.value, |key.value|);
    }
  }

  // ---- Many retrievals, among other calls ----

  /** The free of a tracked block with 16 bytes less than were recorded. */
  predicate FreesKey(m: Mem, op: Op) {
    op.Free? && Tracks(m.tracked, op.ptr) && op.ptr in m.live && m.live[op.ptr] == op.size + MAC_LEN
  }

  /** Every free is that of a retrieved key or passes the recorded size, and there is no wipe. */
  predicate KeysAside(m: Mem, ops: seq<Op>)
    decreases |ops|
  {
    ops == [] ||
    (&& !ops[0].Wipe?
     && (ops[0].Free? && ops[0].ptr in m.live ==> FreesKey(m, ops[0]) || ops[0].size == m.live[ops[0].ptr])
     && KeysAside(Step(m, ops[0]), ops[1..]))
  }

  function KeysFreed(m: Mem, ops: seq<Op>): nat
    decreases |ops|
  {
    if ops == [] then 0 else (if FreesKey(m, ops[0]) then 1 else 0) + KeysFreed(Step(m, ops[0]), ops[1..])
  }

  lemma {:induction false} KeysDrift(m: Mem, drift: int, ops: seq<Op>)
    requires AllAllowed(m, ops) && KeysAside(m, ops)
    ensures RunDrift(m, drift, ops) == drift + MAC_LEN * KeysFreed(m, ops)
    decreases |ops|
  {
    hide Step, Tracks;
    if ops != [] {
      KeysDrift(Step(m, ops[0]), Drift(m, drift, ops[0]), ops[1..]);
    }
  }

  /** After any run in which `k` retrieved keys were freed with the length that was told, and everything else with
      the recorded size, the byte total is exact just when 16k is a multiple of 2^64. */
  lemma TotalAfterKeys(m: Mem, ops: seq<Op>)
    requires Inv(m) && AllAllowed(m, ops) && KeysAside(m, ops) && Congruent(m.total, Sum(m.tracked))
    ensures Congruent(Run(m, ops).total, Sum(Run(m, ops).tracked)) <==> MAC_LEN * KeysFreed(m, ops) % WORD == 0
  {
    hide Congruent, Step, KeysFreed, RunDrift;
    KeysDrift(m, 0, ops);
    ByteTotal(m, 0, ops);
  }
}
