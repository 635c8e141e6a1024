/** crypticengine/src/key_storage.c: storing, retrieving and listing keys. */
module KeyStoreCalls {
  import opened Bytes
  import opened CText
  import opened Crypto
  import opened Host
  import opened KeyStore
  import opened Seqs
  import opened Wrappers

  const KEYSTORE_PATH := "/etc/securez/keystore.db"

  // ---- Reading ----

  method ReadHeader(f: Reader) returns (h: Option<Fields>)
    modifies f
    ensures h.None? <==> ReadHead(old(f.Rest())).NoHead?
    ensures h.Some? ==> ReadHead(old(f.Rest())) == Head(h.value, f.Rest())
  {
    ghost var s := f.Rest();
    var len := f.Read(2);
    if len.None? {
      return None;
    }
    var n := FromLE(len.value);
    if n >= NAME_MAX {
      return None;
    }
    var name := f.Read(n);
    if name.None? {
      return None;
    }
    SliceTwice(s, 2, n);
    h := ReadFixed(f, name.value);
  }

  function FixedFields(name: Bytestring, t: Bytestring): Fields
    requires |t| >= 56
  {
    Fields(name, FromLE(t[..4]), FromLE(t[4..12]), FromLE(t[12..16]), t[16..32], t[32..56])
  }

  /** The fields of fixed width that follow the name. */
  method ReadFixed(f: Reader, name: Bytestring) returns (h: Option<Fields>)
    modifies f
    ensures h.None? <==> |old(f.Rest())| < 56
    ensures var t := old(f.Rest());
            h.Some? ==> f.Rest() == t[56..] && h.value == FixedFields(name, t)
  {
    hide FromLE;
    ghost var t := f.Rest();
    var kind := f.Read(4);
    if kind.None? {
      return None;
    }
    var time := f.Read(8);
    if time.None? {
      return None;
    }
    SliceTwice(t, 4, 8);
    var bodyLen := f.Read(4);
    if bodyLen.None? {
      return None;
    }
    SliceTwice(t, 12, 4);
    var salt := f.Read(SALT_LEN);
    if salt.None? {
      return None;
    }
    SliceTwice(t, 16, 16);
    var nonce := f.Read(NONCE_LEN);
    if nonce.None? {
      return None;
    }
    SliceTwice(t, 32, 24);
    h := Some(Fields(name, FromLE(kind.value), FromLE(time.value), FromLE(bodyLen.value), salt.value, nonce.value));
  }

  /** The scanning loop of keystore_retrieve. */
  method FindEntry(f: Reader, name: Bytestring) returns (h: Option<Fields>)
    modifies f
    ensures h.None? <==> FirstHead(old(f.Rest()), name).NoHead?
    ensures h.Some? ==> FirstHead(old(f.Rest()), name) == Head(h.value, f.Rest())
  {
    while true
      invariant FirstHead(f.Rest(), name) == FirstHead(old(f.Rest()), name)
      decreases |f.Rest()|
    {
      h := ReadHeader(f);
      if h.None? || CStr(h.value.name, 0) == name {
        return;
      }
      f.Skip(h.value.bodyLen);
    }
  }

  /** The outcomes of the calls that can fail; the file also has to exist. */
  datatype RetrieveCalls = RetrieveCalls(verified: bool, opens: bool, buffer: bool, wrapKey: bool, derived: bool, output: bool)

  /** The key that a file gives for a name. */
  function Answer(c: Suite, file: Bytestring, name: Bytestring, pw: string): Option<Bytestring> {
    match Scan(file, name)
    case None => None
    case Some(x) => c.decrypt(c.derive(pw, x.salt), x.nonce, x.body)
  }

  /** The block for the key is tracked with the size of the sealed key, which is MAC_LEN more than the size
      the caller is told; it is all that a retrieval leaves behind. */
  method Retrieve(m: Machine, c: Suite, name: Bytestring, pw: string, calls: RetrieveCalls)
    returns (key: Option<Bytestring>, block: Option<nat>)
    requires m.Valid() && c.Lawful()
    modifies m
    ensures m.Valid() && m.heap == old(m.heap) && m.files == old(m.files)
    ensures key.None? ==> m.secure == old(m.secure)
    ensures key.Some? ==> block.Some? && block.value !in old(m.secure)
                          && m.secure == old(m.secure)[block.value := |key.value| + MAC_LEN]
    ensures key.Some? <==> calls.verified && calls.opens && calls.buffer && calls.wrapKey && calls.derived && calls.output
                           && KEYSTORE_PATH in m.files
                           && Answer(c, m.files[KEYSTORE_PATH], name, pw).Some?
    ensures key.Some? ==> key == Answer(c, m.files[KEYSTORE_PATH], name, pw)
  {
    hide FirstHead;
    key, block := None, None;
    if !calls.verified || !calls.opens || KEYSTORE_PATH !in m.files {
      return;
    }
    var f := new Reader(m.files[KEYSTORE_PATH]);
    var h := FindEntry(f, name);
    if h.None? {
      return;
    }
    var encrypted := m.Malloc(h.value.bodyLen, calls.buffer);
    if encrypted.None? {
      return;
    }
    var body := f.Read(h.value.bodyLen);
    if body.None? {
      m.Free(encrypted.value);
      return;
    }
    key, block := Open(m, c, pw, Sealed(h.value.salt, h.value.nonce, body.value), encrypted.value, calls);
  }

  /** From the sealed key in the buffer `encrypted` to the key; the buffer is freed on every exit. */
  method Open(m: Machine, c: Suite, pw: string, x: Sealed, encrypted: nat, calls: RetrieveCalls)
    returns (key: Option<Bytestring>, block: Option<nat>)
    requires m.Valid() && c.Lawful() && encrypted in m.heap
    modifies m`heap, m`secure, m`next
    ensures m.Valid() && m.heap == old(m.heap) - {encrypted}
    ensures key == if calls.wrapKey && calls.derived && calls.output then c.decrypt(c.derive(pw, x.salt), x.nonce, x.body)
                   else None
    ensures key.None? ==> m.secure == old(m.secure)
    ensures key.Some? ==> block.Some? && block.value !in old(m.secure)
                          && m.secure == old(m.secure)[block.value := |key.value| + MAC_LEN]
  {
    key, block := None, None;
    var wrapKey := m.SecureAlloc(KEY_LEN, calls.wrapKey);
    if wrapKey.None? {
      m.Free(encrypted);
      return;
    }
    if !calls.derived {
      m.SecureFree(wrapKey.value, KEY_LEN);
      m.Free(encrypted);
      return;
    }
    block := m.SecureAlloc(|x.body|, calls.output);
    if block.None? {
      m.SecureFree(wrapKey.value, KEY_LEN);
      m.Free(encrypted);
      return;
    }
    key := c.decrypt(c.derive(pw, x.salt), x.nonce, x.body);
    m.SecureFree(wrapKey.value, KEY_LEN);
    m.Free(encrypted);
    if key.None? {
      m.SecureFree(block.value, |x.body|);
      block := None;
    }
  }

  // ---- Storing ----

  /** One request to store; the salt, the nonce and the time are what the system supplies. */
  datatype Put = Put(name: Bytestring, kind: nat, time: nat, salt: Bytestring, nonce: Bytestring, key: Bytestring)

  /** The length of a name is stored as a uint16_t, and as many bytes of it. */
  function WireName(name: Bytestring): Bytestring {
    name[..|name| % UINT16]
  }

  function EntryFor(c: Suite, pw: string, p: Put): Entry {
    Entry(WireName(p.name), p.kind, p.time, p.salt, p.nonce, c.encrypt(c.derive(pw, p.salt), p.nonce, p.key))
  }

  /** `append` and `create` are the two attempts to open the file; `written` is how many bytes get to the
      disk, which nothing checks. */
  datatype StoreCalls = StoreCalls(verified: bool, wrapKey: bool, derived: bool, buffer: bool, encrypted: bool,
                                   append: bool, create: bool, written: nat)
  {
    predicate Succeeds() {
      verified && wrapKey && derived && buffer && encrypted && (append || create)
    }
  }

  /** The file after a store; opening for writing, when appending fails, empties it. */
  function Stored(c: Suite, pw: string, file: Bytestring, p: Put, calls: StoreCalls): Bytestring {
    if p.key == [] || !calls.Succeeds() then file
    else (if calls.append then file else []) + Take(Encode(EntryFor(c, pw, p)), calls.written)
  }

  function KeyFile(files: map<string, Bytestring>): Bytestring {
    if KEYSTORE_PATH in files then files[KEYSTORE_PATH] else []
  }

  method Store(m: Machine, c: Suite, p: Put, pw: string, calls: StoreCalls) returns (ok: bool)
    requires m.Valid()
    modifies m
    ensures m.Valid() && m.heap == old(m.heap) && m.secure == old(m.secure)
    ensures ok <==> p.key != [] && calls.verified && calls.wrapKey && calls.derived && calls.buffer && calls.encrypted
                    && (calls.append || calls.create)
    ensures ok <==> StoreOp(p, calls).Succeeds()
    ensures var file := if KEYSTORE_PATH in old(m.files) then old(m.files)[KEYSTORE_PATH] else [];
            m.files == if ok then old(m.files)[KEYSTORE_PATH := Stored(c, pw, file, p, calls)] else old(m.files)
  {
    hide Encode, Take, WireName;
    if p.key == [] || !calls.verified {
      return false;
    }
    var encrypted := SealKey(m, |p.key|, calls);
    if encrypted.None? {
      return false;
    }
    var body := c.encrypt(c.derive(pw, p.salt), p.nonce, p.key);
    var before: Bytestring := [];
    if calls.append {
      before := KeyFile(m.files);
    } else if !calls.create {
      m.Free(encrypted.value);
      return false;
    }
    var bytes := Fields8(p, body);
    m.WriteFile(KEYSTORE_PATH, before + Take(bytes, calls.written));
    m.Free(encrypted.value);
    ok := true;
  }

  /** The wrapping key and the buffer for the sealed key; the wrapping key is freed on every exit, and on failure
      the buffer too. */
  method SealKey(m: Machine, len: nat, calls: StoreCalls) returns (encrypted: Option<nat>)
    requires m.Valid()
    modifies m`heap, m`secure, m`next
    ensures m.Valid() && m.secure == old(m.secure)
    ensures encrypted.Some? <==> calls.wrapKey && calls.derived && calls.buffer && calls.encrypted
    ensures encrypted.None? ==> m.heap == old(m.heap)
    ensures encrypted.Some? ==> encrypted.value !in old(m.heap)
                                && m.heap == old(m.heap)[encrypted.value := len + MAC_LEN]
  {
    var wrapKey := m.SecureAlloc(KEY_LEN, calls.wrapKey);
    if wrapKey.None? {
      return None;
    }
    if !calls.derived {
      m.SecureFree(wrapKey.value, KEY_LEN);
      return None;
    }
    encrypted := m.Malloc(len + MAC_LEN, calls.buffer);
    if encrypted.None? {
      m.SecureFree(wrapKey.value, KEY_LEN);
      return;
    }
    if !calls.encrypted {
      m.SecureFree(wrapKey.value, KEY_LEN);
      m.Free(encrypted.value);
      return None;
    }
    m.SecureFree(wrapKey.value, KEY_LEN);
  }

  /** The eight fwrites; LE keeps the low bytes, as the casts to the widths of the file do. */
  method Fields8(p: Put, body: Bytestring) returns (bytes: Bytestring)
    ensures bytes == Encode(Entry(WireName(p.name), p.kind, p.time, p.salt, p.nonce, body))
  {
    hide LE, WireName;
    var nameLen := |p.name| % UINT16;
    bytes := LE(nameLen, 2);
    bytes := bytes + p.name[..nameLen];
    bytes := bytes + LE(p.kind, 4);
    bytes := bytes + LE(p.time, 8);
    bytes := bytes + LE(|body|, 4);
    bytes := bytes + p.salt;
    bytes := bytes + p.nonce;
    bytes := bytes + body;
    WireLength(p.name);
    EightParts(LE(nameLen, 2), p.name[..nameLen], LE(p.kind, 4), LE(p.time, 8), LE(|body|, 4), p.salt, p.nonce, body);
  }

  lemma WireLength(name: Bytestring)
    ensures WireName(name) == name[..|name| % UINT16] && |WireName(name)| == |name| % UINT16
  {
  }

  lemma EightParts(a: Bytestring, b: Bytestring, c: Bytestring, d: Bytestring, e: Bytestring, f: Bytestring,
                   g: Bytestring, h: Bytestring)
    ensures a + b + c + d + e + f + g + h == a + (b + (c + (d + (e + (f + (g + h))))))
  {
  }

  // ---- Runs of stores ----

  datatype StoreOp = StoreOp(put: Put, calls: StoreCalls)
  {
    predicate Succeeds() {
      put.key != [] && calls.Succeeds()
    }
  }

  function RunStores(c: Suite, pw: string, file: Bytestring, ops: seq<StoreOp>): Bytestring
    decreases |ops|
  {
    if ops == [] then file
    else RunStores(c, pw, Stored(c, pw, file, ops[0].put, ops[0].calls), ops[1..])
  }

  /** The puts whose store returned success. */
  function Kept(ops: seq<StoreOp>): seq<Put> {
    if ops == [] then [] else (if ops[0].Succeeds() then [ops[0].put] else []) + Kept(ops[1..])
  }

  function Entries(c: Suite, pw: string, ps: seq<Put>): seq<Entry> {
    if ps == [] then [] else [EntryFor(c, pw, ps[0])] + Entries(c, pw, ps[1..])
  }

  /** The widths of the C types, a C string for a name, and a sealed key whose length fits its field. */
  ghost predicate WellTyped(p: Put) {
    && NulFree(p.name) && p.kind < UINT32 && p.time < Pow256(8)
    && |p.salt| == SALT_LEN && |p.nonce| == NONCE_LEN && |p.key| + MAC_LEN < UINT32
  }

  /** The key of the earliest put of a name, as far as the scan gets: a name of 64 bytes or more in the file
      stops it. */
  function Earliest(ps: seq<Put>, name: Bytestring): Option<Bytestring> {
    if ps == [] || |WireName(ps[0].name)| >= NAME_MAX then None
    else if WireName(ps[0].name) == name then Some(ps[0].key)
    else Earliest(ps[1..], name)
  }

  lemma LongNameStops(e: Entry, s: Bytestring)
    requires NAME_MAX <= |e.name| < UINT16
    ensures ReadHead(Encode(e) + s) == NoHead
  {
    Widths();
    FromLEOfLE(|e.name|, 2);
    assert (Encode(e) + s)[..2] == LE(|e.name|, 2);
  }

  /** One put at the front of a file. */
  lemma AnswerStep(c: Suite, pw: string, p: Put, s: Bytestring, name: Bytestring)
    requires c.Lawful() && WellTyped(p)
    ensures Answer(c, Encode(EntryFor(c, pw, p)) + s, name, pw) ==
            if |WireName(p.name)| >= NAME_MAX then None
            else if WireName(p.name) == name then Some(p.key)
            else Answer(c, s, name, pw)
  {
    hide ReadHead, Encode;
    var e := EntryFor(c, pw, p);
    if |WireName(p.name)| >= NAME_MAX {
      LongNameStops(e, s);
    } else {
      HeadOfEntry(e, s);
      CStrWhole(e.name, 0);
      Split(e.body, s);
    }
  }

  lemma {:induction false} AnswerOfEntries(c: Suite, pw: string, ps: seq<Put>, name: Bytestring)
    requires c.Lawful() && forall i | 0 <= i < |ps| :: WellTyped(ps[i])
    ensures Answer(c, EncodeAll(Entries(c, pw, ps)), name, pw) == Earliest(ps, name)
  {
    if ps != [] {
      var rest := Entries(c, pw, ps[1..]);
      assert ([EntryFor(c, pw, ps[0])] + rest)[1..] == rest;
      AnswerStep(c, pw, ps[0], EncodeAll(rest), name);
      AnswerOfEntries(c, pw, ps[1..], name);
    }
  }

  /** Every success appended, and all of its bytes reached the disk. */
  ghost predicate Whole(c: Suite, pw: string, op: StoreOp) {
    op.Succeeds() ==>
      op.calls.append && op.calls.written >= |Encode(EntryFor(c, pw, op.put))| && WellTyped(op.put)
  }

  /** What one store adds to the file. */
  function Added(c: Suite, pw: string, op: StoreOp): Bytestring {
    if op.Succeeds() then Encode(EntryFor(c, pw, op.put)) else []
  }

  lemma StoredAdds(c: Suite, pw: string, file: Bytestring, op: StoreOp)
    requires Whole(c, pw, op)
    ensures Stored(c, pw, file, op.put, op.calls) == file + Added(c, pw, op)
  {
  }

  lemma EncodeKept(c: Suite, pw: string, ops: seq<StoreOp>)
    requires ops != []
    ensures EncodeAll(Entries(c, pw, Kept(ops))) == Added(c, pw, ops[0]) + EncodeAll(Entries(c, pw, Kept(ops[1..])))
  {
    var op, ps := ops[0], Kept(ops[1..]);
    if op.Succeeds() {
      assert ([op.put] + ps)[1..] == ps;
      assert ([EntryFor(c, pw, op.put)] + Entries(c, pw, ps))[1..] == Entries(c, pw, ps);
    } else {
      PlusNothing(ps);
      PlusNothing(EncodeAll(Entries(c, pw, ps)));
    }
  }

  lemma {:induction false} RunIsEncoding(c: Suite, pw: string, file: Bytestring, ops: seq<StoreOp>)
    requires forall i | 0 <= i < |ops| :: Whole(c, pw, ops[i])
    ensures RunStores(c, pw, file, ops) == file + EncodeAll(Entries(c, pw, Kept(ops)))
    decreases |ops|
  {
    if ops == [] {
      PlusNothing(file);
    } else {
      StoredAdds(c, pw, file, ops[0]);
      RunIsEncoding(c, pw, file + Added(c, pw, ops[0]), ops[1..]);
      EncodeKept(c, pw, ops);
      Assoc(file, Added(c, pw, ops[0]), EncodeAll(Entries(c, pw, Kept(ops[1..]))));
    }
  }

  lemma {:induction false} KeptTyped(c: Suite, pw: string, ops: seq<StoreOp>)
    requires forall i | 0 <= i < |ops| :: Whole(c, pw, ops[i])
    ensures forall i | 0 <= i < |Kept(ops)| :: WellTyped(Kept(ops)[i])
  {
    if ops != [] {
      KeptTyped(c, pw, ops[1..]);
    }
  }

  /** After any run of stores, failed ones included, a retrieval gives the key of the earliest successful
      store of the name. */
  lemma RetrieveIsEarliest(c: Suite, pw: string, ops: seq<StoreOp>, name: Bytestring)
    requires c.Lawful() && forall i | 0 <= i < |ops| :: Whole(c, pw, ops[i])
    ensures Answer(c, RunStores(c, pw, [], ops), name, pw) == Earliest(Kept(ops), name)
  {
    RunIsEncoding(c, pw, [], ops);
    KeptTyped(c, pw, ops);
    var es := Entries(c, pw, Kept(ops));
    assert [] + EncodeAll(es) == EncodeAll(es);
    AnswerOfEntries(c, pw, Kept(ops), name);
  }

  lemma {:induction false} EarliestOfFirst(before: seq<Put>, p: Put, after: seq<Put>)
    requires forall i | 0 <= i < |before| :: WireName(before[i].name) != p.name
    ensures Earliest(before + ([p] + after), p.name) == Some(p.key) <==>
            |p.name| < NAME_MAX && forall i | 0 <= i < |before| :: |before[i].name| % UINT16 < NAME_MAX
  {
    if before == [] {
      assert before + ([p] + after) == [p] + after;
      if |p.name| >= NAME_MAX {
        TooLong([p] + after, p.name);
      }
    } else {
      assert (before + ([p] + after))[1..] == before[1..] + ([p] + after);
      EarliestOfFirst(before[1..], p, after);
      assert forall i | 0 < i < |before| :: before[i] == before[1..][i - 1];
      assert |before[0].name| % UINT16 < NAME_MAX ==>
          ((forall i | 0 <= i < |before| :: |before[i].name| % UINT16 < NAME_MAX) <==>
           (forall i | 0 <= i < |before[1..]| :: |before[1..][i].name| % UINT16 < NAME_MAX));
    }
  }

  lemma {:induction false} TooLong(ps: seq<Put>, name: Bytestring)
    requires |name| >= NAME_MAX
    ensures Earliest(ps, name) == None
  {
    if ps != [] {
      TooLong(ps[1..], name);
    }
  }

  /** A store checks no length. The first store of a name is the one retrieved just when its name and all
      the names stored before it have fewer than 64 bytes, counted as the file counts them. */
  lemma StoredIsFound(c: Suite, pw: string, before: seq<Put>, p: Put, after: seq<Put>)
    requires c.Lawful() && forall i | 0 <= i < |before + ([p] + after)| :: WellTyped((before + ([p] + after))[i])
    requires forall i | 0 <= i < |before| :: WireName(before[i].name) != p.name
    ensures Answer(c, EncodeAll(Entries(c, pw, before + ([p] + after))), p.name, pw) == Some(p.key) <==>
            |p.name| < NAME_MAX && forall i | 0 <= i < |before| :: |before[i].name| % UINT16 < NAME_MAX
  {
    AnswerOfEntries(c, pw, before + ([p] + after), p.name);
    EarliestOfFirst(before, p, after);
  }

  /** Where the name is found, any password decrypts what was encrypted under the password of the store. */
  lemma OtherPassword(c: Suite, pw: string, other: string, before: seq<Put>, p: Put, s: Bytestring)
    requires c.Lawful() && WellTyped(p) && |p.name| < NAME_MAX
    requires forall i | 0 <= i < |before| ::
               WellTyped(before[i]) && |before[i].name| < NAME_MAX && before[i].name != p.name
    ensures var file := EncodeAll(Entries(c, pw, before)) + (Encode(EntryFor(c, pw, p)) + s);
            Answer(c, file, p.name, other) ==
            c.decrypt(c.derive(other, p.salt), p.nonce, c.encrypt(c.derive(pw, p.salt), p.nonce, p.key))
  {
    hide Encode, EncodeAll, Decode, Scan;
    ShortWire(p.name);
    EntryFits(c, pw, p);
    OthersFit(c, pw, before, p.name);
    var e, es := EntryFor(c, pw, p), Entries(c, pw, before);
    var tail := Encode(e) + s;
    ScanTail(es, tail, p.name);
    DecodeStep(e, s);
    CStrWhole(e.name, 0);
  }

  lemma {:induction false} OthersFit(c: Suite, pw: string, ps: seq<Put>, name: Bytestring)
    requires c.Lawful()
    requires forall i | 0 <= i < |ps| :: WellTyped(ps[i]) && |ps[i].name| < NAME_MAX && ps[i].name != name
    ensures var es := Entries(c, pw, ps);
            && |es| == |ps| && (forall i | 0 <= i < |es| :: Fits(es[i])) && Lookup(es, name).None?
  {
    hide WireName;
    if ps != [] {
      OthersFit(c, pw, ps[1..], name);
      ShortWire(ps[0].name);
      EntryFits(c, pw, ps[0]);
      var e, rest := EntryFor(c, pw, ps[0]), Entries(c, pw, ps[1..]);
      assert Entries(c, pw, ps)[1..] == rest;
      CStrWhole(e.name, 0);
    }
  }

  // ---- Torn and repeated stores ----

  /** A name that can be retrieved keeps its key through any run of further stores that append, whole, torn
      or failed. */
  lemma {:induction false} RunKeepsAnswer(c: Suite, pw: string, file: Bytestring, ops: seq<StoreOp>, name: Bytestring)
    requires Answer(c, file, name, pw).Some?
    requires forall i | 0 <= i < |ops| :: ops[i].Succeeds() ==> ops[i].calls.append
    ensures Answer(c, RunStores(c, pw, file, ops), name, pw) == Answer(c, file, name, pw)
    decreases |ops|
  {
    if ops != [] {
      var op := ops[0];
      if op.Succeeds() {
        ScanStable(file, Take(Encode(EntryFor(c, pw, op.put)), op.calls.written), name);
      }
      RunKeepsAnswer(c, pw, Stored(c, pw, file, op.put, op.calls), ops[1..], name);
    }
  }

  lemma {:induction false} LookupAppend(es: seq<Entry>, fs: seq<Entry>, name: Bytestring)
    requires Lookup(es, name).None?
    ensures Lookup(es + fs, name) == Lookup(fs, name)
  {
    if es == [] {
      assert es + fs == fs;
    } else {
      assert (es + fs)[1..] == es[1..] + fs;
      LookupAppend(es[1..], fs, name);
    }
  }

  /** A strict prefix of an entry holds no complete entry. */
  lemma TornIsNothing(e: Entry, n: nat)
    requires Fits(e) && n < |Encode(e)|
    ensures Decode(Encode(e)[..n]) == []
  {
    hide ReadHead, Encode;
    var s, t := Encode(e)[..n], Encode(e)[n..];
    var h := ReadHead(s);
    if h.Head? {
      HeadStable(s, t);
      assert s + t == Encode(e);
      PlusNothing(Encode(e));
      HeadOfEntry(e, []);
      PlusNothing(e.body);
      assert |h.rest + t| == |e.body|;
    }
  }

  lemma TailDecodes(e: Entry, n: nat)
    requires Fits(e)
    ensures Decode(Take(Encode(e), n)) == if n < |Encode(e)| then [] else [e]
  {
    if n < |Encode(e)| {
      TornIsNothing(e, n);
    } else {
      PlusNothing(Encode(e));
      DecodeStep(e, []);
    }
  }

  lemma ScanTail(es: seq<Entry>, tail: Bytestring, name: Bytestring)
    requires forall i | 0 <= i < |es| :: Fits(es[i])
    requires Lookup(es, name).None?
    ensures Scan(EncodeAll(es) + tail, name) == SealedOf(Lookup(Decode(tail), name))
  {
    DecodeOfEncode(es, tail);
    ScanIsLookup(EncodeAll(es) + tail, name);
    LookupAppend(es, Decode(tail), name);
  }

  lemma ScanTorn(es: seq<Entry>, e: Entry, n: nat)
    requires forall i | 0 <= i < |es| :: Fits(es[i])
    requires Fits(e) && NulFree(e.name) && Lookup(es, e.name).None?
    ensures Scan(EncodeAll(es) + Take(Encode(e), n), e.name) ==
            if n < |Encode(e)| then None else Some(Sealed(e.salt, e.nonce, e.body))
  {
    TailDecodes(e, n);
    ScanTail(es, Take(Encode(e), n), e.name);
    CStrWhole(e.name, 0);
  }

  lemma ShortWire(name: Bytestring)
    requires |name| < NAME_MAX
    ensures WireName(name) == name
  {
  }

  lemma EntryFits(c: Suite, pw: string, p: Put)
    requires c.Lawful() && WellTyped(p) && |WireName(p.name)| < NAME_MAX
    ensures Fits(EntryFor(c, pw, p)) && |EntryFor(c, pw, p).body| == |p.key| + MAC_LEN
    ensures |p.name| < NAME_MAX ==> EntryFor(c, pw, p).name == p.name
  {
  }

  /** What the scan finds of a put decrypts to its key. */
  lemma Opens(c: Suite, pw: string, p: Put, file: Bytestring)
    requires c.Lawful()
    ensures var e := EntryFor(c, pw, p);
            Scan(file, p.name) == Some(Sealed(e.salt, e.nonce, e.body)) ==> Answer(c, file, p.name, pw) == Some(p.key)
  {
  }

  /** A store returns success whatever was written. The new name is found just when all bytes were. */
  lemma TornStore(c: Suite, pw: string, es: seq<Entry>, p: Put, calls: StoreCalls)
    requires c.Lawful() && WellTyped(p) && |p.name| < NAME_MAX && p.key != []
    requires forall i | 0 <= i < |es| :: Fits(es[i])
    requires Lookup(es, p.name).None? && calls.Succeeds() && calls.append
    ensures Answer(c, Stored(c, pw, EncodeAll(es), p, calls), p.name, pw) ==
            if calls.written >= |Encode(EntryFor(c, pw, p))| then Some(p.key) else None
  {
    hide EntryFor, Encode, EncodeAll, Scan, WireName;
    var e := EntryFor(c, pw, p);
    ShortWire(p.name);
    EntryFits(c, pw, p);
    ScanTorn(es, e, calls.written);
    Opens(c, pw, p, Stored(c, pw, EncodeAll(es), p, calls));
  }

  lemma LongNamePrefix(e: Entry, n: nat)
    requires NAME_MAX <= |e.name| < UINT16
    ensures ReadHead(Take(Encode(e), n)) == NoHead
  {
    Widths();
    FromLEOfLE(|e.name|, 2);
    if n >= 2 {
      assert Take(Encode(e), n)[..2] == LE(|e.name|, 2);
    }
  }

  /** An entry alone in the file, whole or torn, answers no other name. */
  lemma AloneAnswers(c: Suite, pw: string, p: Put, n: nat, name: Bytestring)
    requires c.Lawful() && WellTyped(p) && WireName(p.name) != name
    ensures Answer(c, Take(Encode(EntryFor(c, pw, p)), n), name, pw) == None
  {
    hide Encode, ReadHead;
    var e := EntryFor(c, pw, p);
    if |e.name| >= NAME_MAX {
      LongNamePrefix(e, n);
    } else if n < |Encode(e)| {
      TornIsNothing(e, n);
      ScanIsLookup(Take(Encode(e), n), name);
    } else {
      PlusNothing(Encode(e));
      AnswerStep(c, pw, p, [], name);
    }
  }

  /** When appending fails and creating works, every other name is lost, however much is then written. */
  lemma CreateForgets(c: Suite, pw: string, file: Bytestring, p: Put, calls: StoreCalls, name: Bytestring)
    requires c.Lawful() && WellTyped(p) && p.key != [] && calls.Succeeds() && !calls.append
    requires WireName(p.name) != name
    ensures Answer(c, Stored(c, pw, file, p, calls), name, pw) == None
  {
    hide Answer;
    PlusNothing(Take(Encode(EntryFor(c, pw, p)), calls.written));
    AloneAnswers(c, pw, p, calls.written, name);
  }

  // ---- Listing ----

  datatype KeyInfo = KeyInfo(name: Bytestring, kind: nat, len: nat, time: nat)

  datatype Listed = NoInfo | Info(info: KeyInfo, rest: Bytestring)

  /** The listing reads a header up to the length of the sealed key only, and skips the rest by a 32-bit sum. */
  function ReadListed(s: Bytestring): (h: Listed)
    ensures h.Info? ==> |h.rest| < |s|
  {
    if |s| < 2 || FromLE(s[..2]) >= NAME_MAX || |s| < 2 + FromLE(s[..2]) + 16 then NoInfo
    else
      var n := FromLE(s[..2]);
      var t := s[2 + n..];
      var info := Numbers(s[2..2 + n], t);
      Info(info, Drop(t[16..], Sum32(SALT_LEN + NONCE_LEN, info.len)))
  }

  function ListFrom(s: Bytestring, room: nat): seq<KeyInfo>
    decreases |s|
  {
    var h := ReadListed(s);
    if room == 0 || h.NoInfo? then [] else [h.info] + ListFrom(h.rest, room - 1)
  }

  /** keystore_list's loop; `keys` is the caller's array. */
  method List(f: Reader, keys: array<KeyInfo>) returns (count: nat)
    requires keys.Length >= MAX_KEYS
    modifies f, keys
    ensures count <= MAX_KEYS && keys[..count] == ListFrom(old(f.Rest()), MAX_KEYS)
  {
    hide ReadListed, ListFrom;
    ghost var all := ListFrom(f.Rest(), MAX_KEYS);
    count := 0;
    PlusNothing(all);
    while count < MAX_KEYS
      invariant count <= MAX_KEYS
      invariant keys[..count] + ListFrom(f.Rest(), MAX_KEYS - count) == all
      decreases MAX_KEYS - count
    {
      ghost var s, done := f.Rest(), keys[..count];
      var info := ReadInfo(f);
      if info.None? {
        ListEnds(done, s, MAX_KEYS - count);
        return;
      }
      keys[count] := info.value;
      ListNext(done, s, ReadListed(s), MAX_KEYS - count);
      assert keys[..count + 1] == done + [info.value];
      count := count + 1;
    }
    ListEnds(keys[..count], f.Rest(), 0);
  }

  lemma ListEnds(done: seq<KeyInfo>, s: Bytestring, room: nat)
    requires room == 0 || ReadListed(s).NoInfo?
    ensures done + ListFrom(s, room) == done
  {
  }

  lemma ListNext(done: seq<KeyInfo>, s: Bytestring, h: Listed, room: nat)
    requires ReadListed(s) == h && h.Info? && room > 0
    ensures done + ListFrom(s, room) == (done + [h.info]) + ListFrom(h.rest, room - 1)
  {
    Assoc(done, [h.info], ListFrom(h.rest, room - 1));
  }

  /** One turn of the loop: the entry, and the file moved on. */
  method ReadInfo(f: Reader) returns (info: Option<KeyInfo>)
    modifies f
    ensures info.None? <==> ReadListed(old(f.Rest())).NoInfo?
    ensures info.Some? ==> ReadListed(old(f.Rest())) == Info(info.value, f.Rest())
  {
    ghost var s := f.Rest();
    var len := f.Read(2);
    if len.None? || FromLE(len.value) >= NAME_MAX {
      return None;
    }
    var name := f.Read(FromLE(len.value));
    if name.None? {
      return None;
    }
    SliceTwice(s, 2, FromLE(len.value));
    info := ReadNumbers(f, name.value);
  }

  function Numbers(name: Bytestring, t: Bytestring): KeyInfo
    requires |t| >= 16
  {
    KeyInfo(name, FromLE(t[..4]), FromLE(t[12..16]), FromLE(t[4..12]))
  }

  /** The numbers after the name, and the seek. */
  method ReadNumbers(f: Reader, name: Bytestring) returns (info: Option<KeyInfo>)
    modifies f
    ensures info.None? <==> |old(f.Rest())| < 16
    ensures info.Some? ==> info.value == Numbers(name, old(f.Rest()))
    ensures info.Some? ==> f.Rest() == Drop(old(f.Rest())[16..], Sum32(SALT_LEN + NONCE_LEN, info.value.len))
  {
    hide FromLE, Sum32;
    ghost var t := f.Rest();
    var kind := f.Read(4);
    if kind.None? {
      return None;
    }
    var time := f.Read(8);
    if time.None? {
      return None;
    }
    SliceTwice(t, 4, 8);
    var bodyLen := f.Read(4);
    if bodyLen.None? {
      return None;
    }
    SliceTwice(t, 12, 4);
    info := Some(KeyInfo(name, FromLE(kind.value), FromLE(bodyLen.value), FromLE(time.value)));
    f.Skip(Sum32(SALT_LEN + NONCE_LEN, FromLE(bodyLen.value)));
  }

  function InfoOf(e: Entry): KeyInfo {
    KeyInfo(e.name, e.kind, |e.body|, e.time)
  }

  function FirstInfos(es: seq<Entry>, room: nat): seq<KeyInfo>
    decreases |es|
  {
    if es == [] || room == 0 then [] else [InfoOf(es[0])] + FirstInfos(es[1..], room - 1)
  }

  lemma ListedEntry(e: Entry, s: Bytestring)
    requires Fits(e) && SALT_LEN + NONCE_LEN + |e.body| < UINT32
    ensures ReadListed(Encode(e) + s) == Info(InfoOf(e), s)
  {
    HeadOfEntry(e, s);
    var t := (Encode(e) + s)[2 + |e.name|..];
    SliceTwice(t, 16, 40);
    SliceTwice(t[16..], 40, |e.body|);
    Split(e.body, s);
  }

  lemma ListStep(s: Bytestring, rest: Bytestring, es: seq<Entry>, room: nat)
    requires es != [] && room > 0
    requires ReadListed(s) == Info(InfoOf(es[0]), rest) && ListFrom(rest, room - 1) == FirstInfos(es[1..], room - 1)
    ensures ListFrom(s, room) == FirstInfos(es, room)
  {
  }

  lemma ListNothing(s: Bytestring, room: nat)
    requires |s| == 0 || room == 0
    ensures ListFrom(s, room) == []
  {
  }

  lemma ListCons(es: seq<Entry>, room: nat)
    requires es != [] && Fits(es[0]) && SALT_LEN + NONCE_LEN + |es[0].body| < UINT32 && room > 0
    requires ListFrom(EncodeAll(es[1..]), room - 1) == FirstInfos(es[1..], room - 1)
    ensures ListFrom(EncodeAll(es), room) == FirstInfos(es, room)
  {
    ListedEntry(es[0], EncodeAll(es[1..]));
    ListStep(Encode(es[0]) + EncodeAll(es[1..]), EncodeAll(es[1..]), es, room);
  }

  /** The listing of a well-formed file is the metadata of its first 128 entries in the order they were stored. */
  lemma {:induction false} ListOfEntries(es: seq<Entry>, room: nat)
    requires forall i | 0 <= i < |es| :: Fits(es[i]) && SALT_LEN + NONCE_LEN + |es[i].body| < UINT32
    ensures ListFrom(EncodeAll(es), room) == FirstInfos(es, room)
  {
    hide ReadListed;
    if es == [] || room == 0 {
      ListNothing(EncodeAll(es), room);
    } else {
      ListOfEntries(es[1..], room - 1);
      ListCons(es, room);
    }
  }

  lemma {:induction false} FirstInfosAt(es: seq<Entry>, room: nat, k: nat)
    requires k < |es| && k < room
    ensures |FirstInfos(es, room)| == (if |es| < room then |es| else room)
    ensures var info := FirstInfos(es, room)[k];
            info.name == es[k].name && info.kind == es[k].kind && info.time == es[k].time && info.len == |es[k].body|
  {
    FirstInfosLength(es, room);
    if k > 0 {
      FirstInfosLength(es[1..], room - 1);
      FirstInfosAt(es[1..], room - 1, k - 1);
    }
  }

  lemma {:induction false} FirstInfosLength(es: seq<Entry>, room: nat)
    ensures |FirstInfos(es, room)| == if |es| < room then |es| else room
  {
    if es != [] && room > 0 {
      FirstInfosLength(es[1..], room - 1);
    }
  }

  // ---- Listing after a run, and after a torn store ----

  /** The puts before the first whose name stands in the file with 64 bytes or more. */
  function BeforeLong(ps: seq<Put>): seq<Put> {
    if ps == [] || |WireName(ps[0].name)| >= NAME_MAX then [] else [ps[0]] + BeforeLong(ps[1..])
  }

  /** A length that the seek over the entry can hold. */
  predicate Seekable(p: Put) {
    SALT_LEN + NONCE_LEN + |p.key| + MAC_LEN < UINT32
  }

  lemma LongNameUnlisted(e: Entry, s: Bytestring, room: nat)
    requires NAME_MAX <= |e.name| < UINT16
    ensures ListFrom(Encode(e) + s, room) == []
  {
    Widths();
    FromLEOfLE(|e.name|, 2);
    assert (Encode(e) + s)[..2] == LE(|e.name|, 2);
  }

  lemma ListPut(c: Suite, pw: string, p: Put, rest: Bytestring, room: nat)
    requires c.Lawful() && WellTyped(p) && Seekable(p) && |WireName(p.name)| < NAME_MAX && room > 0
    ensures ListFrom(Encode(EntryFor(c, pw, p)) + rest, room) == [InfoOf(EntryFor(c, pw, p))] + ListFrom(rest, room - 1)
  {
    hide ListFrom, Encode, InfoOf, EntryFor;
    EntryFits(c, pw, p);
    ListTailStep(EntryFor(c, pw, p), rest, room);
  }

  lemma {:induction false} ListOfPuts(c: Suite, pw: string, ps: seq<Put>, room: nat)
    requires c.Lawful() && forall i | 0 <= i < |ps| :: WellTyped(ps[i])
    requires forall i | 0 <= i < |BeforeLong(ps)| :: Seekable(BeforeLong(ps)[i])
    ensures ListFrom(EncodeAll(Entries(c, pw, ps)), room) == FirstInfos(Entries(c, pw, BeforeLong(ps)), room)
    decreases |ps|
  {
    hide ListFrom, Encode, InfoOf, EntryFor, WireName, WellTyped, Seekable;
    if ps == [] || room == 0 {
      ListNothing(EncodeAll(Entries(c, pw, ps)), room);
    } else {
      var e, rest := EntryFor(c, pw, ps[0]), EncodeAll(Entries(c, pw, ps[1..]));
      assert ([e] + Entries(c, pw, ps[1..]))[1..] == Entries(c, pw, ps[1..]);
      if |WireName(ps[0].name)| >= NAME_MAX {
        LongPut(c, pw, ps[0]);
        LongNameUnlisted(e, rest, room);
      } else {
        var front := BeforeLong(ps[1..]);
        assert BeforeLong(ps)[0] == ps[0] && ([ps[0]] + front)[1..] == front;
        assert ([e] + Entries(c, pw, front))[1..] == Entries(c, pw, front);
        ListPut(c, pw, ps[0], rest, room);
        assert forall i | 0 <= i < |front| :: front[i] == BeforeLong(ps)[i + 1];
        ListOfPuts(c, pw, ps[1..], room - 1);
      }
    }
  }

  lemma LongPut(c: Suite, pw: string, p: Put)
    requires |WireName(p.name)| >= NAME_MAX
    ensures NAME_MAX <= |EntryFor(c, pw, p).name| < UINT16
  {
  }

  /** After any run of whole stores the listing is the metadata of the first 128 successful ones, in order, up to
      the first whose name has 64 bytes or more in the file. */
  lemma ListAfterRun(c: Suite, pw: string, ops: seq<StoreOp>, room: nat)
    requires c.Lawful() && forall i | 0 <= i < |ops| :: Whole(c, pw, ops[i])
    requires forall i | 0 <= i < |BeforeLong(Kept(ops))| :: Seekable(BeforeLong(Kept(ops))[i])
    ensures ListFrom(RunStores(c, pw, [], ops), room) == FirstInfos(Entries(c, pw, BeforeLong(Kept(ops))), room)
  {
    RunIsEncoding(c, pw, [], ops);
    KeptTyped(c, pw, ops);
    PlusNothing(EncodeAll(Entries(c, pw, Kept(ops))));
    ListOfPuts(c, pw, Kept(ops), room);
  }

  /** What the listing after a run shows of a store: the name as the file has it, the kind, the time, and the length
      of the sealed key. */
  lemma ListedPut(c: Suite, pw: string, ops: seq<StoreOp>, ps: seq<Put>, room: nat, k: nat)
    requires c.Lawful() && forall i | 0 <= i < |ops| :: Whole(c, pw, ops[i])
    requires ps == BeforeLong(Kept(ops)) && forall i | 0 <= i < |ps| :: Seekable(ps[i])
    requires k < |ps| && k < room
    ensures var listed := ListFrom(RunStores(c, pw, [], ops), room);
            && k < |listed| && listed[k].name == WireName(ps[k].name) && listed[k].kind == ps[k].kind
            && listed[k].time == ps[k].time && listed[k].len == |ps[k].key| + 16
  {
    hide ListFrom, RunStores, FirstInfos, Kept, BeforeLong;
    ListAfterRun(c, pw, ops, room);
    EntryAt(c, pw, ps, k);
    FirstInfosAt(Entries(c, pw, ps), room, k);
  }

  lemma {:induction false} EntryAt(c: Suite, pw: string, ps: seq<Put>, k: nat)
    requires c.Lawful() && k < |ps|
    ensures |Entries(c, pw, ps)| == |ps|
    ensures var e := Entries(c, pw, ps)[k];
            && e.name == WireName(ps[k].name) && e.kind == ps[k].kind && e.time == ps[k].time
            && |e.body| == |ps[k].key| + 16
  {
    if k > 0 {
      EntryAt(c, pw, ps[1..], k - 1);
    } else {
      EntriesLength(c, pw, ps);
    }
  }

  lemma {:induction false} EntriesLength(c: Suite, pw: string, ps: seq<Put>)
    ensures |Entries(c, pw, ps)| == |ps|
  {
    if ps != [] {
      EntriesLength(c, pw, ps[1..]);
    }
  }

  lemma ListTailStep(e: Entry, rest: Bytestring, room: nat)
    requires Fits(e) && SALT_LEN + NONCE_LEN + |e.body| < UINT32 && room > 0
    ensures ListFrom(Encode(e) + rest, room) == [InfoOf(e)] + ListFrom(rest, room - 1)
  {
    ListedEntry(e, rest);
    hide ReadListed, Encode, InfoOf;
  }

  /** Behind well-formed entries the listing goes on with what follows. */
  lemma {:induction false} ListOfTail(es: seq<Entry>, s: Bytestring, room: nat)
    requires forall i | 0 <= i < |es| :: Fits(es[i]) && SALT_LEN + NONCE_LEN + |es[i].body| < UINT32
    requires |es| <= room
    ensures ListFrom(EncodeAll(es) + s, room) == FirstInfos(es, room) + ListFrom(s, room - |es|)
  {
    hide ListFrom, Encode, InfoOf;
    if es == [] {
      PlusNothing(s);
      PlusNothing(ListFrom(s, room));
    } else {
      var rest := EncodeAll(es[1..]) + s;
      Assoc(Encode(es[0]), EncodeAll(es[1..]), s);
      ListTailStep(es[0], rest, room);
      ListOfTail(es[1..], s, room - 1);
      Assoc([InfoOf(es[0])], FirstInfos(es[1..], room - 1), ListFrom(s, room - |es|));
    }
  }

  /** The listing's reads of the first `n` bytes, when a whole header stands in front. */
  lemma ListedPrefix(a: Bytestring, n: nat)
    requires ReadHead(a).Head? && n <= |a|
    ensures var h := ReadHead(a).fields;
            ReadListed(a[..n]) ==
            if n < 2 + |h.name| + 16 then NoInfo
            else Info(KeyInfo(h.name, h.kind, h.bodyLen, h.time),
                      Drop(a[..n][2 + |h.name| + 16..], Sum32(SALT_LEN + NONCE_LEN, h.bodyLen)))
  {
    var s, len := a[..n], FromLE(a[..2]);
    if n >= 2 {
      assert s[..2] == a[..2];
      if n >= 2 + len + 16 {
        var t, u := a[2 + len..], s[2 + len..];
        assert s[2..2 + len] == a[2..2 + len];
        assert u == t[..n - 2 - len];
        assert u[..4] == t[..4] && u[4..12] == t[4..12] && u[12..16] == t[12..16];
        assert u[16..] == s[2 + len + 16..];
      }
    }
  }

  lemma TornHeader(e: Entry, n: nat)
    requires Fits(e) && SALT_LEN + NONCE_LEN + |e.body| < UINT32 && n < |Encode(e)|
    ensures ReadListed(Encode(e)[..n]) == if n >= 2 + |e.name| + 16 then Info(InfoOf(e), []) else NoInfo
  {
    PlusNothing(Encode(e));
    HeadOfEntry(e, []);
    ListedPrefix(Encode(e), n);
    hide ReadHead, ReadListed;
  }

  /** A torn entry is listed as soon as its header has reached the disk, although it cannot be retrieved. */
  lemma TornIsListed(es: seq<Entry>, e: Entry, n: nat, room: nat)
    requires forall i | 0 <= i < |es| :: Fits(es[i]) && SALT_LEN + NONCE_LEN + |es[i].body| < UINT32
    requires |es| < room && Fits(e) && SALT_LEN + NONCE_LEN + |e.body| < UINT32 && n < |Encode(e)|
    requires Lookup(es, e.name).None? && NulFree(e.name)
    ensures ListFrom(EncodeAll(es) + Encode(e)[..n], room) ==
            FirstInfos(es, room) + (if n >= 2 + |e.name| + 16 then [InfoOf(e)] else [])
    ensures Scan(EncodeAll(es) + Encode(e)[..n], e.name) == None
  {
    var s := Encode(e)[..n];
    TornHeader(e, n);
    ListOfTail(es, s, room);
    ScanTorn(es, e, n);
    TornTail(s, InfoOf(e), n >= 2 + |e.name| + 16, room - |es|);
  }

  lemma TornTail(s: Bytestring, info: KeyInfo, listed: bool, room: nat)
    requires ReadListed(s) == (if listed then Info(info, []) else NoInfo) && room > 0
    ensures ListFrom(s, room) == if listed then [info] else []
  {
    hide ReadListed;
    ListNothing([], room - 1);
  }
}
