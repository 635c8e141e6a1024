/** crypticengine/src/hidden_container.c: the table of open containers against the system's open
    device-mapper names and mounted paths. Teardown commands are taken to succeed. */
module Containers {
  import opened CText

  const MAX_ACTIVE: nat := 16
  const NAME_SIZE: nat := 64
  const PATH_SIZE: nat := 256
  const MAPPER_SIZE: nat := NAME_SIZE + 16

  /** Names up to here leave room for the mapper prefix in the table's 64-byte field. */
  const SHORT_NAME: nat := 60

  datatype State = Closed | Open

  datatype Info = Info(name: string, mountPath: string, mapperName: string, state: State)

  const EMPTY := Info("", "", "", Closed)

  function MapperOf(name: string): string {
    Truncate("sz-" + name, MAPPER_SIZE)
  }

  function MountOf(name: string): string {
    Truncate("/mnt/securez-vault/" + name, PATH_SIZE)
  }

  /** The record container_open fills in; its fields are shorter than the buffers they are copied from. */
  function NewInfo(name: string): Info {
    Info(Truncate(name, NAME_SIZE), MountOf(name), Truncate(MapperOf(name), NAME_SIZE), Open)
  }

  /** What the system answers during container_open: are the files there, does pipe work, does cryptsetup
      accept the password, and does one of the two mount attempts work. */
  datatype Answers = Answers(filesExist: bool, pipe: bool, password: bool, mount: bool)

  // ---- The table as a value ----

  datatype Table = Table(entries: seq<Info>, mappers: set<string>, mounts: set<string>)

  function Find(es: seq<Info>, name: string, i: nat): (idx: nat)
    requires i <= |es|
    ensures i <= idx <= |es| && (idx < |es| ==> es[idx].name == name)
    ensures forall j | i <= j < idx :: es[j].name != name
    decreases |es| - i
  {
    if i == |es| || es[i].name == name then i else Find(es, name, i + 1)
  }

  function Without<T>(es: seq<T>, idx: nat): seq<T>
    requires idx < |es|
  {
    es[..idx] + es[idx + 1..]
  }

  /** Whether container_open gets as far as an open mapper. The system refuses a mapper name in use. */
  predicate Unlocks(t: Table, name: string, a: Answers) {
    a.filesExist && a.pipe && a.password && MapperOf(name) !in t.mappers
  }

  predicate AlreadyOpen(t: Table, name: string) {
    var idx := Find(t.entries, name, 0);
    idx < |t.entries| && t.entries[idx].state == Open
  }

  function OpenStep(t: Table, name: string, a: Answers): (Table, bool) {
    var idx := Find(t.entries, name, 0);
    if AlreadyOpen(t, name) then (t, true)
    else if |t.entries| >= MAX_ACTIVE && idx == |t.entries| then (t, false)
    else if !Unlocks(t, name, a) then (t, false)
    else if !a.mount then (t.(mappers := t.mappers + {MapperOf(name)} - {MapperOf(name)}), false)
    else
      var es := if idx == |t.entries| then t.entries + [NewInfo(name)] else t.entries[idx := NewInfo(name)];
      (Table(es, t.mappers + {MapperOf(name)}, t.mounts + {MountOf(name)}), true)
  }

  function CloseStep(t: Table, name: string): (Table, bool) {
    var idx := Find(t.entries, name, 0);
    if !AlreadyOpen(t, name) then (t, false)
    else
      (Table(Without(t.entries, idx), t.mappers - {t.entries[idx].mapperName}, t.mounts - {t.entries[idx].mountPath}), true)
  }

  function Mappers(es: seq<Info>): set<string> {
    set e | e in es :: e.mapperName
  }

  function Mounts(es: seq<Info>): set<string> {
    set e | e in es :: e.mountPath
  }

  /** The names are distinct, every entry is open and complete, and the open mappers and the mounted paths
      are exactly those of the entries. */
  ghost predicate Inv(t: Table) {
    && |t.entries| <= MAX_ACTIVE
    && (forall i, j | 0 <= i < j < |t.entries| :: t.entries[i].name != t.entries[j].name)
    && (forall e | e in t.entries :: |e.name| <= SHORT_NAME && e == NewInfo(e.name))
    && t.mappers == Mappers(t.entries) && t.mounts == Mounts(t.entries)
  }

  /** For short names nothing is cut, so different names give different mappers and paths. */
  lemma ShortNames(a: string, b: string)
    requires |a| <= SHORT_NAME && |b| <= SHORT_NAME
    ensures NewInfo(a) == Info(a, "/mnt/securez-vault/" + a, "sz-" + a, Open)
    ensures a != b ==> NewInfo(a).mapperName != NewInfo(b).mapperName && NewInfo(a).mountPath != NewInfo(b).mountPath
  {
    assert ("sz-" + a)[3..] == a && ("sz-" + b)[3..] == b;
    assert ("/mnt/securez-vault/" + a)[19..] == a && ("/mnt/securez-vault/" + b)[19..] == b;
  }

  lemma OpenKeepsInv(t: Table, name: string, a: Answers)
    requires Inv(t) && |name| <= SHORT_NAME
    ensures Inv(OpenStep(t, name, a).0)
  {
    var t' := OpenStep(t, name, a).0;
    ShortNames(name, name);
    if !AlreadyOpen(t, name) && |t.entries| < MAX_ACTIVE && Unlocks(t, name, a) && a.mount {
      var e := NewInfo(name);
      var idx := Find(t.entries, name, 0);
      assert forall i | 0 <= i < |t.entries| :: t.entries[i] in t.entries && t.entries[i].state == Open;
      assert t'.entries == t.entries + [e];
      assert Mappers(t'.entries) == Mappers(t.entries) + {e.mapperName};
      assert Mounts(t'.entries) == Mounts(t.entries) + {e.mountPath};
    }
  }

  /** A failed open leaves the entries, the mappers and the mounts as they were. */
  lemma FailedOpen(t: Table, name: string, a: Answers)
    requires !OpenStep(t, name, a).1
    ensures OpenStep(t, name, a).0 == t
  {
    assert MapperOf(name) !in t.mappers ==> t.mappers + {MapperOf(name)} - {MapperOf(name)} == t.mappers;
  }

  /** An open succeeds when the name is open already, or when there is room, the files are there, the password is
      right, its mapper is free and the volume can be mounted; then the name, for a short one, is the last entry, with
      its mapper open and its path mounted. */
  lemma OpenSucceeds(t: Table, name: string, a: Answers)
    requires Inv(t) && |name| <= SHORT_NAME
    ensures var (t', ok) := OpenStep(t, name, a);
            var known := exists i :: 0 <= i < |t.entries| && t.entries[i].name == name;
            && (ok <==> known || (|t.entries| < 16 && a.filesExist && a.pipe && a.password && ("sz-" + name) !in t.mappers && a.mount))
            && (known ==> t' == t)
            && (ok && !known ==>
                  && t'.entries == t.entries + [Info(name, "/mnt/securez-vault/" + name, "sz-" + name, Open)]
                  && t'.mappers == t.mappers + {"sz-" + name} && t'.mounts == t.mounts + {"/mnt/securez-vault/" + name})
  {
    ShortNames(name, name);
    hide NewInfo;
    var idx := Find(t.entries, name, 0);
    if idx < |t.entries| {
      assert t.entries[idx] in t.entries && t.entries[idx].name == name;
      EntryIsOpen(t.entries[idx]);
    }
  }

  lemma WithoutEntry(es: seq<Info>, idx: nat)
    requires idx < |es| && (forall i, j | 0 <= i < j < |es| :: es[i].name != es[j].name)
    requires forall e | e in es :: |e.name| <= SHORT_NAME && e == NewInfo(e.name)
    ensures Mappers(Without(es, idx)) == Mappers(es) - {es[idx].mapperName}
    ensures Mounts(Without(es, idx)) == Mounts(es) - {es[idx].mountPath}
  {
    hide NewInfo;
    var rest, gone := Without(es, idx), es[idx];
    forall e | e in rest ensures e in es && e.mapperName != gone.mapperName && e.mountPath != gone.mountPath {
      var i :| 0 <= i < |rest| && rest[i] == e;
      assert e == es[if i < idx then i else i + 1];
      ShortNames(e.name, gone.name);
    }
    forall e | e in es && e != gone ensures e in rest {
      var i :| 0 <= i < |es| && es[i] == e;
      assert rest[if i < idx then i else i - 1] == e;
    }
  }

  lemma CloseKeepsInv(t: Table, name: string)
    requires Inv(t)
    ensures Inv(CloseStep(t, name).0)
    ensures CloseStep(t, name).1 <==> exists i :: 0 <= i < |t.entries| && t.entries[i].name == name
  {
    hide NewInfo;
    var idx := Find(t.entries, name, 0);
    if idx < |t.entries| {
      assert t.entries[idx] in t.entries && t.entries[idx].name == name;
      EntryIsOpen(t.entries[idx]);
      WithoutEntry(t.entries, idx);
      WithoutKeeps(t.entries, idx);
    }
  }

  lemma EntryIsOpen(e: Info)
    requires e == NewInfo(e.name)
    ensures e.state == Open
  {
  }

  lemma WithoutKeeps(es: seq<Info>, idx: nat)
    requires idx < |es| && forall i, j | 0 <= i < j < |es| :: es[i].name != es[j].name
    ensures var rest := Without(es, idx);
            && (forall i, j | 0 <= i < j < |rest| :: rest[i].name != rest[j].name)
            && (forall e | e in rest :: e in es)
  {
    var rest := Without(es, idx);
    assert forall i | 0 <= i < |rest| :: rest[i] == es[if i < idx then i else i + 1];
  }

  /** A successful close takes out the entry of the name and keeps the others in their order. */
  lemma CloseRemoves(t: Table, name: string, i: nat)
    requires Inv(t) && i < |t.entries| && t.entries[i].name == name
    ensures var (t', ok) := CloseStep(t, name);
            && ok && t'.entries == t.entries[..i] + t.entries[i + 1..]
            && t'.mappers == t.mappers - {t.entries[i].mapperName} && t'.mounts == t.mounts - {t.entries[i].mountPath}
  {
    hide NewInfo;
    var idx := Find(t.entries, name, 0);
    assert idx == i;
    assert t.entries[i] in t.entries;
    EntryIsOpen(t.entries[i]);
  }

  // ---- Creation ----

  /** The outcomes of container_create's calls. A failing dd may leave a file behind. */
  datatype CreateCalls = CreateCalls(dd: bool, ddMakes: bool, pipe: bool, fork: bool, format: bool, secondPipe: bool,
                                     unlocked: bool)

  function VaultOf(base: string, name: string): string {
    Truncate(base + ("/" + (name + ".vault")), PATH_SIZE)
  }

  function HeaderOf(base: string, name: string): string {
    Truncate(base + ("/" + (name + ".header")), PATH_SIZE)
  }

  /** The files after container_create, and whether it succeeds. */
  function CreateStep(files: set<string>, mappers: set<string>, base: string, name: string, size: nat, calls: CreateCalls)
    : (set<string>, bool)
  {
    var vault, header := VaultOf(base, name), HeaderOf(base, name);
    if size == 0 || |name| >= NAME_SIZE || vault in files then (files, false)
    else if !calls.dd then (if calls.ddMakes then files + {vault} else files, false)
    else if !calls.pipe || !calls.fork then (files, false)
    else if calls.format && calls.secondPipe && calls.unlocked && MapperOf(name) !in mappers then
      (files + {vault, header}, true)
    else (files - {header}, false)
  }

  /** A create succeeds when the size and the name are in order, the vault is not there, every call works and the
      mapper is free; then the vault and its header are there and nothing else has changed. */
  lemma CreateSucceeds(files: set<string>, mappers: set<string>, base: string, name: string, size: nat, calls: CreateCalls)
    requires |base| + |name| + 8 < PATH_SIZE
    ensures var (files', ok) := CreateStep(files, mappers, base, name, size, calls);
            var vault, header := base + "/" + name + ".vault", base + "/" + name + ".header";
            && (ok <==> size > 0 && |name| < 64 && vault !in files && calls.dd && calls.pipe && calls.fork && calls.format
                        && calls.secondPipe && calls.unlocked && ("sz-" + name) !in mappers)
            && (ok ==> files' == files + {vault, header})
  {
    VaultIs(base, name);
  }

  lemma VaultIs(base: string, name: string)
    requires |base| + |name| + 8 < PATH_SIZE
    ensures VaultOf(base, name) == base + "/" + name + ".vault" && HeaderOf(base, name) == base + "/" + name + ".header"
    ensures |name| < 64 ==> MapperOf(name) == "sz-" + name
  {
    assert base + ("/" + (name + ".vault")) == base + "/" + name + ".vault";
    assert base + ("/" + (name + ".header")) == base + "/" + name + ".header";
  }

  /** A failed create leaves the files as they were just when dd left nothing behind and no header lay there
      before: an old header is removed with the new one. */
  lemma FailedCreate(files: set<string>, mappers: set<string>, base: string, name: string, size: nat, calls: CreateCalls)
    requires size > 0 && |name| < NAME_SIZE && VaultOf(base, name) !in files
    requires !CreateStep(files, mappers, base, name, size, calls).1
    ensures CreateStep(files, mappers, base, name, size, calls).0 == files <==>
            if !calls.dd then !calls.ddMakes else !calls.pipe || !calls.fork || HeaderOf(base, name) !in files
  {
    var vault := VaultOf(base, name);
    assert !calls.dd && calls.ddMakes ==> vault in CreateStep(files, mappers, base, name, size, calls).0;
  }

  // ---- The table in place ----

  class ContainerTable {
    const containers: array<Info>
    var count: nat
    var mappers: set<string>
    var mounts: set<string>
    var files: set<string>

    ghost predicate Shape()
      reads this
    {
      containers.Length == MAX_ACTIVE && count <= MAX_ACTIVE
    }

    ghost function View(): Table
      requires Shape()
      reads this, containers
    {
      Table(containers[..count], mappers, mounts)
    }

    ghost predicate Valid()
      reads this, containers
    {
      Shape() && Inv(View())
    }

    /** container_init */
    constructor (files: set<string>)
      ensures Valid() && View() == Table([], {}, {}) && fresh(containers) && this.files == files
    {
      containers := new Info[MAX_ACTIVE](_ => EMPTY);
      count, mappers, mounts := 0, {}, {};
      this.files := files;
    }

    method FindContainer(name: string) returns (idx: nat)
      requires Shape()
      ensures idx == Find(View().entries, name, 0)
    {
      idx := 0;
      while idx < count
        invariant 0 <= idx <= count && Find(View().entries, name, 0) == Find(View().entries, name, idx)
      {
        if containers[idx].name == name {
          return;
        }
        idx := idx + 1;
      }
    }

    /** container_open */
    method OpenContainer(name: string, a: Answers) returns (ok: bool)
      requires Shape()
      modifies this`count, this`mappers, this`mounts, containers
      ensures Shape() && (View(), ok) == OpenStep(old(View()), name, a)
    {
      ghost var t := View();
      var idx := FindContainer(name);
      if idx < count && containers[idx].state == Open {
        return true;
      }
      if count >= MAX_ACTIVE && idx == count {
        return false;
      }
      var mapper := MapperOf(name);
      if !a.filesExist || !a.pipe || !a.password || mapper in mappers {
        return false;
      }
      mappers := mappers + {mapper};
      if !a.mount {
        mappers := mappers - {mapper};
        return false;
      }
      mounts := mounts + {MountOf(name)};
      if idx == count {
        count := count + 1;
      }
      containers[idx] := NewInfo(name);
      assert containers[..count] ==
             if idx == |t.entries| then t.entries + [NewInfo(name)] else t.entries[idx := NewInfo(name)];
      return true;
    }

    /** container_close */
    method CloseContainer(name: string) returns (ok: bool)
      requires Shape()
      modifies this`count, this`mappers, this`mounts, containers
      ensures Shape() && (View(), ok) == CloseStep(old(View()), name)
    {
      ghost var t := View();
      var idx := FindContainer(name);
      if idx == count || containers[idx].state != Open {
        return false;
      }
      mounts := mounts - {containers[idx].mountPath};
      mappers := mappers - {containers[idx].mapperName};
      containers[idx] := containers[idx].(state := Closed);
      Compact(idx);
      assert Without(t.entries[idx := t.entries[idx].(state := Closed)], idx) == Without(t.entries, idx);
      return true;
    }

    /** The later entries move down. */
    method Compact(idx: nat)
      requires Shape() && idx < count
      modifies this`count, containers
      ensures Shape() && containers[..count] == Without(old(containers[..count]), idx)
    {
      ghost var es := containers[..count];
      if idx < count - 1 {
        forall i | idx <= i < count - 1 {
          containers[i] := containers[i + 1];
        }
      }
      count := count - 1;
      assert containers[..count] == Without(es, idx);
    }

    /** container_create: the new volume is filled, formatted, opened, given a file system and closed again. The
        system refuses a mapper name in use. It takes no lock: `during` is what other threads do while the new
        mapper is open, and of that only the opens that would need the same mapper fail. */
    method CreateContainer(base: string, name: string, size: nat, calls: CreateCalls, during: seq<Op>) returns (ok: bool)
      requires Valid() && OpensAndCloses(during)
      modifies this, containers
      ensures Valid() && View() == if ok then Run(old(View()), Refused(during, MapperOf(name))) else old(View())
      ensures (files, ok) == CreateStep(old(files), old(mappers), base, name, size, calls)
    {
      if size == 0 || |name| >= NAME_SIZE {
        return false;
      }
      var vault, header := VaultOf(base, name), HeaderOf(base, name);
      if vault in files {
        return false;
      }
      ghost var had := files;
      if !calls.dd {
        files := if calls.ddMakes then files + {vault} else files;
        return false;
      }
      files := files + {vault};
      if !calls.pipe || !calls.fork {
        files := files - {vault};
        assert files == had;
        return false;
      }
      files := files + {header};
      if !calls.format {
        files := files - {vault} - {header};
        assert files == had - {header};
        return false;
      }
      var mapper := MapperOf(name);
      if !calls.secondPipe || !calls.unlocked || mapper in mappers {
        files := files - {vault} - {header};
        assert files == had - {header};
        return false;
      }
      ghost var t := View();
      mappers := mappers + {mapper};
      OthersDuring(during, mapper, t);
      mappers := mappers - {mapper};
      assert View() == Run(t, Refused(during, mapper));
      assert files == had + {vault, header};
      return true;
    }

    /** Opens and closes of other threads while a mapper is open that no entry has. */
    method OthersDuring(ops: seq<Op>, mapper: string, ghost t: Table)
      requires Shape() && OpensAndCloses(ops) && Inv(t) && mapper !in t.mappers && View() == WithMapper(t, mapper)
      modifies this`count, this`mappers, this`mounts, containers
      ensures var t' := Run(t, Refused(ops, mapper));
              Shape() && Inv(t') && mapper !in t'.mappers && View() == WithMapper(t', mapper)
    {
      hide Inv, OpenStep, CloseStep;
      var i := 0;
      ghost var u := t;
      assert ops[0..] == ops;
      while i < |ops|
        invariant 0 <= i <= |ops| && Shape() && Inv(u) && mapper !in u.mappers && View() == WithMapper(u, mapper)
        invariant Run(u, Refused(ops[i..], mapper)) == Run(t, Refused(ops, mapper))
      {
        RefusedStep(u, ops, i, mapper);
        match ops[i] {
          case OpenOp(name, a) => var _ := OpenContainer(name, a);
          case CloseOp(name) => var _ := CloseContainer(name);
        }
        u := Step(u, RefusedOp(ops[i], mapper));
        i := i + 1;
      }
    }

    /** The first half of container_close_all: the names, copied under the lock. */
    method CopyNames() returns (names: array<string>)
      requires Valid()
      ensures fresh(names) && names.Length == MAX_ACTIVE
      ensures forall k | 0 <= k < count :: names[k] == View().entries[k].name
    {
      names := new string[MAX_ACTIVE](_ => "");
      var i := 0;
      while i < count
        invariant 0 <= i <= count && forall k | 0 <= k < i :: names[k] == containers[k].name
      {
        assert containers[i] in View().entries;
        names[i] := Truncate(containers[i].name, NAME_SIZE + 1);
        i := i + 1;
      }
    }

    /** Any operations of other threads, each a whole lock region; a close_all is several closes. */
    method Others(ops: seq<Op>)
      requires Valid() && LockRegions(ops)
      modifies this, containers
      ensures Valid() && View() == Run(old(View()), ops)
    {
      var i := 0;
      ghost var t := View();
      assert ops[0..] == ops;
      while i < |ops|
        invariant 0 <= i <= |ops| && Valid() && Run(View(), ops[i..]) == Run(t, ops)
      {
        assert ops[i..][0] == ops[i] && ops[i..][1..] == ops[i + 1..];
        StepKeepsInv(View(), ops[i]);
        match ops[i] {
          case OpenOp(name, a) => var _ := OpenContainer(name, a);
          case CloseOp(name) => var _ := CloseContainer(name);
          case CreateOp(base, name, size, calls) => var _ := CreateContainer(base, name, size, calls, []);
          case CloseAllOp =>
        }
        i := i + 1;
      }
    }

    /** container_close_all. `others(k)` is what other threads do before the k-th time it takes the lock. At the end
        only containers are tracked that other threads opened after the names were copied. */
    method CloseAll(others: nat -> seq<Op>)
      requires Valid() && forall k :: LockRegions(others(k))
      modifies this, containers
      ensures Valid()
      ensures forall e | e in View().entries :: exists k :: 0 < k <= MAX_ACTIVE && e.name in Opened(others(k))
      ensures (forall k :: Opened(others(k)) == {}) ==> View() == Table([], {}, {})
    {
      Others(others(0));
      hide Inv, Remaining, Opened, Run, CloseStep;
      var names := CopyNames();
      var n := count;
      var i := 0;
      ghost var copied := names[..n];
      AllCopied(View(), copied, others);
      while i < n
        invariant 0 <= i <= n == |copied| <= MAX_ACTIVE && names[..n] == copied
        invariant Valid() && Remaining(View(), copied, i, others)
      {
        RemainsAmongOthers(View(), copied, i, others);
        Others(others(i + 1));
        RemainsAfterClose(View(), copied, i, others);
        CloseKeepsInv(View(), copied[i]);
        assert names[i] == copied[i];
        var _ := CloseContainer(names[i]);
        i := i + 1;
      }
      OnlyOpened(View(), copied, others);
    }
  }

  // ---- Whole runs ----

  datatype Op = OpenOp(name: string, a: Answers) | CloseOp(name: string)
              | CreateOp(base: string, name: string, size: nat, calls: CreateCalls) | CloseAllOp

  /** Closing the containers of a list of names, one after the other. */
  function CloseNames(t: Table, names: seq<string>): Table
    decreases |names|
  {
    if names == [] then t else CloseNames(CloseStep(t, names[0]).0, names[1..])
  }

  function NamesOf(es: seq<Info>): (r: seq<string>)
    ensures |r| == |es| && forall i | 0 <= i < |r| :: r[i] == es[i].name
  {
    seq(|es|, i requires 0 <= i < |es| => es[i].name)
  }

  /** Creating a container leaves the table as it was. */
  function Step(t: Table, op: Op): Table {
    match op
    case OpenOp(name, a) => OpenStep(t, name, a).0
    case CloseOp(name) => CloseStep(t, name).0
    case CreateOp(_, _, _, _) => t
    case CloseAllOp => CloseNames(t, NamesOf(t.entries))
  }

  function Run(t: Table, ops: seq<Op>): Table
    decreases |ops|
  {
    if ops == [] then t else Run(Step(t, ops[0]), ops[1..])
  }

  ghost predicate Short(ops: seq<Op>) {
    forall i | 0 <= i < |ops| && !ops[i].CloseAllOp? :: |ops[i].name| <= SHORT_NAME
  }

  /** Operations that take the lock once at most. */
  ghost predicate LockRegions(ops: seq<Op>) {
    Short(ops) && forall i | 0 <= i < |ops| :: !ops[i].CloseAllOp?
  }

  // ---- While a container is created ----

  ghost predicate OpensAndCloses(ops: seq<Op>) {
    Short(ops) && forall i | 0 <= i < |ops| :: ops[i].OpenOp? || ops[i].CloseOp?
  }

  /** The system has one mapper more than the table knows. */
  function WithMapper(t: Table, mapper: string): Table {
    t.(mappers := t.mappers + {mapper})
  }

  /** An open that needs the mapper fails as with a wrong password. */
  function RefusedOp(op: Op, mapper: string): Op {
    if op.OpenOp? && MapperOf(op.name) == mapper then op.(a := op.a.(password := false)) else op
  }

  function Refused(ops: seq<Op>, mapper: string): seq<Op> {
    if ops == [] then [] else [RefusedOp(ops[0], mapper)] + Refused(ops[1..], mapper)
  }

  lemma OpenWithMapper(t: Table, name: string, a: Answers, mapper: string)
    requires mapper !in t.mappers
    ensures var t' := Step(t, RefusedOp(OpenOp(name, a), mapper));
            mapper !in t'.mappers && OpenStep(WithMapper(t, mapper), name, a).0 == WithMapper(t', mapper)
  {
    var m := MapperOf(name);
    if m != mapper {
      assert t.mappers + {mapper} + {m} == t.mappers + {m} + {mapper};
      assert m !in t.mappers ==> t.mappers + {mapper} + {m} - {m} == t.mappers + {m} - {m} + {mapper};
    }
  }

  lemma CloseWithMapper(t: Table, name: string, mapper: string)
    requires Inv(t) && mapper !in t.mappers
    ensures var t' := CloseStep(t, name).0;
            mapper !in t'.mappers && CloseStep(WithMapper(t, mapper), name).0 == WithMapper(t', mapper)
  {
    var idx := Find(t.entries, name, 0);
    if idx < |t.entries| {
      var own := t.entries[idx].mapperName;
      assert t.entries[idx] in t.entries && own in t.mappers;
      assert t.mappers + {mapper} - {own} == t.mappers - {own} + {mapper};
    }
  }

  /** One operation while the mapper is open. */
  lemma RefusedStep(t: Table, ops: seq<Op>, i: nat, mapper: string)
    requires OpensAndCloses(ops) && i < |ops| && Inv(t) && mapper !in t.mappers
    ensures var op := RefusedOp(ops[i], mapper);
            var t' := Step(t, op);
            && Inv(t') && mapper !in t'.mappers && Step(WithMapper(t, mapper), ops[i]) == WithMapper(t', mapper)
            && Run(t, Refused(ops[i..], mapper)) == Run(t', Refused(ops[i + 1..], mapper))
  {
    hide Inv, OpenStep, CloseStep;
    var op := RefusedOp(ops[i], mapper);
    assert ops[i..][0] == ops[i] && ops[i..][1..] == ops[i + 1..];
    assert Refused(ops[i..], mapper)[0] == op && Refused(ops[i..], mapper)[1..] == Refused(ops[i + 1..], mapper);
    StepKeepsInv(t, op);
    match ops[i]
    case OpenOp(name, a) => OpenWithMapper(t, name, a, mapper);
    case CloseOp(name) => CloseWithMapper(t, name, mapper);
    case _ =>
  }

  lemma CloseFirst(t: Table)
    requires Inv(t) && t.entries != []
    ensures CloseStep(t, t.entries[0].name).0.entries == t.entries[1..]
  {
    assert t.entries[0] in t.entries;
  }

  lemma NothingTracked(t: Table)
    requires Inv(t) && t.entries == []
    ensures t == Table([], {}, {})
  {
  }

  /** Closing all that is tracked leaves nothing tracked, mapped or mounted. */
  lemma {:induction false} CloseAllEmpties(t: Table)
    requires Inv(t)
    ensures CloseNames(t, NamesOf(t.entries)) == Table([], {}, {})
    decreases |t.entries|
  {
    hide Inv, CloseStep;
    if t.entries == [] {
      NothingTracked(t);
    } else {
      CloseFirst(t);
      CloseKeepsInv(t, t.entries[0].name);
      CloseAllEmpties(CloseStep(t, t.entries[0].name).0);
      assert NamesOf(t.entries)[1..] == NamesOf(t.entries[1..]);
    }
  }

  lemma StepKeepsInv(t: Table, op: Op)
    requires Inv(t) && (!op.CloseAllOp? ==> |op.name| <= SHORT_NAME)
    ensures Inv(Step(t, op))
  {
    match op
    case OpenOp(name, a) => OpenKeepsInv(t, name, a);
    case CloseOp(name) => CloseKeepsInv(t, name);
    case CreateOp(_, _, _, _) =>
    case CloseAllOp => CloseAllEmpties(t);
  }

  /** Over every run of create, open, close and close_all with names of at most 60 characters the tracked
      containers are exactly the open mappers and the mounted paths. */
  lemma {:induction false} RunKeepsInv(t: Table, ops: seq<Op>)
    requires Inv(t) && Short(ops)
    ensures Inv(Run(t, ops))
    decreases |ops|
  {
    if ops != [] {
      StepKeepsInv(t, ops[0]);
      RunKeepsInv(Step(t, ops[0]), ops[1..]);
    }
  }

  // ---- Closing all among other threads ----

  /** The names that some operations may open. */
  function Opened(ops: seq<Op>): set<string> {
    set i | 0 <= i < |ops| && ops[i].OpenOp? :: ops[i].name
  }

  ghost predicate OpenedSince(name: string, i: nat, others: nat -> seq<Op>) {
    exists k :: 0 < k <= i && name in Opened(others(k))
  }

  /** After `i` closes every tracked container is one whose turn is to come, or was opened by another thread. */
  ghost predicate Remaining(t: Table, names: seq<string>, i: nat, others: nat -> seq<Op>) {
    i <= |names| && forall e | e in t.entries :: e.name in names[i..] || OpenedSince(e.name, i, others)
  }

  lemma StepEntries(t: Table, op: Op, e: Info)
    requires Inv(t) && !op.CloseAllOp? && |op.name| <= SHORT_NAME && e in Step(t, op).entries
    ensures e in t.entries || (op.OpenOp? && e.name == op.name)
  {
    if op.OpenOp? {
      ShortNames(op.name, op.name);
    }
  }

  lemma {:induction false} RunEntries(t: Table, ops: seq<Op>, e: Info)
    requires Inv(t) && LockRegions(ops) && e in Run(t, ops).entries
    ensures e in t.entries || e.name in Opened(ops)
    decreases |ops|
  {
    if ops != [] {
      var t' := Step(t, ops[0]);
      StepKeepsInv(t, ops[0]);
      RunEntries(t', ops[1..], e);
      assert forall n | n in Opened(ops[1..]) :: n in Opened(ops) by {
        assert forall i | 0 <= i < |ops| - 1 :: ops[1..][i] == ops[i + 1];
      }
      if e in t'.entries {
        StepEntries(t, ops[0], e);
      }
    }
  }

  /** What other threads do before the next close. */
  lemma RemainsAmongOthers(t: Table, names: seq<string>, i: nat, others: nat -> seq<Op>)
    requires Inv(t) && Remaining(t, names, i, others) && i < |names|
    requires LockRegions(others(i + 1))
    ensures var t' := Run(t, others(i + 1));
            Inv(t') && forall e | e in t'.entries :: e.name in names[i..] || OpenedSince(e.name, i + 1, others)
  {
    var t' := Run(t, others(i + 1));
    RunKeepsInv(t, others(i + 1));
    forall e | e in t'.entries ensures e.name in names[i..] || OpenedSince(e.name, i + 1, others) {
      RunEntries(t, others(i + 1), e);
    }
  }

  lemma RemainsAfterClose(t: Table, names: seq<string>, i: nat, others: nat -> seq<Op>)
    requires Inv(t) && i < |names|
    requires forall e | e in t.entries :: e.name in names[i..] || OpenedSince(e.name, i + 1, others)
    ensures Remaining(CloseStep(t, names[i]).0, names, i + 1, others)
  {
    var t' := CloseStep(t, names[i]).0;
    var idx := Find(t.entries, names[i], 0);
    forall e | e in t'.entries ensures e.name in names[i + 1..] || OpenedSince(e.name, i + 1, others) {
      assert e in t.entries;
      assert e.name != names[i] by {
        StillThere(t, names[i], e);
      }
      assert names[i..] == [names[i]] + names[i + 1..];
    }
  }

  lemma AllCopied(t: Table, names: seq<string>, others: nat -> seq<Op>)
    requires |names| == |t.entries| && forall k | 0 <= k < |names| :: names[k] == t.entries[k].name
    ensures Remaining(t, names, 0, others)
  {
    assert names[0..] == names;
  }

  lemma OnlyOpened(t: Table, names: seq<string>, others: nat -> seq<Op>)
    requires Inv(t) && |names| <= MAX_ACTIVE && Remaining(t, names, |names|, others)
    ensures forall e | e in t.entries :: exists k :: 0 < k <= MAX_ACTIVE && e.name in Opened(others(k))
    ensures (forall k :: Opened(others(k)) == {}) ==> t == Table([], {}, {})
  {
    forall e | e in t.entries ensures exists k :: 0 < k <= MAX_ACTIVE && e.name in Opened(others(k)) {
      assert OpenedSince(e.name, |names|, others);
    }
    assert t.entries != [] ==> t.entries[0] in t.entries;
    if t.entries == [] {
      NothingTracked(t);
    }
  }

  lemma StillThere(t: Table, name: string, e: Info)
    requires Inv(t) && e in CloseStep(t, name).0.entries
    ensures e in t.entries && e.name != name
  {
    var idx := Find(t.entries, name, 0);
    if idx < |t.entries| {
      assert t.entries[idx] in t.entries;
      var k :| 0 <= k < |Without(t.entries, idx)| && Without(t.entries, idx)[k] == e;
      assert e == t.entries[if k < idx then k else k + 1];
    }
  }

  /** Opening and closing brings the mappers back exactly for names of at most 60 characters: a longer name
      is stored cut, so close asks the system for another mapper or does not find the entry at all. */
  lemma OpenThenClose(t: Table, name: string, a: Answers)
    requires Inv(t) && |t.entries| < MAX_ACTIVE
    requires Find(t.entries, name, 0) == |t.entries| && Unlocks(t, name, a) && a.mount
    ensures var t1 := OpenStep(t, name, a).0;
            CloseStep(t1, name).0.mappers == t.mappers <==> |name| <= SHORT_NAME
  {
    FindAppended(t.entries, NewInfo(name), name);
    if |name| <= SHORT_NAME {
      ShortNames(name, name);
      ClosedAgain(t, name, a);
    } else if |name| < NAME_SIZE {
      LongMapper(name);
      ClosedAgain(t, name, a);
    } else {
      CutName(name);
      NotClosed(t, name, a);
    }
  }

  lemma LongMapper(name: string)
    requires SHORT_NAME < |name| < NAME_SIZE
    ensures NewInfo(name).name == name && NewInfo(name).mapperName != MapperOf(name)
  {
    assert |NewInfo(name).mapperName| == NAME_SIZE - 1 < |MapperOf(name)|;
  }

  lemma CutName(name: string)
    requires |name| >= NAME_SIZE
    ensures NewInfo(name).name != name
  {
    assert |NewInfo(name).name| == NAME_SIZE - 1;
  }

  /** When close does not find the entry, its mapper stays open. */
  lemma NotClosed(t: Table, name: string, a: Answers)
    requires Find(t.entries, name, 0) == |t.entries| < MAX_ACTIVE && Unlocks(t, name, a) && a.mount
    requires Find(t.entries + [NewInfo(name)], name, 0) == |t.entries| + 1
    ensures CloseStep(OpenStep(t, name, a).0, name).0.mappers != t.mappers
  {
    hide NewInfo, MapperOf;
    var t1 := OpenStep(t, name, a).0;
    assert t1.entries == t.entries + [NewInfo(name)] && !AlreadyOpen(t1, name);
    assert MapperOf(name) in t1.mappers;
  }

  /** When close finds the entry again, it asks for the mapper name in the table. */
  lemma ClosedAgain(t: Table, name: string, a: Answers)
    requires Find(t.entries, name, 0) == |t.entries| < MAX_ACTIVE && Unlocks(t, name, a) && a.mount
    requires NewInfo(name).name == name && Find(t.entries + [NewInfo(name)], name, 0) == |t.entries|
    ensures CloseStep(OpenStep(t, name, a).0, name).0.mappers == t.mappers + {MapperOf(name)} - {NewInfo(name).mapperName}
    ensures CloseStep(OpenStep(t, name, a).0, name).0.mappers == t.mappers <==> NewInfo(name).mapperName == MapperOf(name)
  {
    var t1, m := OpenStep(t, name, a).0, MapperOf(name);
    assert t1.entries == t.entries + [NewInfo(name)];
    assert t.mappers + {m} - {m} == t.mappers;
    var t2 := CloseStep(t1, name).0;
    assert NewInfo(name).mapperName != m ==> m in t2.mappers;
  }

  lemma {:induction false} FindFrom(es: seq<Info>, e: Info, name: string, i: nat)
    requires i <= |es| && Find(es, name, i) == |es|
    ensures Find(es + [e], name, i) == if e.name == name then |es| else |es| + 1
    decreases |es| - i
  {
    if i < |es| {
      FindFrom(es, e, name, i + 1);
    }
  }

  lemma FindAppended(es: seq<Info>, e: Info, name: string)
    requires Find(es, name, 0) == |es|
    ensures Find(es + [e], name, 0) == if e.name == name then |es| else |es| + 1
  {
    FindFrom(es, e, name, 0);
  }
}
