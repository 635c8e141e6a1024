/** shell/src/szshell.c: execute_pipeline, as a protocol over per-process descriptor tables.
    The parent's calls and every child's set-up calls interleave in any order. */
module Pipes {
  import opened Wrappers
  import opened ShellLimits

  /** What a descriptor refers to: something open at entry, an end of pipe `k`, or a redirect file. */
  datatype End = Entry(id: nat) | PipeRead(k: nat) | PipeWrite(k: nat) | File(path: string)

  type FdTable = map<nat, End>

  /** A redirect and whether opening its file will succeed. */
  datatype Redirect = Redirect(path: string, opens: bool)

  /** A parsed command: `words` is argc. */
  datatype Stage = Stage(words: nat, stdin: Option<Redirect>, stdout: Option<Redirect>, stderr: Option<Redirect>)

  // ---- Descriptors ----

  function FreeFrom(t: FdTable, n: nat): (fd: nat)
    ensures n <= fd && fd !in t && forall j | n <= j < fd :: j in t
    decreases |set k | k in t && k >= n|
  {
    if n !in t then n
    else
      assert (set k | k in t && k >= n) == (set k | k in t && k >= n + 1) + {n};
      FreeFrom(t, n + 1)
  }

  /** The descriptor that open and pipe hand out. */
  function LowestFree(t: FdTable): (fd: nat)
    ensures fd !in t && forall j | 0 <= j < fd :: j in t
  {
    FreeFrom(t, 0)
  }

  predicate StandardOpen(t: FdTable) {
    0 in t && 1 in t && 2 in t
  }

  // ---- A child between fork and exec ----

  datatype Call = Dup2(from: nat, to: nat) | Close(fd: nat) | Fopen(redir: Redirect) | DupFile(to: nat) | Fclose

  /** `file` is the descriptor behind the child's FILE pointer, `todo` the calls still to make; a child
      with nothing to do is at exec, an exited one holds nothing. */
  datatype Child = Child(fds: FdTable, file: nat, todo: seq<Call>, exited: bool)

  function ChildStep(c: Child): Child {
    if c.todo == [] then c
    else
      var c' := c.(todo := c.todo[1..]);
      match c.todo[0]
      case Dup2(from, to) => if from in c.fds then c'.(fds := c.fds[to := c.fds[from]]) else c'
      case Close(fd) => c'.(fds := c.fds - {fd})
      case Fopen(redir) =>
        if redir.opens then
          var fd := LowestFree(c.fds);
          c'.(fds := c.fds[fd := File(redir.path)], file := fd)
        else Child(map[], 0, [], true)
      case DupFile(to) => if c.file in c.fds then c'.(fds := c.fds[to := c.fds[c.file]]) else c'
      case Fclose => c'.(fds := c.fds - {c.file})
  }

  /** The child after all its set-up calls. */
  function Finish(c: Child): (r: Child)
    ensures r.todo == []
    decreases |c.todo|
  {
    if c.todo == [] then c else Finish(ChildStep(c))
  }

  lemma FinishAfterStep(c: Child)
    ensures Finish(ChildStep(c)) == Finish(c)
  {
  }

  lemma FinishDone(c: Child)
    requires c.todo == []
    ensures Finish(c) == c
  {
  }

  function FileCalls(redir: Option<Redirect>, to: nat): seq<Call> {
    match redir case None => [] case Some(r) => [Fopen(r), DupFile(to), Fclose]
  }

  /** The set-up calls of the child branch, for the descriptors it was forked with. */
  function InputCalls(stage: Stage, prev: Option<nat>): seq<Call> {
    match prev
    case Some(fd) => [Dup2(fd, 0), Close(fd)]
    case None => FileCalls(stage.stdin, 0)
  }

  function OutputCalls(stage: Stage, pipe: Option<(nat, nat)>): seq<Call> {
    match pipe
    case Some((r, w)) => [Dup2(w, 1), Close(r), Close(w)]
    case None => FileCalls(stage.stdout, 1)
  }

  function SetupCalls(stage: Stage, prev: Option<nat>, pipe: Option<(nat, nat)>): seq<Call> {
    InputCalls(stage, prev) + OutputCalls(stage, pipe) + FileCalls(stage.stderr, 2)
  }

  // ---- What each child should end with ----

  predicate Runs(stages: seq<Stage>, i: nat) {
    i < |stages| && stages[i].words > 0
  }

  /** The last stage before `i` that runs. */
  function Previous(stages: seq<Stage>, i: nat): (p: Option<nat>)
    ensures p.Some? ==> p.value < i && Runs(stages, p.value) && forall j | p.value < j < i :: !Runs(stages, j)
    ensures p.None? ==> forall j | 0 <= j < i :: !Runs(stages, j)
  {
    if i == 0 then None else if Runs(stages, i - 1) then Some(i - 1) else Previous(stages, i - 1)
  }

  /** How many stages before `i` run. */
  function Running(stages: seq<Stage>, i: nat): nat {
    if i == 0 then 0 else Running(stages, i - 1) + if Runs(stages, i - 1) then 1 else 0
  }

  /** The pipe that stage `i` writes to, when the first new pipe is number `base`. */
  function PipeOf(stages: seq<Stage>, base: nat, i: nat): nat {
    base + Running(stages, i)
  }

  /** A descriptor's new referent: a pipe end, else a redirect file, else what it was. None: open failed. */
  function Wired(pipe: Option<End>, redir: Option<Redirect>, was: End): Option<End> {
    match pipe
    case Some(e) => Some(e)
    case None =>
      match redir
      case None => Some(was)
      case Some(r) => if r.opens then Some(File(r.path)) else None
  }

  function InputEnd(stages: seq<Stage>, base: nat, i: nat): Option<End> {
    match Previous(stages, i) case None => None case Some(p) => Some(PipeRead(PipeOf(stages, base, p)))
  }

  function OutputEnd(stages: seq<Stage>, base: nat, i: nat): Option<End> {
    if i + 1 < |stages| then Some(PipeWrite(PipeOf(stages, base, i))) else None
  }

  /** The table stage `i` reaches exec with: the one at entry with new standard descriptors. None: the
      child exits because a redirect file does not open. */
  function WiredTable(entry: FdTable, stage: Stage, input: Option<End>, output: Option<End>): Option<FdTable>
    requires StandardOpen(entry)
  {
    match (Wired(input, stage.stdin, entry[0]), Wired(output, stage.stdout, entry[1]),
           Wired(None, stage.stderr, entry[2]))
    case (Some(a), Some(b), Some(c)) => Some(entry[0 := a][1 := b][2 := c])
    case _ => None
  }

  function Wiring(entry: FdTable, stages: seq<Stage>, base: nat, i: nat): Option<FdTable>
    requires i < |stages| && StandardOpen(entry)
  {
    WiredTable(entry, stages[i], InputEnd(stages, base, i), OutputEnd(stages, base, i))
  }

  ghost predicate EndsAs(c: Child, table: Option<FdTable>) {
    var f := Finish(c);
    match table
    case Some(t) => !f.exited && f.fds == t
    case None => f.exited && f.fds == map[]
  }

  // ---- The set-up calls do the wiring ----

  const DEAD := Child(map[], 0, [], true)

  predicate CannotOpen(redir: Option<Redirect>) {
    redir.Some? && !redir.value.opens
  }

  /** Running the calls for a redirect file, with `rest` still to come. */
  lemma FinishFile(fds: FdTable, file: nat, redir: Option<Redirect>, to: nat, rest: seq<Call>) returns (file': nat)
    requires StandardOpen(fds) && to < 3
    ensures Finish(Child(fds, file, FileCalls(redir, to) + rest, false)) ==
            if CannotOpen(redir) then DEAD
            else Finish(Child(fds[to := Wired(None, redir, fds[to]).value], file', rest, false))
  {
    hide LowestFree, Finish;
    FinishDone(DEAD);
    var c := Child(fds, file, FileCalls(redir, to) + rest, false);
    file' := file;
    if redir.None? {
      assert FileCalls(redir, to) + rest == rest && fds[to := fds[to]] == fds;
    } else {
      var r := redir.value;
      assert c.todo[1..] == [DupFile(to), Fclose] + rest;
      FinishAfterStep(c);
      if r.opens {
        var fd := LowestFree(fds);
        file' := fd;
        var c1 := Child(fds[fd := File(r.path)], fd, [DupFile(to), Fclose] + rest, false);
        FinishAfterStep(c1);
        assert c1.todo[1..] == [Fclose] + rest;
        var c2 := Child(c1.fds[to := File(r.path)], fd, [Fclose] + rest, false);
        FinishAfterStep(c2);
        assert c2.todo[1..] == rest;
        assert c2.fds - {fd} == fds[to := File(r.path)];
      }
    }
  }

  lemma FinishInputPipe(fds: FdTable, file: nat, stage: Stage, fd: nat, rest: seq<Call>)
    requires fd > 2 && fd in fds
    ensures Finish(Child(fds, file, InputCalls(stage, Some(fd)) + rest, false)) ==
            Finish(Child(fds[0 := fds[fd]] - {fd}, file, rest, false))
  {
    var c := Child(fds, file, InputCalls(stage, Some(fd)) + rest, false);
    assert c.todo[1..] == [Close(fd)] + rest;
    var c1 := Child(fds[0 := fds[fd]], file, [Close(fd)] + rest, false);
    FinishAfterStep(c);
    FinishAfterStep(c1);
    assert c1.todo[1..] == rest;
  }

  lemma FinishOutputPipe(fds: FdTable, file: nat, stage: Stage, r: nat, w: nat, rest: seq<Call>)
    requires r > 2 && w > 2 && r in fds && w in fds
    ensures Finish(Child(fds, file, OutputCalls(stage, Some((r, w))) + rest, false)) ==
            Finish(Child(fds[1 := fds[w]] - {r, w}, file, rest, false))
  {
    hide Finish, LowestFree;
    var c := Child(fds, file, OutputCalls(stage, Some((r, w))) + rest, false);
    assert c.todo[1..] == [Close(r), Close(w)] + rest;
    var c1 := Child(fds[1 := fds[w]], file, [Close(r), Close(w)] + rest, false);
    FinishAfterStep(c);
    assert c1.todo[1..] == [Close(w)] + rest;
    var c2 := Child(c1.fds - {r}, file, [Close(w)] + rest, false);
    FinishAfterStep(c1);
    assert c2.todo[1..] == rest;
    FinishAfterStep(c2);
    assert c2.fds - {w} == fds[1 := fds[w]] - {r, w};
  }

  /** The parent's table while a stage is set up: the one at entry, the read end kept from the previous
      stage, and both ends of the stage's own pipe. */
  function ParentTable(entry: FdTable, prev: Option<(nat, End)>, pipe: Option<(nat, nat, nat)>): FdTable {
    var t := match prev case None => entry case Some((fd, e)) => entry[fd := e];
    match pipe case None => t case Some((r, w, k)) => t[r := PipeRead(k)][w := PipeWrite(k)]
  }

  /** The extra descriptors are new ones. */
  predicate Extra(entry: FdTable, prev: Option<(nat, End)>, pipe: Option<(nat, nat, nat)>) {
    && StandardOpen(entry)
    && (prev.Some? ==> prev.value.0 !in entry)
    && (pipe.Some? ==>
          var (r, w, _) := pipe.value;
          r !in entry && w !in entry && r != w && (prev.Some? ==> prev.value.0 != r && prev.value.0 != w))
  }

  function FdOf(prev: Option<(nat, End)>): Option<nat> {
    match prev case None => None case Some((fd, _)) => Some(fd)
  }

  function FdsOf(pipe: Option<(nat, nat, nat)>): Option<(nat, nat)> {
    match pipe case None => None case Some((r, w, _)) => Some((r, w))
  }

  function ReadEnd(prev: Option<(nat, End)>): Option<End> {
    match prev case None => None case Some((_, e)) => Some(e)
  }

  function WriteEnd(pipe: Option<(nat, nat, nat)>): Option<End> {
    match pipe case None => None case Some((_, _, k)) => Some(PipeWrite(k))
  }

  lemma WiresInput(entry: FdTable, stage: Stage, prev: Option<(nat, End)>, pipe: Option<(nat, nat, nat)>, rest: seq<Call>)
    returns (file: nat)
    requires Extra(entry, prev, pipe)
    ensures var c := Child(ParentTable(entry, prev, pipe), 0, InputCalls(stage, FdOf(prev)) + rest, false);
            var wired := Wired(ReadEnd(prev), stage.stdin, entry[0]);
            Finish(c) == if wired.None? then DEAD
                         else Finish(Child(ParentTable(entry[0 := wired.value], None, pipe), file, rest, false))
  {
    hide Finish, LowestFree;
    var t := ParentTable(entry, prev, pipe);
    if prev.Some? {
      var (fd, e) := prev.value;
      file := 0;
      FinishInputPipe(t, 0, stage, fd, rest);
      assert t[0 := e] - {fd} == ParentTable(entry[0 := e], None, pipe);
    } else {
      file := FinishFile(t, 0, stage.stdin, 0, rest);
      var wired := Wired(None, stage.stdin, entry[0]);
      if wired.Some? {
        assert t[0 := wired.value] == ParentTable(entry[0 := wired.value], None, pipe);
      }
    }
  }

  lemma WiresOutput(entry: FdTable, stage: Stage, pipe: Option<(nat, nat, nat)>, file: nat, rest: seq<Call>)
    returns (file': nat)
    requires Extra(entry, None, pipe)
    ensures var c := Child(ParentTable(entry, None, pipe), file, OutputCalls(stage, FdsOf(pipe)) + rest, false);
            var wired := Wired(WriteEnd(pipe), stage.stdout, entry[1]);
            Finish(c) == if wired.None? then DEAD
                         else Finish(Child(entry[1 := wired.value], file', rest, false))
  {
    var t := ParentTable(entry, None, pipe);
    if pipe.Some? {
      var (r, w, k) := pipe.value;
      file' := file;
      FinishOutputPipe(t, file, stage, r, w, rest);
      assert t[1 := PipeWrite(k)] - {r, w} == entry[1 := PipeWrite(k)];
    } else {
      file' := FinishFile(t, file, stage.stdout, 1, rest);
    }
  }

  /** The set-up calls turn the forked table into the wanted one: all extra descriptors are closed and
      the standard ones replaced. */
  lemma SetupWires(entry: FdTable, stage: Stage, prev: Option<(nat, End)>, pipe: Option<(nat, nat, nat)>)
    requires Extra(entry, prev, pipe)
    ensures EndsAs(Child(ParentTable(entry, prev, pipe), 0, SetupCalls(stage, FdOf(prev), FdsOf(pipe)), false),
                   WiredTable(entry, stage, ReadEnd(prev), WriteEnd(pipe)))
  {
    hide Finish, InputCalls, OutputCalls, FileCalls, ParentTable;
    var ins, outs, errs := InputCalls(stage, FdOf(prev)), OutputCalls(stage, FdsOf(pipe)), FileCalls(stage.stderr, 2);
    assert SetupCalls(stage, FdOf(prev), FdsOf(pipe)) == ins + (outs + errs) && errs + [] == errs;
    var file := WiresInput(entry, stage, prev, pipe, outs + errs);
    var a := Wired(ReadEnd(prev), stage.stdin, entry[0]);
    if a.Some? {
      var t := entry[0 := a.value];
      file := WiresOutput(t, stage, pipe, file, errs);
      var b := Wired(WriteEnd(pipe), stage.stdout, entry[1]);
      if b.Some? {
        var t2 := t[1 := b.value];
        file := FinishFile(t2, file, stage.stderr, 2, []);
        if !CannotOpen(stage.stderr) {
          FinishDone(Child(t2[2 := Wired(None, stage.stderr, entry[2]).value], file, [], false));
        }
      }
    }
  }

  // ---- The parent ----

  /** The stages before `i` that run, in order: one child each. */
  function RunningStages(stages: seq<Stage>, i: nat): (r: seq<nat>)
    requires i <= |stages|
    ensures |r| == Running(stages, i) <= i
    ensures forall j | 0 <= j < |r| :: r[j] < i && Runs(stages, r[j])
  {
    if i == 0 then [] else RunningStages(stages, i - 1) + if Runs(stages, i - 1) then [i - 1] else []
  }

  /** The read end the parent keeps when it comes to stage `i`. The last stage makes no pipe. */
  function Held(stages: seq<Stage>, base: nat, i: nat): Option<End> {
    match Previous(stages, i)
    case None => None
    case Some(p) => if p + 1 < |stages| then Some(PipeRead(PipeOf(stages, base, p))) else None
  }

  /** After the `older` children there is one for each running stage before `i`, on its way to its wiring. */
  ghost predicate ChildrenWired(children: seq<Child>, older: nat, entry: FdTable, stages: seq<Stage>, base: nat, i: nat)
    requires i <= |stages| && StandardOpen(entry)
  {
    var who := RunningStages(stages, i);
    && |children| == older + |who|
    && forall j | 0 <= j < |who| :: EndsAs(children[older + j], Wiring(entry, stages, base, who[j]))
  }

  /** The children that there were are still on their way to the same end. */
  ghost predicate GoOn(before: seq<Child>, now: seq<Child>) {
    |before| <= |now| && forall j | 0 <= j < |before| :: Finish(now[j]) == Finish(before[j])
  }

  class Kernel {
    var fds: FdTable
    var children: seq<Child>
    var nextPipe: nat

    constructor (fds: FdTable, nextPipe: nat)
      ensures this.fds == fds && this.nextPipe == nextPipe && children == []
    {
      this.fds, this.nextPipe, this.children := fds, nextPipe, [];
    }

    /** pipe(): the two lowest free descriptors. */
    method Pipe() returns (r: nat, w: nat)
      modifies `fds, `nextPipe
      ensures r == LowestFree(old(fds)) && w == LowestFree(old(fds)[r := PipeRead(old(nextPipe))])
      ensures fds == old(fds)[r := PipeRead(old(nextPipe))][w := PipeWrite(old(nextPipe))]
      ensures nextPipe == old(nextPipe) + 1
    {
      r := LowestFree(fds);
      fds := fds[r := PipeRead(nextPipe)];
      w := LowestFree(fds);
      fds := fds[w := PipeWrite(nextPipe)];
      nextPipe := nextPipe + 1;
    }

    /** fork(): the child gets a copy of the table and its own set-up calls to make. */
    method Fork(calls: seq<Call>) returns (pid: nat)
      modifies `children
      ensures pid == |old(children)| && children == old(children) + [Child(fds, 0, calls, false)]
    {
      pid := |children|;
      children := children + [Child(fds, 0, calls, false)];
    }

    method CloseFd(fd: nat)
      modifies `fds
      ensures fds == old(fds) - {fd}
    {
      fds := fds - {fd};
    }

    /** Any run of child steps: `order` names the child that moves next. */
    method Interleave(order: seq<nat>)
      modifies `children
      ensures |children| == |old(children)| && GoOn(old(children), children)
    {
      var n := 0;
      while n < |order|
        invariant |children| == |old(children)|
        invariant forall j | 0 <= j < |children| :: Finish(children[j]) == Finish(old(children)[j])
      {
        if order[n] < |children| {
          FinishAfterStep(children[order[n]]);
          children := children[order[n] := ChildStep(children[order[n]])];
        }
        n := n + 1;
      }
    }
  }

  /** How a call of execute_pipeline ends; `at` is the stage whose pipe or fork failed. */
  datatype Outcome = Nothing | Builtin | PipeFailed(at: nat) | ForkFailed(at: nat) | Spawned

  /** How many descriptors more the parent comes back with: the read end of the last pipe, if the stage that
      should read it does not come to run, and both ends of a pipe made for a stage that is not forked. */
  function Left(stages: seq<Stage>, outcome: Outcome): nat {
    match outcome
    case Nothing => 0
    case Builtin => 0
    case PipeFailed(at) => if Previous(stages, at).Some? then 1 else 0
    case ForkFailed(at) => (if Previous(stages, at).Some? then 1 else 0) + if at + 1 < |stages| then 2 else 0
    case Spawned => if Previous(stages, |stages|).Some? && !Runs(stages, |stages| - 1) then 1 else 0
  }

  predicate Leaks(stages: seq<Stage>, outcome: Outcome) {
    Left(stages, outcome) > 0
  }

  /** The table has the descriptors at entry, as they were, and `n` more, which are ends of pipes numbered from
      `base` up to `next`. */
  ghost predicate Grown(entry: FdTable, fds: FdTable, n: nat, base: nat, next: nat) {
    && base <= next
    && entry.Keys <= fds.Keys && (forall fd | fd in entry :: fds[fd] == entry[fd])
    && |fds.Keys| == |entry.Keys| + n
    && forall fd | fd in fds && fd !in entry :: (fds[fd].PipeRead? || fds[fd].PipeWrite?) && base <= fds[fd].k < next
  }

  lemma GrownByNone(entry: FdTable, fds: FdTable, n: nat, base: nat, next: nat)
    requires Grown(entry, fds, n, base, next)
    ensures fds == entry <==> n == 0
  {
    assert fds.Keys == entry.Keys + (fds.Keys - entry.Keys);
    assert |fds.Keys| == |entry.Keys| + |fds.Keys - entry.Keys|;
    if n == 0 {
      assert fds.Keys == entry.Keys;
    }
  }

  lemma GrownTwice(a: FdTable, b: FdTable, c: FdTable, n: nat, m: nat, base: nat, mid: nat, next: nat)
    requires Grown(a, b, n, base, mid) && Grown(b, c, m, mid, next)
    ensures Grown(a, c, n + m, base, next)
  {
    forall fd | fd in a ensures c[fd] == a[fd] {
      assert b[fd] == a[fd];
    }
  }

  lemma OneKeyMore(t: FdTable, fd: nat, e: End)
    requires fd !in t
    ensures |t[fd := e].Keys| == |t.Keys| + 1
  {
    assert t[fd := e].Keys == t.Keys + {fd};
  }

  /** The stages whose children exist at the end. */
  function Reached(stages: seq<Stage>, outcome: Outcome): nat {
    match outcome
    case Nothing => 0
    case Builtin => 0
    case PipeFailed(at) => at
    case ForkFailed(at) => at
    case Spawned => |stages|
  }

  /** Neither of the stage's system calls fails. */
  ghost predicate StageOk(stages: seq<Stage>, pipeOk: nat -> bool, forkOk: nat -> bool, j: nat) {
    Runs(stages, j) ==> forkOk(j) && (j + 1 < |stages| ==> pipeOk(j))
  }

  ghost predicate AllOk(stages: seq<Stage>, pipeOk: nat -> bool, forkOk: nat -> bool, i: nat) {
    forall j | 0 <= j < i :: StageOk(stages, pipeOk, forkOk, j)
  }

  /** The run stops at the first stage with a failing call, and spawns every stage if there is none. */
  ghost predicate FirstFailure(stages: seq<Stage>, pipeOk: nat -> bool, forkOk: nat -> bool, outcome: Outcome) {
    match outcome
    case Spawned => AllOk(stages, pipeOk, forkOk, |stages|)
    case PipeFailed(at) => AllOk(stages, pipeOk, forkOk, at) && Runs(stages, at) && at + 1 < |stages| && !pipeOk(at)
    case ForkFailed(at) =>
      AllOk(stages, pipeOk, forkOk, at) && Runs(stages, at) && !forkOk(at) && (at + 1 < |stages| ==> pipeOk(at))
    case _ => true
  }

  function Kept(prevFd: Option<nat>, held: Option<End>): Option<(nat, End)> {
    if prevFd.Some? && held.Some? then Some((prevFd.value, held.value)) else None
  }

  /** Between stages the parent holds its table at entry and at most one pipe descriptor more. */
  ghost predicate BetweenStages(fds: FdTable, entry: FdTable, stages: seq<Stage>, base: nat, i: nat, prevFd: Option<nat>) {
    && StandardOpen(entry)
    && (prevFd.Some? <==> Held(stages, base, i).Some?)
    && (prevFd.Some? ==> prevFd.value !in entry)
    && fds == ParentTable(entry, Kept(prevFd, Held(stages, base, i)), None)
  }

  lemma SkippedStage(fds: FdTable, children: seq<Child>, older: nat, entry: FdTable, stages: seq<Stage>, base: nat,
                     i: nat, prevFd: Option<nat>)
    requires i < |stages| && !Runs(stages, i) && BetweenStages(fds, entry, stages, base, i, prevFd)
    requires ChildrenWired(children, older, entry, stages, base, i)
    ensures BetweenStages(fds, entry, stages, base, i + 1, prevFd)
    ensures ChildrenWired(children, older, entry, stages, base, i + 1)
    ensures Made(stages, i + 1) == Made(stages, i)
  {
    assert Held(stages, base, i + 1) == Held(stages, base, i);
    assert RunningStages(stages, i + 1) == RunningStages(stages, i);
  }

  /** The pipes made when the parent comes to stage `i`: none for the last. */
  function Made(stages: seq<Stage>, i: nat): nat {
    Running(stages, if i == |stages| && i > 0 then i - 1 else i)
  }

  ghost predicate NewEnd(e: End, base: nat, next: nat) {
    (e.PipeRead? || e.PipeWrite?) && base <= e.k < next
  }

  lemma HeldIsNew(stages: seq<Stage>, base: nat, i: nat)
    requires i <= |stages| && Held(stages, base, i).Some?
    ensures NewEnd(Held(stages, base, i).value, base, base + Made(stages, i))
  {
    RunningGrows(stages, Previous(stages, i).value, if i == |stages| then i - 1 else i);
  }

  /** The extra descriptors counted. */
  lemma ParentGrown(entry: FdTable, prev: Option<(nat, End)>, pipe: Option<(nat, nat, nat)>, base: nat, next: nat)
    requires Extra(entry, prev, pipe) && base <= next
    requires (prev.Some? ==> NewEnd(prev.value.1, base, next)) && (pipe.Some? ==> base <= pipe.value.2 < next)
    ensures Grown(entry, ParentTable(entry, prev, pipe),
                  (if prev.Some? then 1 else 0) + (if pipe.Some? then 2 else 0), base, next)
  {
    var t := entry;
    if prev.Some? {
      OneKeyMore(entry, prev.value.0, prev.value.1);
      t := entry[prev.value.0 := prev.value.1];
    }
    if pipe.Some? {
      var (r, w, k) := pipe.value;
      OneKeyMore(t, r, PipeRead(k));
      OneKeyMore(t[r := PipeRead(k)], w, PipeWrite(k));
    }
  }

  /** What the parent has when a call for stage `i` fails. */
  lemma LeftAtFailure(entry: FdTable, stages: seq<Stage>, base: nat, i: nat, prev: Option<(nat, End)>,
                      pipe: Option<(nat, nat, nat)>)
    requires Runs(stages, i) && Extra(entry, prev, pipe) && ReadEnd(prev) == Held(stages, base, i)
    requires pipe.Some? ==> i + 1 < |stages| && pipe.value.2 == base + Running(stages, i)
    ensures var outcome := if pipe.None? && i + 1 < |stages| then PipeFailed(i) else ForkFailed(i);
            Grown(entry, ParentTable(entry, prev, pipe), Left(stages, outcome), base,
                  base + Running(stages, i) + if pipe.Some? then 1 else 0)
  {
    hide ParentTable, Grown, Running;
    if prev.Some? {
      HeldIsNew(stages, base, i);
    }
    ParentGrown(entry, prev, pipe, base, base + Running(stages, i) + if pipe.Some? then 1 else 0);
  }

  lemma HeldIsInput(stages: seq<Stage>, base: nat, i: nat)
    requires i < |stages|
    ensures Held(stages, base, i) == InputEnd(stages, base, i)
  {
  }

  /** Closing the two descriptors leaves the own pipe's read end. */
  lemma ClosedUp(entry: FdTable, prev: Option<(nat, End)>, pipe: Option<(nat, nat, nat)>)
    requires Extra(entry, prev, pipe)
    ensures var t := ParentTable(entry, prev, pipe);
            var t' := if prev.Some? then t - {prev.value.0} else t;
            var kept := if pipe.Some? then Some((pipe.value.0, PipeRead(pipe.value.2))) else None;
            (if pipe.Some? then t' - {pipe.value.1} else t') == ParentTable(entry, kept, None)
  {
  }

  /** One child more, for the stage just spawned. */
  lemma ChildAdded(children: seq<Child>, children': seq<Child>, older: nat, c: Child, entry: FdTable,
                   stages: seq<Stage>, base: nat, i: nat)
    requires StandardOpen(entry) && Runs(stages, i) && ChildrenWired(children, older, entry, stages, base, i)
    requires EndsAs(c, Wiring(entry, stages, base, i))
    requires |children'| == |children| + 1 && GoOn(children + [c], children')
    ensures ChildrenWired(children', older, entry, stages, base, i + 1)
  {
    var who, who' := RunningStages(stages, i), RunningStages(stages, i + 1);
    assert who' == who + [i];
    forall j | 0 <= j < |who'| ensures EndsAs(children'[older + j], Wiring(entry, stages, base, who'[j])) {
      assert Finish(children'[older + j]) == Finish((children + [c])[older + j]);
      if j < |who| {
        assert EndsAs(children[older + j], Wiring(entry, stages, base, who[j]));
      }
    }
  }

  lemma StillWired(children: seq<Child>, children': seq<Child>, older: nat, entry: FdTable, stages: seq<Stage>,
                   base: nat, i: nat)
    requires i <= |stages| && StandardOpen(entry) && ChildrenWired(children, older, entry, stages, base, i)
    requires |children'| == |children| && GoOn(children, children')
    ensures ChildrenWired(children', older, entry, stages, base, i)
  {
    var who := RunningStages(stages, i);
    forall j | 0 <= j < |who| ensures EndsAs(children'[older + j], Wiring(entry, stages, base, who[j])) {
      assert EndsAs(children[older + j], Wiring(entry, stages, base, who[j]));
    }
  }

  /** fork and the children's steps around it. */
  method SpawnChild(k: Kernel, stages: seq<Stage>, i: nat, prevFd: Option<nat>, pipefd: Option<(nat, nat)>,
                    order': seq<nat>, ghost older: nat, ghost entry: FdTable, ghost base: nat,
                    ghost prev: Option<(nat, End)>, ghost pipe: Option<(nat, nat, nat)>)
    requires Runs(stages, i) && Extra(entry, prev, pipe) && k.fds == ParentTable(entry, prev, pipe)
    requires FdOf(prev) == prevFd && FdsOf(pipe) == pipefd
    requires ReadEnd(prev) == InputEnd(stages, base, i) && WriteEnd(pipe) == OutputEnd(stages, base, i)
    requires ChildrenWired(k.children, older, entry, stages, base, i)
    modifies k`children
    ensures |k.children| == |old(k.children)| + 1
    ensures GoOn(old(k.children), k.children) && ChildrenWired(k.children, older, entry, stages, base, i + 1)
  {
    hide Finish, WiredTable, SetupCalls, ParentTable, InputEnd, OutputEnd, RunningStages, EndsAs;
    SetupWires(entry, stages[i], prev, pipe);
    ghost var before := k.children;
    var calls := SetupCalls(stages[i], prevFd, pipefd);
    var pid := k.Fork(calls);
    k.Interleave(order');
    ChildAdded(before, k.children, older, Child(k.fds, 0, calls, false), entry, stages, base, i);
  }

  /** The body of the stage loop for a stage that runs. `order` are the children's steps in between. */
  method SpawnStage(k: Kernel, stages: seq<Stage>, i: nat, prevFd: Option<nat>, pipeOk: bool, forkOk: bool,
                    order: seq<nat>, order': seq<nat>, ghost older: nat, ghost entry: FdTable, ghost base: nat)
    returns (failed: Option<Outcome>, prevFd': Option<nat>)
    requires Runs(stages, i) && BetweenStages(k.fds, entry, stages, base, i, prevFd)
    requires k.nextPipe == base + Made(stages, i) && ChildrenWired(k.children, older, entry, stages, base, i)
    modifies k
    ensures failed == if i + 1 < |stages| && !pipeOk then Some(PipeFailed(i))
                      else if !forkOk then Some(ForkFailed(i)) else None
    ensures GoOn(old(k.children), k.children)
    ensures failed.Some? ==> ChildrenWired(k.children, older, entry, stages, base, i)
    ensures failed.Some? ==> Grown(entry, k.fds, Left(stages, failed.value), base, k.nextPipe)
    ensures failed.None? ==>
              && |k.children| == |old(k.children)| + 1
              && ChildrenWired(k.children, older, entry, stages, base, i + 1)
              && BetweenStages(k.fds, entry, stages, base, i + 1, prevFd')
              && k.nextPipe == base + Made(stages, i + 1)
  {
    hide Finish, SetupCalls, Grown, ChildrenWired, InputEnd, Left;
    ghost var prev := Kept(prevFd, Held(stages, base, i));
    failed, prevFd' := None, None;
    var pipefd: Option<(nat, nat)> := None;
    ghost var pipe: Option<(nat, nat, nat)> := None;
    if i < |stages| - 1 {
      if !pipeOk {
        LeftAtFailure(entry, stages, base, i, prev, None);
        return Some(PipeFailed(i)), None;
      }
      var r, w := k.Pipe();
      pipefd, pipe := Some((r, w)), Some((r, w, base + Running(stages, i)));
    }
    ghost var before := k.children;
    k.Interleave(order);
    StillWired(before, k.children, older, entry, stages, base, i);
    if !forkOk {
      LeftAtFailure(entry, stages, base, i, prev, pipe);
      return Some(ForkFailed(i)), None;
    }
    HeldIsInput(stages, base, i);
    SpawnChild(k, stages, i, prevFd, pipefd, order', older, entry, base, prev, pipe);
    ClosedUp(entry, prev, pipe);
    if prevFd.Some? {
      k.CloseFd(prevFd.value);
    }
    if pipefd.Some? {
      k.CloseFd(pipefd.value.1);
      prevFd' := Some(pipefd.value.0);
    }
  }

  lemma AtStart(entry: FdTable, stages: seq<Stage>, base: nat, children: seq<Child>)
    requires StandardOpen(entry)
    ensures BetweenStages(entry, entry, stages, base, 0, None)
    ensures ChildrenWired(children, |children|, entry, stages, base, 0)
  {
  }

  lemma GoOnTwice(a: seq<Child>, b: seq<Child>, c: seq<Child>)
    requires GoOn(a, b) && GoOn(b, c)
    ensures GoOn(a, c)
  {
    forall j | 0 <= j < |a| ensures Finish(c[j]) == Finish(a[j]) {
      assert Finish(c[j]) == Finish(b[j]);
    }
  }

  /** The loop over the stages. */
  method RunStages(k: Kernel, stages: seq<Stage>, pipeOk: nat -> bool, forkOk: nat -> bool, order: nat -> seq<nat>)
    returns (outcome: Outcome)
    requires |stages| <= MAX_PIPE_SEGMENTS && StandardOpen(k.fds)
    modifies k
    ensures outcome.PipeFailed? || outcome.ForkFailed? || outcome.Spawned?
    ensures Grown(old(k.fds), k.fds, Left(stages, outcome), old(k.nextPipe), k.nextPipe)
    ensures Reached(stages, outcome) <= |stages| && GoOn(old(k.children), k.children)
    ensures ChildrenWired(k.children, |old(k.children)|, old(k.fds), stages, old(k.nextPipe), Reached(stages, outcome))
    ensures FirstFailure(stages, pipeOk, forkOk, outcome)
  {
    hide Wiring, EndsAs, Grown, Previous, Held, GoOn, ChildrenWired, BetweenStages, Left, RunningStages, Running, Made, AllOk;
    ghost var entry, base, before, older := k.fds, k.nextPipe, k.children, |k.children|;
    var prevFd: Option<nat> := None;
    var pids, pidCount := new nat[MAX_PIPE_SEGMENTS], 0;
    var i := 0;
    AtStart(entry, stages, base, before);
    NoStageYet(stages, pipeOk, forkOk, before);
    while i < |stages|
      invariant 0 <= i <= |stages| && pidCount == Running(stages, i) <= i
      invariant BetweenStages(k.fds, entry, stages, base, i, prevFd) && GoOn(before, k.children)
      invariant ChildrenWired(k.children, older, entry, stages, base, i)
      invariant k.nextPipe == base + Made(stages, i)
      invariant AllOk(stages, pipeOk, forkOk, i)
    {
      NextStage(stages, pipeOk, forkOk, i);
      if stages[i].words == 0 {
        SkippedStage(k.fds, k.children, older, entry, stages, base, i, prevFd);
      } else {
        ghost var now := k.children;
        var failed;
        failed, prevFd := SpawnStage(k, stages, i, prevFd, pipeOk(i), forkOk(i), order(2 * i), order(2 * i + 1),
                                     older, entry, base);
        GoOnTwice(before, now, k.children);
        if failed.Some? {
          return failed.value;
        }
        pids[pidCount] := |k.children| - 1;
        pidCount := pidCount + 1;
      }
      i := i + 1;
    }
    LeftOpen(k.fds, entry, stages, base, prevFd);
    return Spawned;
  }

  lemma NoStageYet(stages: seq<Stage>, pipeOk: nat -> bool, forkOk: nat -> bool, children: seq<Child>)
    ensures Running(stages, 0) == Made(stages, 0) == 0 && AllOk(stages, pipeOk, forkOk, 0) && GoOn(children, children)
  {
  }

  lemma NextStage(stages: seq<Stage>, pipeOk: nat -> bool, forkOk: nat -> bool, i: nat)
    requires i < |stages|
    ensures Running(stages, i + 1) == Running(stages, i) + if Runs(stages, i) then 1 else 0
    ensures AllOk(stages, pipeOk, forkOk, i) && StageOk(stages, pipeOk, forkOk, i) ==> AllOk(stages, pipeOk, forkOk, i + 1)
  {
  }

  /** execute_pipeline, for any pattern of failing pipe and fork calls and any interleaving: `order(n)` are
      the child steps before the parent's n-th pause. `isBuiltin` says whether a lone command is a
      builtin, which then runs in the parent. The caller's obligation is the size of the pid array.
      The parent's table comes back with what it had and the descriptors that are left open (see Left), every new
      child is on its way to what its stage asks, and the children of earlier lines go on to their ends. */
  method ExecutePipeline(k: Kernel, stages: seq<Stage>, isBuiltin: bool, pipeOk: nat -> bool, forkOk: nat -> bool,
                         order: nat -> seq<nat>) returns (outcome: Outcome)
    requires |stages| <= MAX_PIPE_SEGMENTS && StandardOpen(k.fds)
    modifies k
    ensures Grown(old(k.fds), k.fds, Left(stages, outcome), old(k.nextPipe), k.nextPipe)
    ensures k.fds == old(k.fds) <==> !Leaks(stages, outcome)
    ensures Reached(stages, outcome) <= |stages| && GoOn(old(k.children), k.children)
    ensures ChildrenWired(k.children, |old(k.children)|, old(k.fds), stages, old(k.nextPipe), Reached(stages, outcome))
    ensures AllAsAsked(k.children, |old(k.children)|, old(k.fds), stages, old(k.nextPipe), Reached(stages, outcome))
    ensures outcome == Nothing <==> |stages| == 0 || (|stages| == 1 && stages[0].words == 0)
    ensures outcome == Builtin <==> |stages| == 1 && stages[0].words > 0 && isBuiltin
    ensures FirstFailure(stages, pipeOk, forkOk, outcome)
  {
    hide Finish, Wiring, EndsAs, Previous, RunningStages, AsAsked;
    outcome := Nothing;
    if |stages| == 0 || (|stages| == 1 && stages[0].words == 0) {
      AtStart(k.fds, stages, k.nextPipe, k.children);
      return;
    }
    if |stages| == 1 && isBuiltin {
      AtStart(k.fds, stages, k.nextPipe, k.children);
      return Builtin;
    }
    outcome := RunStages(k, stages, pipeOk, forkOk, order);
    AsTheyAsked(k.children, |old(k.children)|, old(k.fds), stages, old(k.nextPipe), Reached(stages, outcome));
    GrownByNone(old(k.fds), k.fds, Left(stages, outcome), old(k.nextPipe), k.nextPipe);
  }

  /** After all stages are spawned one descriptor is left just when the last stage has no words and an earlier one
      has. */
  lemma LeftOpen(fds: FdTable, entry: FdTable, stages: seq<Stage>, base: nat, prevFd: Option<nat>)
    requires BetweenStages(fds, entry, stages, base, |stages|, prevFd)
    ensures Grown(entry, fds, Left(stages, Spawned), base, base + Made(stages, |stages|))
  {
    hide Grown, ParentTable;
    var held := Held(stages, base, |stages|);
    if held.Some? {
      HeldIsNew(stages, base, |stages|);
    }
    ParentGrown(entry, Kept(prevFd, held), None, base, base + Made(stages, |stages|));
  }

  // ---- What each child runs with ----

  /** The child of a stage once it has made its calls. It exits just when a redirect that it uses does not open: its
      input file is used if no earlier stage runs, its output file if it is the last stage, its error file always.
      Otherwise descriptor 2 is its error file, descriptors 0 and 1 are its files or else ends of new pipes, and
      everything else is as at entry. */
  ghost predicate AsAsked(f: Child, entry: FdTable, stages: seq<Stage>, base: nat, i: nat)
    requires i < |stages| && StandardOpen(entry)
  {
    var s := stages[i];
    var first, last := forall j | 0 <= j < i :: stages[j].words == 0, i + 1 == |stages|;
    && (f.exited <==> (first && s.stdin.Some? && !s.stdin.value.opens)
                      || (last && s.stdout.Some? && !s.stdout.value.opens)
                      || (s.stderr.Some? && !s.stderr.value.opens))
    && (f.exited ==> f.fds == map[])
    && (!f.exited ==>
          && f.fds.Keys == entry.Keys && (forall fd | fd in entry && fd > 2 :: f.fds[fd] == entry[fd])
          && f.fds[2] == (if s.stderr.Some? then File(s.stderr.value.path) else entry[2])
          && (first ==> f.fds[0] == if s.stdin.Some? then File(s.stdin.value.path) else entry[0])
          && (!first ==> f.fds[0].PipeRead? && f.fds[0].k >= base)
          && (last ==> f.fds[1] == if s.stdout.Some? then File(s.stdout.value.path) else entry[1])
          && (!last ==> f.fds[1].PipeWrite? && f.fds[1].k >= base))
  }

  lemma StageAsAsked(c: Child, entry: FdTable, stages: seq<Stage>, base: nat, i: nat)
    requires StandardOpen(entry) && i < |stages| && EndsAs(c, Wiring(entry, stages, base, i))
    ensures AsAsked(Finish(c), entry, stages, base, i)
  {
    hide Finish, Running, Previous;
    NoneEarlier(stages, i);
  }

  lemma NoneEarlier(stages: seq<Stage>, i: nat)
    requires i <= |stages|
    ensures Previous(stages, i).None? <==> forall j | 0 <= j < i :: stages[j].words == 0
  {
    if Previous(stages, i).Some? {
      assert stages[Previous(stages, i).value].words > 0;
    } else {
      forall j | 0 <= j < i ensures stages[j].words == 0 {
        assert !Runs(stages, j);
      }
    }
  }

  lemma {:induction false} RunningAt(stages: seq<Stage>, n: nat, i: nat)
    requires n <= |stages| && i < n && Runs(stages, i)
    ensures Running(stages, i) < |RunningStages(stages, n)| && RunningStages(stages, n)[Running(stages, i)] == i
  {
    if i < n - 1 {
      RunningAt(stages, n - 1, i);
    } else {
      assert |RunningStages(stages, i)| == Running(stages, i);
    }
  }

  lemma {:induction false} RunningCounts(stages: seq<Stage>, i: nat)
    requires i <= |stages|
    ensures Running(stages, i) == |set j | 0 <= j < i && stages[j].words > 0|
  {
    if i > 0 {
      RunningCounts(stages, i - 1);
      var front := set j | 0 <= j < i - 1 && stages[j].words > 0;
      var all := set j | 0 <= j < i && stages[j].words > 0;
      assert all == if stages[i - 1].words > 0 then front + {i - 1} else front;
    }
  }

  /** Of the new children there is one for each stage with words that was reached, in the order of the stages, and
      it ends as its stage asks. */
  lemma ChildAsAsked(children: seq<Child>, older: nat, entry: FdTable, stages: seq<Stage>, base: nat, n: nat, i: nat)
    requires n <= |stages| && StandardOpen(entry) && ChildrenWired(children, older, entry, stages, base, n)
    requires i < n && stages[i].words > 0
    ensures |children| == older + |set j | 0 <= j < n && stages[j].words > 0|
    ensures var k := older + |set j | 0 <= j < i && stages[j].words > 0|;
            k < |children| && AsAsked(Finish(children[k]), entry, stages, base, i)
  {
    hide AsAsked, EndsAs, Wiring, Running, RunningStages;
    RunningCounts(stages, n);
    RunningCounts(stages, i);
    RunningAt(stages, n, i);
    var k := Running(stages, i);
    assert EndsAs(children[older + k], Wiring(entry, stages, base, RunningStages(stages, n)[k]));
    StageAsAsked(children[older + k], entry, stages, base, i);
  }

  /** The same for all of them. */
  ghost predicate AllAsAsked(children: seq<Child>, older: nat, entry: FdTable, stages: seq<Stage>, base: nat, n: nat)
    requires n <= |stages| && StandardOpen(entry)
  {
    forall i | 0 <= i < n && stages[i].words > 0 ::
      older + Running(stages, i) < |children|
      && AsAsked(Finish(children[older + Running(stages, i)]), entry, stages, base, i)
  }

  lemma AsTheyAsked(children: seq<Child>, older: nat, entry: FdTable, stages: seq<Stage>, base: nat, n: nat)
    requires n <= |stages| && StandardOpen(entry) && ChildrenWired(children, older, entry, stages, base, n)
    ensures AllAsAsked(children, older, entry, stages, base, n)
  {
    hide AsAsked, ChildrenWired, Running;
    forall i | 0 <= i < n && stages[i].words > 0
      ensures older + Running(stages, i) < |children|
      ensures AsAsked(Finish(children[older + Running(stages, i)]), entry, stages, base, i)
    {
      ChildAsAsked(children, older, entry, stages, base, n, i);
      RunningCounts(stages, i);
    }
  }

  /** What is left open when a call fails: the previous pipe's read end, and both ends of the stage's own pipe once
      it is made. */
  lemma LeftAfterFailure(stages: seq<Stage>, at: nat)
    requires at < |stages|
    ensures var earlier := if exists j :: 0 <= j < at && stages[j].words > 0 then 1 else 0;
            && Left(stages, PipeFailed(at)) == earlier
            && Left(stages, ForkFailed(at)) == earlier + if at + 1 < |stages| then 2 else 0
  {
    hide Previous;
    NoneEarlier(stages, at);
  }

  // ---- Who holds the pipes ----

  /** A table with no end of a pipe numbered `base` or more. */
  ghost predicate NoNewPipes(t: FdTable, base: nat) {
    forall fd | fd in t :: (t[fd].PipeRead? || t[fd].PipeWrite? ==> t[fd].k < base)
  }

  /** What a line leaves open are no new pipes for the next. */
  lemma NoNewPipesKept(entry: FdTable, fds: FdTable, n: nat, base: nat, next: nat)
    requires NoNewPipes(entry, base) && Grown(entry, fds, n, base, next)
    ensures NoNewPipes(fds, next)
  {
    forall fd | fd in fds && (fds[fd].PipeRead? || fds[fd].PipeWrite?) ensures fds[fd].k < next {
      assert fd in entry ==> fds[fd] == entry[fd];
    }
  }

  lemma {:induction false} RunningGrows(stages: seq<Stage>, i: nat, j: nat)
    requires i < j && Runs(stages, i)
    ensures Running(stages, i) < Running(stages, j)
  {
    if j > i + 1 {
      RunningGrows(stages, i, j - 1);
    }
  }

  /** At exec a stage holds, of all the new pipes, its own write end as its output and the previous running
      stage's read end as its input, and nothing else. */
  lemma StageHolds(entry: FdTable, stages: seq<Stage>, base: nat, i: nat, fd: nat)
    requires StandardOpen(entry) && NoNewPipes(entry, base) && i < |stages|
    requires Wiring(entry, stages, base, i).Some? && fd in Wiring(entry, stages, base, i).value
    ensures var e := Wiring(entry, stages, base, i).value[fd];
            && ((e.PipeWrite? && e.k >= base) <==> (fd == 1 && i + 1 < |stages|))
            && ((e.PipeRead? && e.k >= base) <==> (fd == 0 && Previous(stages, i).Some?))
            && (fd == 1 && i + 1 < |stages| ==> e == PipeWrite(PipeOf(stages, base, i)))
            && (fd == 0 && Previous(stages, i).Some? ==> e == PipeRead(PipeOf(stages, base, Previous(stages, i).value)))
  {
  }

  /** Each pipe end has one holder: two children that hold the same end of a new pipe are the same child,
      and they hold it under the same descriptor. */
  lemma OneHolder(entry: FdTable, stages: seq<Stage>, base: nat, i: nat, fd: nat, j: nat, fd': nat)
    requires StandardOpen(entry) && NoNewPipes(entry, base) && Runs(stages, i) && Runs(stages, j)
    requires Wiring(entry, stages, base, i).Some? && fd in Wiring(entry, stages, base, i).value
    requires Wiring(entry, stages, base, j).Some? && fd' in Wiring(entry, stages, base, j).value
    requires var e := Wiring(entry, stages, base, i).value[fd];
             e == Wiring(entry, stages, base, j).value[fd'] && (e.PipeRead? || e.PipeWrite?) && e.k >= base
    ensures i == j && fd == fd'
  {
    StageHolds(entry, stages, base, i, fd);
    StageHolds(entry, stages, base, j, fd');
    if fd == 1 {
      SamePipe(stages, i, j);
    } else {
      var p, q := Previous(stages, i).value, Previous(stages, j).value;
      SamePipe(stages, p, q);
    }
  }

  lemma SamePipe(stages: seq<Stage>, i: nat, j: nat)
    requires Runs(stages, i) && Runs(stages, j) && Running(stages, i) == Running(stages, j)
    ensures i == j
  {
    if i < j {
      RunningGrows(stages, i, j);
    } else if j < i {
      RunningGrows(stages, j, i);
    }
  }

  /** The pipe between two neighbouring running stages connects them, whatever empty stages lie between. */
  lemma NeighboursConnected(entry: FdTable, stages: seq<Stage>, base: nat, j: nat)
    requires StandardOpen(entry) && Runs(stages, j) && Previous(stages, j).Some?
    requires var i := Previous(stages, j).value;
             Wiring(entry, stages, base, i).Some? && Wiring(entry, stages, base, j).Some?
    ensures var i := Previous(stages, j).value;
            exists k :: k >= base && Wiring(entry, stages, base, i).value[1] == PipeWrite(k)
                        && Wiring(entry, stages, base, j).value[0] == PipeRead(k)
  {
    var i := Previous(stages, j).value;
    assert Wiring(entry, stages, base, i).value[1] == PipeWrite(PipeOf(stages, base, i));
    assert Wiring(entry, stages, base, j).value[0] == PipeRead(PipeOf(stages, base, i));
  }
}
