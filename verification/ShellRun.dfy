/** shell/src/szshell.c: one turn of the main loop, from the line that was read to the stages that run. */
module ShellRun {
  import opened CHeap
  import opened CText
  import opened Expansion
  import opened Grammar
  import opened Lexer
  import opened ParseLine
  import Pipes
  import opened Quoting
  import opened ShellLimits
  import opened ShellLine
  import opened Wrappers

  // ---- From commands to stages ----

  /** `opens` says which files can be opened for each kind of redirect. */
  function RedirectOf(file: Option<string>, kind: Kind, opens: (Kind, string) -> bool): Option<Pipes.Redirect> {
    match file case None => None case Some(path) => Some(Pipes.Redirect(path, opens(kind, path)))
  }

  function StageOf(c: Cmd<string>, opens: (Kind, string) -> bool): Pipes.Stage {
    Pipes.Stage(|c.argv|, RedirectOf(c.stdin, In, opens), RedirectOf(c.stdout, Out, opens), RedirectOf(c.stderr, Err, opens))
  }

  /** The stages of a line, one for each of its commands. */
  function StagesOf(groups: seq<seq<Phrase>>, env: Env, opens: (Kind, string) -> bool): (r: seq<Pipes.Stage>)
    ensures |r| == |groups| && forall i | 0 <= i < |r| :: r[i] == StageOf(CmdOf(groups[i], env), opens)
  {
    seq(|groups|, i requires 0 <= i < |groups| => StageOf(CmdOf(groups[i], env), opens))
  }

  // ---- One turn of the main loop ----

  function HeapRedirect(cells: map<nat, string>, file: Option<nat>, kind: Kind, opens: (Kind, string) -> bool)
    : Option<Pipes.Redirect>
  {
    if file.None? || file.value !in cells then None
    else Some(Pipes.Redirect(cells[file.value], opens(kind, cells[file.value])))
  }

  /** The stage that execute_pipeline sees in a command on the heap. */
  function HeapStage(cells: map<nat, string>, c: Cmd<nat>, opens: (Kind, string) -> bool): Pipes.Stage {
    Pipes.Stage(|c.argv|, HeapRedirect(cells, c.stdin, In, opens), HeapRedirect(cells, c.stdout, Out, opens),
                HeapRedirect(cells, c.stderr, Err, opens))
  }

  function HeapStages(cells: map<nat, string>, cs: seq<Cmd<nat>>, opens: (Kind, string) -> bool): (r: seq<Pipes.Stage>)
    ensures |r| == |cs| && forall i | 0 <= i < |r| :: r[i] == HeapStage(cells, cs[i], opens)
  {
    seq(|cs|, i requires 0 <= i < |cs| => HeapStage(cells, cs[i], opens))
  }

  lemma StageDenoted(cells: map<nat, string>, owned: map<nat, string>, c: Cmd<nat>, spec: Cmd<string>, opens: (Kind, string) -> bool)
    requires Denotes(owned, c, spec) && forall q | q in owned :: q in cells && cells[q] == owned[q]
    ensures HeapStage(cells, c, opens) == StageOf(spec, opens)
  {
  }

  /** The commands on the heap give the stages of the line. */
  lemma StagesDenoted(heap: Heap, src: Source, env: Env, p: Pipeline, owned: map<nat, string>, lost: multiset<nat>,
                      stop: nat, opens: (Kind, string) -> bool)
    requires Parsed(heap, src, env, p, owned, lost, stop) && |Groups([], Phrases(src.toks))| <= MAX_PIPE_SEGMENTS
    ensures HeapStages(heap.cells, p.commands, opens) == StagesOf(Groups([], Phrases(src.toks)), env, opens)
  {
    var groups := Groups([], Phrases(src.toks));
    assert forall q | q in owned :: q in heap.cells && heap.cells[q] == owned[q];
    assert DenotesAll(owned, p.commands, groups, env);
    hide Denotes, StageOf, HeapStage, CmdOf;
    forall i | 0 <= i < |groups| ensures HeapStage(heap.cells, p.commands[i], opens) == StageOf(CmdOf(groups[i], env), opens) {
      StageDenoted(heap.cells, owned, p.commands[i], CmdOf(groups[i], env), opens);
    }
  }

  /** What one turn meets: the line, the environment it is read in, and how the system answers. */
  datatype Input = Input(line: string, env: Env, isBuiltin: bool, opens: (Kind, string) -> bool,
                         pipeOk: nat -> bool, forkOk: nat -> bool, order: nat -> seq<nat>)
  {
    function Stages(): seq<Pipes.Stage> {
      StagesOf(LineGroups(line), env, opens)
    }

    /** How the turn can end. */
    ghost predicate Ends(outcome: Pipes.Outcome) {
      && (outcome == Pipes.Nothing <==> |Stages()| == 0 || (|Stages()| == 1 && Stages()[0].words == 0))
      && (outcome == Pipes.Builtin <==> |Stages()| == 1 && Stages()[0].words > 0 && isBuiltin)
      && Pipes.FirstFailure(Stages(), pipeOk, forkOk, outcome)
    }

    /** What a turn asks of its line. */
    ghost predicate Readable() {
      IsCString(line) && IsEnv(env) && AllFit(Tokens(line), env) && |LineGroups(line)| <= MAX_PIPE_SEGMENTS
    }
  }

  /** Parse, execute, free: for every line of at most sixteen commands whose tokens fit, and any pattern of failing
      calls and interleaving, the descriptors come back as they were but for those left open, and the heap but for
      one string for each overwritten redirect. */
  method Turn(heap: Heap, k: Pipes.Kernel, t: Input) returns (outcome: Pipes.Outcome)
    requires heap.Valid() && t.Readable() && Pipes.StandardOpen(k.fds)
    modifies heap, k
    ensures heap.Valid() && |heap.cells.Keys| == |old(heap.cells).Keys| + OverwrittenIn(LineGroups(t.line))
    ensures heap.cells == old(heap.cells) <==> OverwrittenIn(LineGroups(t.line)) == 0
    ensures Pipes.Grown(old(k.fds), k.fds, Pipes.Left(t.Stages(), outcome), old(k.nextPipe), k.nextPipe)
    ensures k.fds == old(k.fds) <==> !Pipes.Leaks(t.Stages(), outcome)
    ensures t.Ends(outcome)
    ensures var stages := t.Stages();
            && Pipes.Reached(stages, outcome) <= |stages| && Pipes.GoOn(old(k.children), k.children)
            && Pipes.ChildrenWired(k.children, |old(k.children)|, old(k.fds), stages, old(k.nextPipe),
                                   Pipes.Reached(stages, outcome))
  {
    hide Pipes.Grown, Pipes.Left, Pipes.Leaks, Pipes.FirstFailure, Pipes.ChildrenWired, Pipes.GoOn, Pipes.Reached;
    hide OverwrittenIn, HeapStages, StagesOf, Parsed, LineGroups;
    ghost var src := Source(heap.cells, heap.next, Tokens(t.line));
    var p, owned, lost, stop := Parse(heap, t.env, t.line);
    if p.count == 0 {
      NoStages(heap.cells, t.env, t.opens);
      outcome := Pipes.ExecutePipeline(k, HeapStages(heap.cells, p.commands, t.opens), t.isBuiltin, t.pipeOk, t.forkOk,
                                       t.order);
      return;
    }
    LineOfTokens(t.line);
    StagesDenoted(heap, src, t.env, p, owned, lost, stop, t.opens);
    var stages := HeapStages(heap.cells, p.commands, t.opens);
    outcome := Pipes.ExecutePipeline(k, stages, t.isBuiltin, t.pipeOk, t.forkOk, t.order);
    ParsedWhole(heap, src, t.env, p, owned, lost, stop);
    var left := FreePipeline(heap, p, src.before, owned, lost);
    HeapAfter(src.before, left, lost);
  }

  lemma LineOfTokens(line: string)
    requires LineGroups(line) != []
    ensures LineGroups(line) == Groups([], Phrases(Tokens(line)))
  {
  }

  lemma NoStages(cells: map<nat, string>, env: Env, opens: (Kind, string) -> bool)
    ensures HeapStages(cells, [], opens) == [] == StagesOf([], env, opens)
    ensures OverwrittenIn([]) == 0
  {
  }

  // ---- What the redirects of a line do ----

  /** A stage's redirect of one kind: there is one just when the command has any, and then it is of the last one's
      file, expanded. */
  ghost predicate Asks(group: seq<Phrase>, kind: Kind, env: Env, opens: (Kind, string) -> bool,
                       redirect: Option<Pipes.Redirect>)
  {
    match redirect
    case None => forall k | 0 <= k < |group| :: !IsRedirect(group[k], kind)
    case Some(r) =>
      exists k: nat :: IsLast(group, kind, k) && r.path == Expanded(group[k].operand.value, env)
                       && r.opens == opens(kind, r.path)
  }

  /** A stage has a word for each word of its command, and asks for the files of its redirects. */
  lemma StageAsks(group: seq<Phrase>, env: Env, opens: (Kind, string) -> bool)
    ensures var s := StageOf(CmdOf(group, env), opens);
            && s.words == |Args(group)|
            && Asks(group, In, env, opens, s.stdin) && Asks(group, Out, env, opens, s.stdout)
            && Asks(group, Err, env, opens, s.stderr)
  {
    hide Expanded, CmdOf;
    CmdArgs(group, env);
    AsksLast(group, env, opens, In);
    AsksLast(group, env, opens, Out);
    AsksLast(group, env, opens, Err);
  }

  lemma AsksLast(group: seq<Phrase>, env: Env, opens: (Kind, string) -> bool, kind: Kind)
    ensures Asks(group, kind, env, opens, RedirectOf(FileOf(CmdOf(group, env), kind), kind, opens))
  {
    hide Expanded, CmdOf;
    LastRedirectWins(group, env, kind);
  }

  /** After a turn, the child of a command with words ends as its redirects ask: descriptor 2 is the file of the
      last error redirect or the one at entry; likewise 0 for the first command with words and 1 for the last
      command; and it exits just when one of these files cannot be opened. */
  lemma ChildOfCommand(t: Input, children: seq<Pipes.Child>, older: nat, entry: Pipes.FdTable, base: nat, n: nat, i: nat)
    requires n <= |t.Stages()| && Pipes.StandardOpen(entry)
    requires Pipes.ChildrenWired(children, older, entry, t.Stages(), base, n)
    requires i < n && HasWords(LineGroups(t.line)[i])
    ensures var group := LineGroups(t.line)[i];
            var s := t.Stages()[i];
            var k := older + |set j | 0 <= j < i && t.Stages()[j].words > 0|;
            && Asks(group, In, t.env, t.opens, s.stdin) && Asks(group, Out, t.env, t.opens, s.stdout)
            && Asks(group, Err, t.env, t.opens, s.stderr)
            && k < |children| && Pipes.AsAsked(Pipes.Finish(children[k]), entry, t.Stages(), base, i)
  {
    hide Pipes.AsAsked, Pipes.ChildrenWired, Asks, LineGroups, CmdOf;
    var group := LineGroups(t.line)[i];
    StageAsks(group, t.env, t.opens);
    SomeArgs(group);
    Pipes.ChildAsAsked(children, older, entry, t.Stages(), base, n, i);
  }

  // ---- Which lines leave a descriptor open ----

  predicate HasWords(group: seq<Phrase>) {
    exists k :: 0 <= k < |group| && group[k].Arg?
  }

  /** The last command of the line has no words, and an earlier one has. */
  predicate EndsEmpty(line: string) {
    var groups := LineGroups(line);
    && groups != [] && !HasWords(groups[|groups| - 1])
    && exists i :: 0 <= i < |groups| && HasWords(groups[i])
  }

  lemma {:induction false} SomeArgs(group: seq<Phrase>)
    ensures |Args(group)| > 0 <==> HasWords(group)
  {
    if group != [] {
      var front := group[..|group| - 1];
      SomeArgs(front);
      assert forall k | 0 <= k < |front| :: front[k] == group[k];
      if HasWords(group) && !group[|group| - 1].Arg? {
        var k :| 0 <= k < |group| && group[k].Arg?;
        assert front[k].Arg?;
      }
    }
  }

  lemma StageRuns(groups: seq<seq<Phrase>>, env: Env, opens: (Kind, string) -> bool, i: nat)
    ensures Pipes.Runs(StagesOf(groups, env, opens), i) <==> i < |groups| && HasWords(groups[i])
  {
    if i < |groups| {
      CmdArgs(groups[i], env);
      SomeArgs(groups[i]);
    }
  }

  /** When all of a line's stages are spawned, the parent keeps one pipe descriptor if the last command has no
      words and an earlier one has, and none otherwise. */
  lemma LineLeaksExactly(line: string, env: Env, opens: (Kind, string) -> bool)
    ensures Pipes.Left(StagesOf(LineGroups(line), env, opens), Pipes.Spawned) == if EndsEmpty(line) then 1 else 0
  {
    hide LineGroups, StageOf, HasWords;
    var groups := LineGroups(line);
    var stages := StagesOf(groups, env, opens);
    if groups != [] {
      StageRuns(groups, env, opens, |groups| - 1);
      forall i: nat ensures Pipes.Runs(stages, i) <==> i < |groups| && HasWords(groups[i]) {
        StageRuns(groups, env, opens, i);
      }
      if Pipes.Previous(stages, |stages|).Some? {
        assert HasWords(groups[Pipes.Previous(stages, |stages|).value]);
      }
    }
  }

  lemma LexBar(rest: string)
    ensures Lex("|" + rest) == ["|"] + Lex(rest)
  {
    assert ("|" + rest)[1..] == rest && SkipSpaces("|" + rest) == "|" + rest;
  }

  lemma LexSpace(rest: string)
    ensures Lex([' '] + rest) == Lex(rest)
  {
    assert ([' '] + rest)[1..] == rest;
  }

  lemma LexNothing()
    ensures Lex("") == []
  {
  }

  /** A line of one word and a separator names two commands, the second of them empty. */
  lemma WordBarGroups(word: string, style: Style)
    requires CanWrite(word, style) && |word| < MAX_LINE_LENGTH && !IsOperator(word)
    ensures var line := Write(word, style) + " |";
            line[0] != '#' ==> LineGroups(line) == [[Arg(word)], []]
  {
    var line := Write(word, style) + " |";
    assert "" + Write(word, style) + " |" == line && " |" == [' '] + "|" && "|" + "" == "|";
    LexOne("", word, style, " |");
    LexSpace("|");
    LexBar("");
    LexNothing();
    assert Lex(line) == [word, "|"];
    assert Tokens(line) == [word, "|"];
    WordBarPhrases(word);
  }

  lemma WordBarPhrases(word: string)
    requires !IsOperator(word)
    ensures Groups([], Phrases([word, "|"])) == [[Arg(word)], []]
  {
    var tokens, ps := [word, "|"], [Arg(word), Bar];
    assert tokens[1..] == ["|"] && ["|"][1..] == [] && ps[1..] == [Bar] && [Bar][1..] == [];
    assert Phrases(["|"]) == [Bar] && Phrases(tokens) == ps;
    assert [] + [Arg(word)] == [Arg(word)];
    assert Groups([Arg(word)], [Bar]) == [[Arg(word)]] + Groups([], []);
  }

  /** Such a line leaves the parent with a pipe descriptor. */
  lemma TrailingSeparatorLeaks(word: string, style: Style, env: Env, opens: (Kind, string) -> bool)
    requires CanWrite(word, style) && |word| < MAX_LINE_LENGTH && !IsOperator(word)
    ensures var line := Write(word, style) + " |";
            line[0] != '#' ==> EndsEmpty(line) && Pipes.Leaks(StagesOf(LineGroups(line), env, opens), Pipes.Spawned)
  {
    hide LineGroups, StagesOf, Pipes.Left;
    var line := Write(word, style) + " |";
    if line[0] != '#' {
      WordBarGroups(word, style);
      LineLeaksExactly(line, env, opens);
      assert [Arg(word)][0].Arg? && HasWords(LineGroups(line)[0]);
    }
  }

  /** `ls |` is one. */
  lemma LsBarLeaks(env: Env, opens: (Kind, string) -> bool)
    ensures Pipes.Leaks(StagesOf(LineGroups("ls |"), env, opens), Pipes.Spawned)
  {
    hide LineGroups, StagesOf;
    assert Escape("s", [false]) == "s" && "ls"[1..] == "s" && [false, false][1..] == [false];
    assert Write("ls", Plain([false, false])) + " |" == "ls |";
    TrailingSeparatorLeaks("ls", Plain([false, false]), env, opens);
  }

  // ---- Line after line ----

  /** The descriptors that the turns leave open. */
  function LeftByAll(inputs: seq<Input>, outcomes: seq<Pipes.Outcome>): nat
    requires |inputs| == |outcomes|
    decreases |inputs|
  {
    if inputs == [] then 0
    else
      var n := |inputs| - 1;
      LeftByAll(inputs[..n], outcomes[..n]) + Pipes.Left(inputs[n].Stages(), outcomes[n])
  }

  /** The strings that the turns lose. */
  function LostByAll(inputs: seq<Input>): nat {
    if inputs == [] then 0
    else LostByAll(inputs[..|inputs| - 1]) + OverwrittenIn(LineGroups(inputs[|inputs| - 1].line))
  }

  lemma OneTurnMore(inputs: seq<Input>, outcomes: seq<Pipes.Outcome>, outcome: Pipes.Outcome)
    requires |outcomes| < |inputs|
    ensures var n := |outcomes|;
            && LeftByAll(inputs[..n + 1], outcomes + [outcome])
               == LeftByAll(inputs[..n], outcomes) + Pipes.Left(inputs[n].Stages(), outcome)
            && LostByAll(inputs[..n + 1]) == LostByAll(inputs[..n]) + OverwrittenIn(LineGroups(inputs[n].line))
  {
    hide Input.Stages, Pipes.Left, LineGroups, OverwrittenIn, LeftByAll, LostByAll;
    var n := |outcomes|;
    assert inputs[..n + 1] == inputs[..n] + [inputs[n]];
    LeftSnoc(inputs[..n], inputs[n], outcomes, outcome);
    LostSnoc(inputs[..n], inputs[n]);
  }

  lemma LeftSnoc(inputs: seq<Input>, t: Input, outcomes: seq<Pipes.Outcome>, outcome: Pipes.Outcome)
    requires |inputs| == |outcomes|
    ensures LeftByAll(inputs + [t], outcomes + [outcome]) == LeftByAll(inputs, outcomes) + Pipes.Left(t.Stages(), outcome)
  {
    hide Input.Stages, Pipes.Left;
    assert (inputs + [t])[..|inputs|] == inputs && (outcomes + [outcome])[..|inputs|] == outcomes;
  }

  lemma LostSnoc(inputs: seq<Input>, t: Input)
    ensures LostByAll(inputs + [t]) == LostByAll(inputs) + OverwrittenIn(LineGroups(t.line))
  {
    hide LineGroups, OverwrittenIn;
    assert (inputs + [t])[..|inputs|] == inputs;
  }

  /** The main loop over the lines that are read, for any calls that fail and any interleaving with the children,
      those of earlier lines included. The descriptors at the start stay as they are, exactly as many more are open
      as the turns left, all of them pipe ends that no later line makes again, and the heap holds one string more for
      every overwritten redirect. */
  method RunLines(heap: Heap, k: Pipes.Kernel, inputs: seq<Input>) returns (outcomes: seq<Pipes.Outcome>)
    requires heap.Valid() && Pipes.StandardOpen(k.fds) && Pipes.NoNewPipes(k.fds, k.nextPipe)
    requires forall i | 0 <= i < |inputs| :: inputs[i].Readable()
    modifies heap, k
    ensures |outcomes| == |inputs|
    ensures forall i | 0 <= i < |inputs| :: inputs[i].Ends(outcomes[i])
    ensures Pipes.Grown(old(k.fds), k.fds, LeftByAll(inputs, outcomes), old(k.nextPipe), k.nextPipe)
    ensures (forall i | 0 <= i < |inputs| :: Completed(outcomes[i])) ==> LeftByAll(inputs, outcomes) == EndingEmpty(inputs)
    ensures Pipes.StandardOpen(k.fds) && Pipes.NoNewPipes(k.fds, k.nextPipe)
    ensures heap.Valid() && |heap.cells.Keys| == |old(heap.cells).Keys| + LostByAll(inputs)
  {
    hide Pipes.Grown, Pipes.Left, Pipes.Leaks, Pipes.FirstFailure, Pipes.NoNewPipes, Pipes.ChildrenWired, Pipes.GoOn;
    hide Pipes.Reached, OverwrittenIn, LineGroups, LeftByAll, LostByAll, Input.Readable, Input.Ends, Input.Stages;
    ghost var entry, base, before := k.fds, k.nextPipe, heap.cells.Keys;
    outcomes := [];
    NoTurns(inputs, entry, base);
    while |outcomes| < |inputs|
      invariant |outcomes| <= |inputs| && heap.Valid()
      invariant forall i | 0 <= i < |outcomes| :: inputs[i].Ends(outcomes[i])
      invariant Pipes.Grown(entry, k.fds, LeftByAll(inputs[..|outcomes|], outcomes), base, k.nextPipe)
      invariant Pipes.StandardOpen(k.fds) && Pipes.NoNewPipes(k.fds, k.nextPipe)
      invariant |heap.cells.Keys| == |before| + LostByAll(inputs[..|outcomes|])
    {
      var t := inputs[|outcomes|];
      ghost var fds, next := k.fds, k.nextPipe;
      var outcome := Turn(heap, k, t);
      ghost var n := Pipes.Left(t.Stages(), outcome);
      TurnKeeps(entry, fds, k.fds, LeftByAll(inputs[..|outcomes|], outcomes), n, base, next, k.nextPipe);
      OneTurnMore(inputs, outcomes, outcome);
      outcomes := outcomes + [outcome];
    }
    assert inputs[..|outcomes|] == inputs;
    if forall i | 0 <= i < |inputs| :: Completed(outcomes[i]) {
      LeftExactly(inputs, outcomes);
    }
  }

  lemma NoTurns(inputs: seq<Input>, entry: Pipes.FdTable, base: nat)
    ensures inputs[..0] == [] && LeftByAll([], []) == LostByAll([]) == 0 && Pipes.Grown(entry, entry, 0, base, base)
  {
  }

  /** A turn that adds to the table keeps what the next one needs. */
  lemma TurnKeeps(entry: Pipes.FdTable, fds: Pipes.FdTable, fds': Pipes.FdTable, n: nat, m: nat, base: nat, mid: nat,
                  next: nat)
    requires Pipes.Grown(entry, fds, n, base, mid) && Pipes.Grown(fds, fds', m, mid, next)
    requires Pipes.StandardOpen(fds) && Pipes.NoNewPipes(fds, mid)
    ensures Pipes.Grown(entry, fds', n + m, base, next)
    ensures Pipes.StandardOpen(fds') && Pipes.NoNewPipes(fds', next)
  {
    hide Pipes.NoNewPipes;
    Pipes.GrownTwice(entry, fds, fds', n, m, base, mid, next);
    Pipes.NoNewPipesKept(fds, fds', m, mid, next);
  }

  // ---- Lines whose calls all work ----

  predicate Completed(outcome: Pipes.Outcome) {
    outcome.Nothing? || outcome.Builtin? || outcome.Spawned?
  }

  /** How many of the lines end in an empty command after one with words. */
  function EndingEmpty(inputs: seq<Input>): nat {
    if inputs == [] then 0
    else EndingEmpty(inputs[..|inputs| - 1]) + if EndsEmpty(inputs[|inputs| - 1].line) then 1 else 0
  }

  /** A turn without a failing call leaves a descriptor open just when its line ends empty. */
  lemma CompletedLeaves(t: Input, outcome: Pipes.Outcome)
    requires t.Ends(outcome) && Completed(outcome)
    ensures Pipes.Left(t.Stages(), outcome) == if EndsEmpty(t.line) then 1 else 0
  {
    hide LineGroups, StageOf, HasWords, Pipes.FirstFailure;
    if outcome.Spawned? {
      LineLeaksExactly(t.line, t.env, t.opens);
    } else if |t.Stages()| == 1 {
      StageRuns(LineGroups(t.line), t.env, t.opens, 0);
    }
  }

  /** So a run of such lines leaves as many descriptors open as lines that end empty. */
  lemma {:induction false} LeftExactly(inputs: seq<Input>, outcomes: seq<Pipes.Outcome>)
    requires |inputs| == |outcomes|
    requires forall i | 0 <= i < |inputs| :: inputs[i].Ends(outcomes[i]) && Completed(outcomes[i])
    ensures LeftByAll(inputs, outcomes) == EndingEmpty(inputs)
    decreases |inputs|
  {
    hide EndsEmpty, Pipes.Left, Input.Ends, Input.Stages;
    if inputs != [] {
      var n := |inputs| - 1;
      CompletedLeaves(inputs[n], outcomes[n]);
      LeftExactly(inputs[..n], outcomes[..n]);
    }
  }

  // ---- Lines with too many separators ----

  /** A line of `n` separators. */
  function BarLine(n: nat): string {
    if n == 0 then "" else "|" + BarLine(n - 1)
  }

  function BarTokens(n: nat): (r: seq<string>)
    ensures |r| == n && forall i | 0 <= i < n :: r[i] == "|"
  {
    seq(n, _ => "|")
  }

  lemma {:induction false} LexBarLine(n: nat)
    ensures Lex(BarLine(n)) == BarTokens(n)
  {
    if n == 0 {
      LexNothing();
    } else {
      LexBar(BarLine(n - 1));
      LexBarLine(n - 1);
    }
  }

  lemma {:induction false} BarPhrases(tokens: seq<string>)
    requires forall i | 0 <= i < |tokens| :: tokens[i] == "|"
    ensures Bars(Phrases(tokens)) == |tokens|
  {
    if tokens != [] {
      BarPhrases(tokens[1..]);
      var ps := Phrases(tokens[1..]);
      assert ([Bar] + ps)[1..] == ps;
    }
  }

  /** A line of separators names one command more, up to the limit on tokens. */
  lemma BarLineGroups(n: nat)
    requires 0 < n < MAX_ARGS
    ensures |LineGroups(BarLine(n))| == n + 1
  {
    LexBarLine(n);
    assert Tokens(BarLine(n)) == BarTokens(n);
    BarPhrases(BarTokens(n));
    GroupCount([], Phrases(BarTokens(n)));
  }
}
