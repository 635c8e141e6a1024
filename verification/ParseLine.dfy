/** shell/src/parser.c: parse_line, and who owns the strings it makes. */
module ParseLine {
  import opened Wrappers
  import opened CHeap
  import opened Lexer
  import opened Expansion
  import opened Grammar
  import opened ShellLimits

  /** `commands` are the slots in use; `count` is the source's field, which can exceed them. */
  datatype Pipeline = Pipeline(commands: seq<Cmd<nat>>, count: nat)

  // ---- Specification ----

  /** The phrase groups of a line, one for each command it names. */
  function LineGroups(line: string): seq<seq<Phrase>> {
    if line == "" || line[0] == '#' || Tokens(line) == [] then [] else Groups([], Phrases(Tokens(line)))
  }

  function Kept<T>(groups: seq<T>): seq<T> {
    if |groups| <= MAX_PIPE_SEGMENTS then groups else groups[..MAX_PIPE_SEGMENTS]
  }

  ghost predicate DenotesFile(owned: map<nat, string>, p: Option<nat>, s: Option<string>) {
    match (p, s)
    case (None, None) => true
    case (Some(q), Some(t)) => q in owned && owned[q] == t
    case _ => false
  }

  /** The heap command `c` stands for the command `spec`. */
  ghost predicate Denotes(owned: map<nat, string>, c: Cmd<nat>, spec: Cmd<string>) {
    && |c.argv| == |spec.argv|
    && (forall j | 0 <= j < |c.argv| :: c.argv[j] in owned && owned[c.argv[j]] == spec.argv[j])
    && DenotesFile(owned, c.stdin, spec.stdin)
    && DenotesFile(owned, c.stdout, spec.stdout)
    && DenotesFile(owned, c.stderr, spec.stderr)
    && c.stdoutAppend == spec.stdoutAppend && c.background == spec.background
  }

  ghost predicate DenotesAll(owned: map<nat, string>, cs: seq<Cmd<nat>>, groups: seq<seq<Phrase>>, env: Env) {
    |cs| == |groups| && forall k | 0 <= k < |cs| :: Denotes(owned, cs[k], CmdOf(groups[k], env))
  }

  function IdOf(p: Option<nat>): multiset<nat> {
    match p case None => multiset{} case Some(q) => multiset{q}
  }

  /** Every heap string a command holds, with repeats. */
  function Ids(c: Cmd<nat>): multiset<nat> {
    multiset(c.argv) + IdOf(c.stdin) + IdOf(c.stdout) + IdOf(c.stderr)
  }

  function IdsOfAll(cs: seq<Cmd<nat>>): multiset<nat> {
    if cs == [] then multiset{} else IdsOfAll(cs[..|cs| - 1]) + Ids(cs[|cs| - 1])
  }

  // ---- The heap while parsing ----

  /** The token strings: numbered from `base`, above everything in `before`. */
  datatype Source = Source(before: map<nat, string>, base: nat, toks: seq<string>)

  /** The heap holds the strings it had before, the tokens from `i` on, and the expanded strings. */
  ghost predicate Layout(heap: Heap, src: Source, i: nat, owned: map<nat, string>)
    reads heap
  {
    && heap.Valid() && i <= |src.toks| && src.base + |src.toks| <= heap.next
    && (forall p | p in src.before :: p < src.base)
    && (forall p | p in owned :: src.base + |src.toks| <= p)
    && heap.cells == src.before + StringsAt(src.base + i, src.toks[i..]) + owned
  }

  lemma LayoutToken(heap: Heap, src: Source, i: nat, owned: map<nat, string>)
    requires Layout(heap, src, i, owned) && i < |src.toks|
    ensures src.base + i in heap.cells && heap.cells[src.base + i] == src.toks[i]
  {
    StringsAtDrop(src.base + i, src.toks[i..]);
  }

  lemma DropMiddle(a: map<nat, string>, b: map<nat, string>, c: map<nat, string>, k: nat)
    requires k !in a && k !in c
    ensures (a + b + c) - {k} == a + (b - {k}) + c
  {
  }

  lemma LayoutDrop(src: Source, i: nat, owned: map<nat, string>)
    requires i < |src.toks| && src.base + i !in src.before && src.base + i !in owned
    ensures (src.before + StringsAt(src.base + i, src.toks[i..]) + owned) - {src.base + i}
         == src.before + StringsAt(src.base + i + 1, src.toks[i + 1..]) + owned
  {
    StringsAtDrop(src.base + i, src.toks[i..]);
    assert src.toks[i..][1..] == src.toks[i + 1..];
    DropMiddle(src.before, StringsAt(src.base + i, src.toks[i..]), owned, src.base + i);
  }

  /** free(tokens[i]) */
  method FreeToken(heap: Heap, tok: nat, ghost src: Source, ghost i: nat, ghost owned: map<nat, string>)
    requires Layout(heap, src, i, owned) && i < |src.toks| && tok == src.base + i
    modifies heap
    ensures Layout(heap, src, i + 1, owned)
  {
    LayoutToken(heap, src, i, owned);
    LayoutDrop(src, i, owned);
    heap.Free(tok);
  }

  ghost predicate Ready(src: Source, env: Env) {
    (forall i | 0 <= i < |src.toks| :: IsCString(src.toks[i])) && IsEnv(env) && AllFit(src.toks, env)
  }

  /** expand_variables(tokens[i]), then free(tokens[i]) */
  method ExpandToken(heap: Heap, env: Env, tok: nat, ghost src: Source, ghost i: nat, ghost owned: map<nat, string>)
    returns (q: nat)
    requires Layout(heap, src, i, owned) && i < |src.toks| && tok == src.base + i && Ready(src, env)
    modifies heap
    ensures q !in owned && Layout(heap, src, i + 1, owned[q := Expanded(src.toks[i], env)])
  {
    hide Expanded, StringsAt;
    LayoutToken(heap, src, i, owned);
    q := ExpandVariables(heap, heap.cells[tok], env);
    ghost var owned' := owned[q := Expanded(src.toks[i], env)];
    assert heap.cells == src.before + StringsAt(src.base + i, src.toks[i..]) + owned';
    FreeToken(heap, tok, src, i, owned');
  }

  // ---- The commands while parsing ----

  /** `done` are the finished commands and `groups` what they were read from, `group` what the current
      command was read from so far, `lost` the strings that no command holds any more. */
  datatype Progress = Progress(owned: map<nat, string>, done: seq<Cmd<nat>>, groups: seq<seq<Phrase>>,
                               group: seq<Phrase>, lost: multiset<nat>)

  /** Every owned string is held exactly once or lost, and the lost ones are the overwritten redirects. */
  ghost predicate Built(g: Progress, cmd: Cmd<nat>, env: Env) {
    && DenotesAll(g.owned, g.done, g.groups, env)
    && Denotes(g.owned, cmd, CmdOf(g.group, env))
    && multiset(g.owned.Keys) == IdsOfAll(g.done) + Ids(cmd) + g.lost
    && |g.lost| == OverwrittenIn(g.groups) + Overwritten(g.group)
  }

  lemma DenotesAllGrows(owned: map<nat, string>, q: nat, s: string, cs: seq<Cmd<nat>>,
                        groups: seq<seq<Phrase>>, env: Env)
    requires DenotesAll(owned, cs, groups, env) && q !in owned
    ensures DenotesAll(owned[q := s], cs, groups, env)
  {
    forall k | 0 <= k < |cs| ensures Denotes(owned[q := s], cs[k], CmdOf(groups[k], env)) {
      assert Denotes(owned, cs[k], CmdOf(groups[k], env));
    }
  }

  lemma DenotesArg(owned: map<nat, string>, q: nat, s: string, c: Cmd<nat>, spec: Cmd<string>)
    requires Denotes(owned, c, spec) && q !in owned
    ensures Denotes(owned[q := s], c.(argv := c.argv + [q]), spec.(argv := spec.argv + [s]))
  {
  }

  lemma DenotesRedirect(owned: map<nat, string>, q: nat, s: string, c: Cmd<nat>, spec: Cmd<string>, op: string)
    requires Denotes(owned, c, spec) && q !in owned && IsRedirOp(op)
    ensures Denotes(owned[q := s], WithRedirect(c, op, q), WithRedirect(spec, op, s))
  {
  }

  lemma DenotesFileAgrees(owned: map<nat, string>, c: Cmd<nat>, spec: Cmd<string>, kind: Kind)
    requires Denotes(owned, c, spec)
    ensures FileOf(c, kind).None? <==> FileOf(spec, kind).None?
    ensures |IdOf(FileOf(c, kind))| == if FileOf(spec, kind).None? then 0 else 1
  {
  }

  /** One string more is owned; the command holds it instead of `dropped`. */
  lemma Balance(owned: map<nat, string>, q: nat, s: string, rest: multiset<nat>, held: multiset<nat>,
                lost: multiset<nat>, held': multiset<nat>, dropped: multiset<nat>)
    requires multiset(owned.Keys) == rest + held + lost && q !in owned
    requires held' + dropped == held + multiset{q}
    ensures multiset(owned[q := s].Keys) == rest + held' + (lost + dropped)
  {
    assert owned[q := s].Keys == owned.Keys + {q};
    assert multiset(owned[q := s].Keys) == multiset(owned.Keys) + multiset{q};
    assert rest + held + lost + multiset{q} == rest + (held + multiset{q}) + lost;
  }

  lemma CountSnoc(group: seq<Phrase>, p: Phrase, kind: Kind)
    ensures Count(group + [p], kind) == Count(group, kind) + if IsRedirect(p, kind) then 1 else 0
  {
    assert (group + [p])[..|group|] == group;
  }

  lemma OverwrittenSnoc(group: seq<Phrase>, p: Phrase)
    ensures (forall kind :: !IsRedirect(p, kind)) ==> Overwritten(group + [p]) == Overwritten(group)
    ensures forall kind | IsRedirect(p, kind) ::
              Overwritten(group + [p]) == Overwritten(group) + if Count(group, kind) == 0 then 0 else 1
  {
    CountSnoc(group, p, In);
    CountSnoc(group, p, Out);
    CountSnoc(group, p, Err);
  }

  /** A step that needs no new string: `&`, or a redirect operator at the end of the line. */
  lemma BuiltFlag(g: Progress, cmd: Cmd<nat>, env: Env, p: Phrase)
    requires Built(g, cmd, env)
    requires p == Amp || (p.Redir? && p.operand.None?)
    ensures Built(g.(group := g.group + [p]), if p == Amp then cmd.(background := true) else cmd, env)
  {
    OverwrittenSnoc(g.group, p);
    CmdOfSnoc(g.group, p, env);
  }

  /** An argument. */
  ghost function AddArg(g: Progress, word: string, env: Env, q: nat): Progress {
    g.(owned := g.owned[q := Expanded(word, env)], group := g.group + [Arg(word)])
  }

  lemma BuiltArg(g: Progress, cmd: Cmd<nat>, env: Env, word: string, q: nat)
    requires Built(g, cmd, env) && q !in g.owned
    ensures Built(AddArg(g, word, env, q), cmd.(argv := cmd.argv + [q]), env)
  {
    var s, spec := Expanded(word, env), CmdOf(g.group, env);
    OverwrittenSnoc(g.group, Arg(word));
    CmdOfSnoc(g.group, Arg(word), env);
    DenotesAllGrows(g.owned, q, s, g.done, g.groups, env);
    DenotesArg(g.owned, q, s, cmd, spec);
    assert CmdOf(g.group + [Arg(word)], env) == spec.(argv := spec.argv + [s]);
    IdsArg(cmd, q);
    Balance(g.owned, q, s, IdsOfAll(g.done), Ids(cmd), g.lost, Ids(cmd.(argv := cmd.argv + [q])), multiset{});
    assert g.lost + multiset{} == g.lost;
  }

  lemma IdsArg(c: Cmd<nat>, q: nat)
    ensures Ids(c.(argv := c.argv + [q])) + multiset{} == Ids(c) + multiset{q}
  {
    assert multiset(c.argv + [q]) == multiset(c.argv) + multiset{q};
  }

  ghost function KindOf(op: string): Kind
    requires IsRedirOp(op)
  {
    if op == "<" then In else if op == "2>" then Err else Out
  }

  lemma IdsIn(c: Cmd<nat>, q: nat)
    ensures Ids(c.(stdin := Some(q))) + IdOf(c.stdin) == Ids(c) + multiset{q}
  {
    Exchange(multiset(c.argv), IdOf(c.stdout) + IdOf(c.stderr), multiset{q}, IdOf(c.stdin));
  }

  lemma IdsOut(c: Cmd<nat>, q: nat, append: bool)
    ensures Ids(c.(stdout := Some(q), stdoutAppend := append)) + IdOf(c.stdout) == Ids(c) + multiset{q}
  {
    Exchange(multiset(c.argv) + IdOf(c.stdin), IdOf(c.stderr), multiset{q}, IdOf(c.stdout));
  }

  lemma IdsErr(c: Cmd<nat>, q: nat)
    ensures Ids(c.(stderr := Some(q))) + IdOf(c.stderr) == Ids(c) + multiset{q}
  {
    Exchange(multiset(c.argv) + IdOf(c.stdin) + IdOf(c.stdout), multiset{}, multiset{q}, IdOf(c.stderr));
  }

  lemma Exchange(a: multiset<nat>, b: multiset<nat>, q: multiset<nat>, d: multiset<nat>)
    ensures a + q + b + d == a + d + b + q
  {
  }

  lemma IdsRedirect(c: Cmd<nat>, op: string, q: nat)
    requires IsRedirOp(op)
    ensures Ids(WithRedirect(c, op, q)) + IdOf(FileOf(c, KindOf(op))) == Ids(c) + multiset{q}
  {
    hide Ids, IdOf;
    match KindOf(op)
    case In => IdsIn(c, q);
    case Out => IdsOut(c, q, op == ">>");
    case Err => IdsErr(c, q);
  }

  /** A redirect; the string it replaces is lost. */
  ghost function AddRedirect(g: Progress, cmd: Cmd<nat>, op: string, file: string, env: Env, q: nat): Progress
    requires IsRedirOp(op)
  {
    g.(owned := g.owned[q := Expanded(file, env)], group := g.group + [Redir(op, Some(file))],
       lost := g.lost + IdOf(FileOf(cmd, KindOf(op))))
  }

  lemma BuiltRedirect(g: Progress, cmd: Cmd<nat>, env: Env, op: string, file: string, q: nat)
    requires Built(g, cmd, env) && q !in g.owned && IsRedirOp(op)
    ensures Built(AddRedirect(g, cmd, op, file, env, q), WithRedirect(cmd, op, q), env)
  {
    hide DenotesAll, Denotes, Ids, IdsOfAll;
    var p, kind, s, spec := Redir(op, Some(file)), KindOf(op), Expanded(file, env), CmdOf(g.group, env);
    assert IsRedirect(p, kind);
    OverwrittenSnoc(g.group, p);
    CmdOfSnoc(g.group, p, env);
    CountZero(g.group, env, kind);
    DenotesFileAgrees(g.owned, cmd, spec, kind);
    DenotesAllGrows(g.owned, q, s, g.done, g.groups, env);
    DenotesRedirect(g.owned, q, s, cmd, spec, op);
    assert CmdOf(g.group + [p], env) == WithRedirect(spec, op, s);
    IdsRedirect(cmd, op, q);
    Balance(g.owned, q, s, IdsOfAll(g.done), Ids(cmd), g.lost, Ids(WithRedirect(cmd, op, q)),
            IdOf(FileOf(cmd, kind)));
  }

  /** A separator ends a command and begins an empty one. */
  ghost function EndCommand(g: Progress, cmd: Cmd<nat>): Progress {
    g.(done := g.done + [cmd], groups := g.groups + [g.group], group := [])
  }

  lemma DenotesAllSnoc(owned: map<nat, string>, cs: seq<Cmd<nat>>, groups: seq<seq<Phrase>>, env: Env,
                       c: Cmd<nat>, group: seq<Phrase>)
    requires DenotesAll(owned, cs, groups, env) && Denotes(owned, c, CmdOf(group, env))
    ensures DenotesAll(owned, cs + [c], groups + [group], env)
  {
    forall k | 0 <= k <= |cs| ensures Denotes(owned, (cs + [c])[k], CmdOf((groups + [group])[k], env)) {
      if k < |cs| {
        assert Denotes(owned, cs[k], CmdOf(groups[k], env));
      }
    }
  }

  lemma IdsOfAllSnoc(cs: seq<Cmd<nat>>, c: Cmd<nat>)
    ensures IdsOfAll(cs + [c]) == IdsOfAll(cs) + Ids(c)
    ensures IdsOfAll(cs + [c]) + Ids(NoCmd()) == IdsOfAll(cs) + Ids(c)
  {
    assert (cs + [c])[..|cs|] == cs;
    assert Ids(NoCmd()) == multiset{};
  }

  lemma BuiltBar(g: Progress, cmd: Cmd<nat>, env: Env)
    requires Built(g, cmd, env)
    ensures Built(EndCommand(g, cmd), NoCmd(), env)
  {
    DenotesAllSnoc(g.owned, g.done, g.groups, env, cmd, g.group);
    IdsOfAllSnoc(g.done, cmd);
    assert (g.groups + [g.group])[..|g.groups|] == g.groups;
  }

  // ---- The token loop ----

  /** The groups of a token list whose first `i` tokens are read. */
  ghost function GroupsFrom(g: Progress, toks: seq<string>, i: nat): seq<seq<Phrase>>
    requires i <= |toks|
  {
    g.groups + Groups(g.group, Phrases(toks[i..]))
  }

  /** The loop's invariant, apart from the heap. */
  ghost predicate Reads(src: Source, env: Env, i: nat, g: Progress, cmd: Cmd<nat>) {
    i <= |src.toks| && Built(g, cmd, env) && GroupsFrom(g, src.toks, i) == Groups([], Phrases(src.toks))
  }

  ghost predicate At(heap: Heap, src: Source, env: Env, i: nat, g: Progress, cmd: Cmd<nat>)
    reads heap
  {
    Layout(heap, src, i, g.owned) && Reads(src, env, i, g, cmd)
  }

  lemma StepBar(g: Progress, cmd: Cmd<nat>, toks: seq<string>, i: nat)
    requires i < |toks| && toks[i] == "|"
    ensures GroupsFrom(g, toks, i) == GroupsFrom(EndCommand(g, cmd), toks, i + 1)
  {
    assert toks[i..][1..] == toks[i + 1..];
    var ps := Phrases(toks[i + 1..]);
    assert ([Bar] + ps)[1..] == ps;
    assert g.groups + ([g.group] + Groups([], ps)) == g.groups + [g.group] + Groups([], ps);
  }

  /** A step that reads `n` tokens as the phrase `p`. */
  lemma StepPhrase(g: Progress, toks: seq<string>, i: nat, n: nat, p: Phrase, g': Progress)
    requires i + n <= |toks| && !p.Bar? && g'.groups == g.groups && g'.group == g.group + [p]
    requires Phrases(toks[i..]) == [p] + Phrases(toks[i + n..])
    ensures GroupsFrom(g, toks, i) == GroupsFrom(g', toks, i + n)
  {
    var ps := Phrases(toks[i + n..]);
    assert ([p] + ps)[1..] == ps && ([p] + ps)[0] == p;
  }

  lemma PhrasesAt(toks: seq<string>, i: nat)
    requires i < |toks| && toks[i] != "|"
    ensures toks[i] == "&" ==> Phrases(toks[i..]) == [Amp] + Phrases(toks[i + 1..])
    ensures !IsOperator(toks[i]) ==> Phrases(toks[i..]) == [Arg(toks[i])] + Phrases(toks[i + 1..])
    ensures IsRedirOp(toks[i]) && i + 1 < |toks| ==>
              Phrases(toks[i..]) == [Redir(toks[i], Some(toks[i + 1]))] + Phrases(toks[i + 2..])
    ensures IsRedirOp(toks[i]) && i + 1 == |toks| ==>
              Phrases(toks[i..]) == [Redir(toks[i], None)] + Phrases(toks[i + 1..])
  {
    assert toks[i..][1..] == toks[i + 1..];
    if i + 1 < |toks| {
      assert toks[i..][2..] == toks[i + 2..];
    }
  }

  lemma ReadsBar(src: Source, env: Env, i: nat, g: Progress, cmd: Cmd<nat>)
    requires Reads(src, env, i, g, cmd) && i < |src.toks| && src.toks[i] == "|"
    ensures Reads(src, env, i + 1, EndCommand(g, cmd), NoCmd())
  {
    StepBar(g, cmd, src.toks, i);
    BuiltBar(g, cmd, env);
  }

  /** The token is `&`, or a redirect operator that ends the line. */
  ghost predicate IsFlag(toks: seq<string>, i: nat, p: Phrase)
    requires i < |toks|
  {
    if p == Amp then toks[i] == "&" else IsRedirOp(toks[i]) && i + 1 == |toks| && p == Redir(toks[i], None)
  }

  lemma GroupsAfterFlag(g: Progress, toks: seq<string>, i: nat, p: Phrase, g': Progress)
    requires i < |toks| && IsFlag(toks, i, p) && g'.groups == g.groups && g'.group == g.group + [p]
    ensures GroupsFrom(g, toks, i) == GroupsFrom(g', toks, i + 1)
  {
    PhrasesAt(toks, i);
    StepPhrase(g, toks, i, 1, p, g');
  }

  lemma ReadsFlag(src: Source, env: Env, i: nat, g: Progress, cmd: Cmd<nat>, p: Phrase)
    requires Reads(src, env, i, g, cmd) && i < |src.toks| && IsFlag(src.toks, i, p)
    ensures Reads(src, env, i + 1, g.(group := g.group + [p]), if p == Amp then cmd.(background := true) else cmd)
  {
    GroupsAfterFlag(g, src.toks, i, p, g.(group := g.group + [p]));
    BuiltFlag(g, cmd, env, p);
    hide Built, Phrases, Groups, GroupsFrom;
  }

  lemma GroupsAfterArg(g: Progress, toks: seq<string>, i: nat, g': Progress)
    requires i < |toks| && !IsOperator(toks[i]) && g'.groups == g.groups && g'.group == g.group + [Arg(toks[i])]
    ensures GroupsFrom(g, toks, i) == GroupsFrom(g', toks, i + 1)
  {
    PhrasesAt(toks, i);
    StepPhrase(g, toks, i, 1, Arg(toks[i]), g');
  }

  lemma ReadsArg(src: Source, env: Env, i: nat, g: Progress, cmd: Cmd<nat>, q: nat)
    requires Reads(src, env, i, g, cmd) && i < |src.toks| && !IsOperator(src.toks[i]) && q !in g.owned
    ensures Reads(src, env, i + 1, AddArg(g, src.toks[i], env, q), cmd.(argv := cmd.argv + [q]))
  {
    hide Built, Phrases, Groups, GroupsFrom, IsOperator, Expanded;
    GroupsAfterArg(g, src.toks, i, AddArg(g, src.toks[i], env, q));
    BuiltArg(g, cmd, env, src.toks[i], q);
  }

  lemma ReadsRedirect(src: Source, env: Env, i: nat, g: Progress, cmd: Cmd<nat>, q: nat)
    requires Reads(src, env, i, g, cmd) && i + 1 < |src.toks| && IsRedirOp(src.toks[i]) && q !in g.owned
    ensures Reads(src, env, i + 2, AddRedirect(g, cmd, src.toks[i], src.toks[i + 1], env, q),
                  WithRedirect(cmd, src.toks[i], q))
  {
    var op, file := src.toks[i], src.toks[i + 1];
    PhrasesAt(src.toks, i);
    StepPhrase(g, src.toks, i, 2, Redir(op, Some(file)), AddRedirect(g, cmd, op, file, env, q));
    BuiltRedirect(g, cmd, env, op, file, q);
  }

  /** The four redirect branches: the operator is freed, then the operand that follows. */
  method ReadRedirect(heap: Heap, env: Env, tok: nat, file: nat, cmd: Cmd<nat>,
                      ghost src: Source, ghost i: nat, ghost g: Progress)
    returns (cmd': Cmd<nat>, ghost g': Progress)
    requires At(heap, src, env, i, g, cmd) && i + 1 < |src.toks| && Ready(src, env)
    requires tok == src.base + i && file == src.base + i + 1 && IsRedirOp(src.toks[i])
    modifies heap
    ensures At(heap, src, env, i + 2, g', cmd') && g'.done == g.done
  {
    hide Layout, Reads, WithRedirect;
    LayoutToken(heap, src, i, g.owned);
    var op := heap.cells[tok];
    FreeToken(heap, tok, src, i, g.owned);
    var q := ExpandToken(heap, env, file, src, i + 1, g.owned);
    ReadsRedirect(src, env, i, g, cmd, q);
    return WithRedirect(cmd, op, q), AddRedirect(g, cmd, op, src.toks[i + 1], env, q);
  }

  /** Every branch but the separator's. */
  method ReadPhrase(heap: Heap, env: Env, tokens: array<Option<nat>>, count: nat, i: nat, cmd: Cmd<nat>,
                    ghost src: Source, ghost g: Progress)
    returns (i': nat, cmd': Cmd<nat>, ghost g': Progress)
    requires At(heap, src, env, i, g, cmd) && Ready(src, env)
    requires i < count == |src.toks| <= tokens.Length && src.toks[i] != "|"
    requires forall k | 0 <= k < count :: tokens[k] == Some(src.base + k)
    modifies heap
    ensures i < i' <= count && At(heap, src, env, i', g', cmd') && g'.done == g.done
  {
    hide Layout, Reads;
    LayoutToken(heap, src, i, g.owned);
    var tok := tokens[i].value;
    var text := heap.cells[tok];
    i', cmd', g' := i + 1, cmd, g;
    if text == "&" {
      ReadsFlag(src, env, i, g, cmd, Amp);
      FreeToken(heap, tok, src, i, g.owned);
      cmd', g' := cmd.(background := true), g.(group := g.group + [Amp]);
    } else if text == "<" || text == ">" || text == ">>" || text == "2>" {
      if i + 1 < count {
        cmd', g' := ReadRedirect(heap, env, tok, tokens[i + 1].value, cmd, src, i, g);
        i' := i + 2;
      } else {
        ReadsFlag(src, env, i, g, cmd, Redir(text, None));
        FreeToken(heap, tok, src, i, g.owned);
        g' := g.(group := g.group + [Redir(text, None)]);
      }
    } else {
      var q := ExpandToken(heap, env, tok, src, i, g.owned);
      ReadsArg(src, env, i, g, cmd, q);
      cmd', g' := cmd.(argv := cmd.argv + [q]), AddArg(g, text, env, q);
    }
  }

  /** What parse_line leaves: the commands of the first sixteen groups, the strings they hold, the
      overwritten redirect strings in `lost`, and the tokens from `stop` on that nobody frees. */
  ghost predicate Parsed(heap: Heap, src: Source, env: Env, p: Pipeline, owned: map<nat, string>,
                         lost: multiset<nat>, stop: nat)
    reads heap
  {
    var all := Groups([], Phrases(src.toks));
    && Layout(heap, src, stop, owned)
    && p.count == (if |all| <= MAX_PIPE_SEGMENTS then |all| else MAX_PIPE_SEGMENTS + 1)
    && DenotesAll(owned, p.commands, Kept(all), env)
    && multiset(owned.Keys) == IdsOfAll(p.commands) + lost
    && |lost| == OverwrittenIn(Kept(all))
    && (if |all| <= MAX_PIPE_SEGMENTS then stop == |src.toks| else stop < |src.toks| && src.toks[stop] == "|")
  }

  lemma AllRead(g: Progress, toks: seq<string>)
    ensures GroupsFrom(g, toks, |toks|) == g.groups + [g.group]
  {
    assert toks[|toks|..] == [] && Phrases([]) == [];
  }

  lemma Finished(heap: Heap, src: Source, env: Env, g: Progress, cmd: Cmd<nat>)
    requires At(heap, src, env, |src.toks|, g, cmd) && |g.done| < MAX_PIPE_SEGMENTS
    ensures Parsed(heap, src, env, Pipeline(g.done + [cmd], |g.done| + 1), g.owned, g.lost, |src.toks|)
  {
    hide Layout, OverwrittenIn, Denotes, IdsOfAll, Ids;
    BuiltBar(g, cmd, env);
    AllRead(g, src.toks);
    IdsOfAllSnoc(g.done, cmd);
  }

  lemma Overflowed(heap: Heap, src: Source, env: Env, i: nat, g: Progress, cmd: Cmd<nat>)
    requires At(heap, src, env, i, g, cmd) && i < |src.toks| && src.toks[i] == "|"
    requires |g.done| == MAX_PIPE_SEGMENTS - 1
    ensures Parsed(heap, src, env, Pipeline(g.done + [cmd], MAX_PIPE_SEGMENTS + 1), g.owned, g.lost, i)
  {
    hide Layout, OverwrittenIn, Denotes, IdsOfAll, Ids, Phrases;
    BuiltBar(g, cmd, env);
    StepBar(g, cmd, src.toks, i);
    var all := Groups([], Phrases(src.toks));
    assert all == (g.groups + [g.group]) + Groups([], Phrases(src.toks[i + 1..]));
    assert all[..MAX_PIPE_SEGMENTS] == g.groups + [g.group];
    IdsOfAllSnoc(g.done, cmd);
  }

  method ParseTokens(heap: Heap, env: Env, tokens: array<Option<nat>>, count: nat, ghost src: Source)
    returns (p: Pipeline, ghost owned: map<nat, string>, ghost lost: multiset<nat>, ghost stop: nat)
    requires Holds(heap, tokens, src.base, src.before, src.toks) && count == |src.toks|
    requires (forall q | q in src.before :: q < src.base) && Ready(src, env)
    modifies heap
    ensures Parsed(heap, src, env, p, owned, lost, stop)
  {
    hide Layout, Reads, Parsed, Ready;
    var i := 0;
    var commands: seq<Cmd<nat>>, cmd: Cmd<nat> := [], NoCmd();
    ghost var g := Progress(map[], [], [], [], multiset{});
    Begin(heap, src, env, g);
    while i < count
      invariant 0 <= i <= count && commands == g.done && |g.done| < MAX_PIPE_SEGMENTS
      invariant At(heap, src, env, i, g, cmd)
    {
      LayoutToken(heap, src, i, g.owned);
      var tok := tokens[i].value;
      if heap.cells[tok] == "|" {
        if |commands| + 1 >= MAX_PIPE_SEGMENTS {
          Overflowed(heap, src, env, i, g, cmd);
          return Pipeline(commands + [cmd], MAX_PIPE_SEGMENTS + 1), g.owned, g.lost, i;
        }
        ReadsBar(src, env, i, g, cmd);
        FreeToken(heap, tok, src, i, g.owned);
        g := EndCommand(g, cmd);
        commands, cmd := commands + [cmd], NoCmd();
        i := i + 1;
      } else {
        i, cmd, g := ReadPhrase(heap, env, tokens, count, i, cmd, src, g);
      }
    }
    Finished(heap, src, env, g, cmd);
    return Pipeline(commands + [cmd], |commands| + 1), g.owned, g.lost, |src.toks|;
  }

  lemma Begin(heap: Heap, src: Source, env: Env, g: Progress)
    requires heap.Valid() && heap.next == src.base + |src.toks|
    requires heap.cells == src.before + StringsAt(src.base, src.toks)
    requires forall q | q in src.before :: q < src.base
    requires g == Progress(map[], [], [], [], multiset{})
    ensures At(heap, src, env, 0, g, NoCmd())
  {
    assert src.toks[0..] == src.toks;
    assert src.before + StringsAt(src.base, src.toks) + map[] == src.before + StringsAt(src.base, src.toks);
  }
}
