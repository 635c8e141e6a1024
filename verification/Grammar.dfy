/** shell/src/parser.c: what parse_line reads in a token list, without buffers or heap. */
module Grammar {
  import opened Wrappers
  import opened Expansion

  /** One step of the token loop. A redirect operator takes the next token, whatever it is. */
  datatype Phrase = Bar | Amp | Redir(op: string, operand: Option<string>) | Arg(word: string)

  predicate IsRedirOp(t: string) {
    t == "<" || t == ">" || t == ">>" || t == "2>"
  }

  predicate IsOperator(t: string) {
    t == "|" || t == "&" || IsRedirOp(t)
  }

  function Phrases(tokens: seq<string>): seq<Phrase> {
    if tokens == [] then []
    else if tokens[0] == "|" then [Bar] + Phrases(tokens[1..])
    else if tokens[0] == "&" then [Amp] + Phrases(tokens[1..])
    else if IsRedirOp(tokens[0]) then
      if |tokens| == 1 then [Redir(tokens[0], None)]
      else [Redir(tokens[0], Some(tokens[1]))] + Phrases(tokens[2..])
    else [Arg(tokens[0])] + Phrases(tokens[1..])
  }

  function Flatten(ps: seq<Phrase>): seq<string> {
    if ps == [] then []
    else
      (match ps[0]
       case Bar => ["|"]
       case Amp => ["&"]
       case Redir(op, None) => [op]
       case Redir(op, Some(file)) => [op, file]
       case Arg(word) => [word])
      + Flatten(ps[1..])
  }

  /** The phrase lists a reader can produce: only the last operator may lack its operand. */
  ghost predicate WellFormed(ps: seq<Phrase>) {
    ps == [] ||
    (&& (ps[0].Redir? ==> IsRedirOp(ps[0].op) && (ps[0].operand.None? ==> |ps| == 1))
     && (ps[0].Arg? ==> !IsOperator(ps[0].word))
     && WellFormed(ps[1..]))
  }

  /** Reading loses no token and invents none, and reads every phrase list in only one way. */
  lemma {:induction false} PhrasesOfTokens(tokens: seq<string>)
    ensures Flatten(Phrases(tokens)) == tokens && WellFormed(Phrases(tokens))
    decreases |tokens|
  {
    hide IsRedirOp, Phrases, Flatten, WellFormed;
    if tokens == [] || (|tokens| == 1 && IsRedirOp(tokens[0])) {
      LastPhrase(tokens);
    } else {
      var p, n := NextPhrase(tokens);
      PhrasesOfTokens(tokens[n..]);
      OnePhrase(p, Phrases(tokens[n..]));
      assert tokens[..n] + tokens[n..] == tokens;
    }
  }

  lemma LastPhrase(tokens: seq<string>)
    requires tokens == [] || (|tokens| == 1 && IsRedirOp(tokens[0]))
    ensures Flatten(Phrases(tokens)) == tokens && WellFormed(Phrases(tokens))
  {
    if tokens != [] {
      assert Phrases(tokens)[1..] == [] && [tokens[0]] + [] == tokens;
    }
  }

  /** The first phrase and how many tokens it takes. */
  lemma NextPhrase(tokens: seq<string>) returns (p: Phrase, n: nat)
    requires tokens != [] && !(|tokens| == 1 && IsRedirOp(tokens[0]))
    ensures 0 < n <= |tokens| && Phrases(tokens) == [p] + Phrases(tokens[n..]) && Flatten([p]) == tokens[..n]
    ensures (p.Redir? ==> IsRedirOp(p.op) && p.operand.Some?) && (p.Arg? ==> !IsOperator(p.word))
  {
    var t := tokens[0];
    n := 1;
    if t == "|" {
      p := Bar;
    } else if t == "&" {
      p := Amp;
    } else if IsRedirOp(t) {
      p, n := Redir(t, Some(tokens[1])), 2;
    } else {
      p := Arg(t);
    }
    hide IsRedirOp;
    assert [p][1..] == [];
  }

  lemma OnePhrase(p: Phrase, ps: seq<Phrase>)
    requires WellFormed(ps) && (p.Redir? ==> IsRedirOp(p.op) && p.operand.Some?) && (p.Arg? ==> !IsOperator(p.word))
    ensures WellFormed([p] + ps) && Flatten([p] + ps) == Flatten([p]) + Flatten(ps)
  {
    assert ([p] + ps)[1..] == ps && [p][1..] == [];
  }

  lemma {:induction false} TokensOfPhrases(ps: seq<Phrase>)
    requires WellFormed(ps)
    ensures Phrases(Flatten(ps)) == ps
  {
    if ps != [] {
      TokensOfPhrases(ps[1..]);
      var rest := Flatten(ps[1..]);
      assert ps == [ps[0]] + ps[1..];
      match ps[0]
      case Bar => assert (["|"] + rest)[1..] == rest;
      case Amp => assert (["&"] + rest)[1..] == rest;
      case Redir(op, None) => assert ps[1..] == [] && rest == [] && [op] + rest == [op];
      case Redir(op, Some(file)) => assert ([op, file] + rest)[2..] == rest;
      case Arg(word) => assert ([word] + rest)[1..] == rest;
    }
  }

  /** The commands between separators, after a first command already begun with `group`. */
  function Groups(group: seq<Phrase>, ps: seq<Phrase>): (r: seq<seq<Phrase>>)
    ensures |r| > 0
    decreases |ps|
  {
    if ps == [] then [group]
    else if ps[0].Bar? then [group] + Groups([], ps[1..])
    else Groups(group + [ps[0]], ps[1..])
  }

  function Bars(ps: seq<Phrase>): nat {
    if ps == [] then 0 else (if ps[0].Bar? then 1 else 0) + Bars(ps[1..])
  }

  lemma {:induction false} GroupCount(group: seq<Phrase>, ps: seq<Phrase>)
    ensures |Groups(group, ps)| == Bars(ps) + 1
    decreases |ps|
  {
    if ps == [] {
    } else if ps[0].Bar? {
      GroupCount([], ps[1..]);
    } else {
      GroupCount(group + [ps[0]], ps[1..]);
    }
  }

  /** The groups with a separator between each two. */
  function Joined(groups: seq<seq<Phrase>>): seq<Phrase> {
    if groups == [] then [] else if |groups| == 1 then groups[0] else groups[0] + ([Bar] + Joined(groups[1..]))
  }

  /** The groups are what stands between the separators: joined again they are the phrases, and none of them holds
      a separator. */
  lemma {:induction false} GroupsJoin(group: seq<Phrase>, ps: seq<Phrase>)
    requires Bar !in group
    ensures Joined(Groups(group, ps)) == group + ps
    ensures forall i | 0 <= i < |Groups(group, ps)| :: Bar !in Groups(group, ps)[i]
    decreases |ps|
  {
    hide Joined;
    if ps == [] {
      JoinedOne(group);
      assert group + ps == group;
    } else if ps[0].Bar? {
      GroupsJoin([], ps[1..]);
      var more := Groups([], ps[1..]);
      JoinedMore(group, more);
      assert [] + ps[1..] == ps[1..] && [Bar] + ps[1..] == ps;
    } else {
      GroupsJoin(group + [ps[0]], ps[1..]);
      assert group + [ps[0]] + ps[1..] == group + ps;
    }
  }

  lemma JoinedOne(group: seq<Phrase>)
    ensures Joined([group]) == group
  {
  }

  lemma JoinedMore(group: seq<Phrase>, more: seq<seq<Phrase>>)
    requires more != []
    ensures Joined([group] + more) == group + ([Bar] + Joined(more))
  {
    assert ([group] + more)[1..] == more;
  }

  // ---- One command ----

  /** A command whose strings are of type S: text in the specification, heap numbers in the code. */
  datatype Cmd<+S> = Cmd(argv: seq<S>, stdin: Option<S>, stdout: Option<S>, stderr: Option<S>,
                         stdoutAppend: bool, background: bool)

  function NoCmd<S>(): Cmd<S> {
    Cmd([], None, None, None, false, false)
  }

  function WithRedirect<S>(c: Cmd<S>, op: string, file: S): Cmd<S>
    requires IsRedirOp(op)
  {
    if op == "<" then c.(stdin := Some(file))
    else if op == "2>" then c.(stderr := Some(file))
    else c.(stdout := Some(file), stdoutAppend := op == ">>")
  }

  function Apply(c: Cmd<string>, p: Phrase, env: Env): Cmd<string> {
    match p
    case Bar => c
    case Amp => c.(background := true)
    case Redir(op, None) => c
    case Redir(op, Some(file)) => if IsRedirOp(op) then WithRedirect(c, op, Expanded(file, env)) else c
    case Arg(word) => c.(argv := c.argv + [Expanded(word, env)])
  }

  /** The command that a group of phrases describes. */
  function CmdOf(group: seq<Phrase>, env: Env): Cmd<string> {
    if group == [] then NoCmd()
    else Apply(CmdOf(group[..|group| - 1], env), group[|group| - 1], env)
  }

  lemma CmdOfSnoc(group: seq<Phrase>, p: Phrase, env: Env)
    ensures CmdOf(group + [p], env) == Apply(CmdOf(group, env), p, env)
  {
    assert (group + [p])[..|group|] == group;
  }

  /** The words of a group, in order. */
  function Args(group: seq<Phrase>): seq<string> {
    if group == [] then []
    else
      var front, last := Args(group[..|group| - 1]), group[|group| - 1];
      if last.Arg? then front + [last.word] else front
  }

  /** The words of a run of phrases are those of its parts, and of a single phrase the word itself. */
  lemma {:induction false} ArgsOfSum(a: seq<Phrase>, b: seq<Phrase>)
    ensures Args(a + b) == Args(a) + Args(b)
    ensures forall p: Phrase :: Args([p]) == if p.Arg? then [p.word] else []
    decreases |b|
  {
    assert forall p: Phrase :: [p][..0] == [];
    if b == [] {
      assert a + b == a && Args(a) + [] == Args(a);
    } else {
      var front, last := b[..|b| - 1], b[|b| - 1];
      assert (a + b)[..|a + b| - 1] == a + front;
      ArgsOfSum(a, front);
      assert last.Arg? ==> Args(a) + (Args(front) + [last.word]) == (Args(a) + Args(front)) + [last.word];
    }
  }

  function ExpandedAll(words: seq<string>, env: Env): (r: seq<string>)
    ensures |r| == |words| && forall i | 0 <= i < |words| :: r[i] == Expanded(words[i], env)
  {
    seq(|words|, i requires 0 <= i < |words| => Expanded(words[i], env))
  }

  datatype Kind = In | Out | Err

  predicate IsRedirect(p: Phrase, kind: Kind) {
    && p.Redir? && p.operand.Some?
    && match kind
       case In => p.op == "<"
       case Out => p.op == ">" || p.op == ">>"
       case Err => p.op == "2>"
  }

  function FileOf<S>(c: Cmd<S>, kind: Kind): Option<S> {
    match kind case In => c.stdin case Out => c.stdout case Err => c.stderr
  }

  /** `k` is the last redirect of its kind in the group. */
  ghost predicate IsLast(group: seq<Phrase>, kind: Kind, k: nat) {
    && k < |group| && IsRedirect(group[k], kind)
    && forall j | k < j < |group| :: !IsRedirect(group[j], kind)
  }

  lemma {:induction false} CmdArgs(group: seq<Phrase>, env: Env)
    ensures CmdOf(group, env).argv == ExpandedAll(Args(group), env)
    ensures CmdOf(group, env).background <==> Amp in group
  {
    hide Expanded, WithRedirect, IsRedirOp, ExpandedAll;
    if group == [] {
      NothingExpanded(env);
    } else {
      var front, last := group[..|group| - 1], group[|group| - 1];
      CmdArgs(front, env);
      if last.Arg? {
        OneMoreExpanded(Args(front), last.word, env);
      } else if last.Redir? && last.operand.Some? && IsRedirOp(last.op) {
        RedirectKeeps(CmdOf(front, env), last.op, Expanded(last.operand.value, env));
      }
      assert group == front + [last];
    }
  }

  lemma NothingExpanded(env: Env)
    ensures ExpandedAll([], env) == []
  {
  }

  lemma OneMoreExpanded(words: seq<string>, word: string, env: Env)
    ensures ExpandedAll(words + [word], env) == ExpandedAll(words, env) + [Expanded(word, env)]
  {
  }

  lemma RedirectKeeps<S>(c: Cmd<S>, op: string, file: S)
    requires IsRedirOp(op)
    ensures var c' := WithRedirect(c, op, file);
            c'.argv == c.argv && c'.background == c.background
  {
  }

  /** The last redirect of each kind wins; a kind never redirected stays unset. */
  lemma {:induction false} LastRedirectWins(group: seq<Phrase>, env: Env, kind: Kind)
    ensures FileOf(CmdOf(group, env), kind).None? ==>
              (forall j | 0 <= j < |group| :: !IsRedirect(group[j], kind))
              && (kind == Out ==> !CmdOf(group, env).stdoutAppend)
    ensures FileOf(CmdOf(group, env), kind).Some? ==>
              exists k: nat :: IsLast(group, kind, k)
                && FileOf(CmdOf(group, env), kind) == Some(Expanded(group[k].operand.value, env))
                && (kind == Out ==> CmdOf(group, env).stdoutAppend == (group[k].op == ">>"))
  {
    hide Expanded;
    if group != [] {
      var n := |group| - 1;
      var front := group[..n];
      LastRedirectWins(front, env, kind);
      if IsRedirect(group[n], kind) {
        assert IsLast(group, kind, n);
      } else if FileOf(CmdOf(front, env), kind).Some? {
        var k: nat :| IsLast(front, kind, k)
          && FileOf(CmdOf(front, env), kind) == Some(Expanded(front[k].operand.value, env))
          && (kind == Out ==> CmdOf(front, env).stdoutAppend == (front[k].op == ">>"));
        assert IsLast(group, kind, k);
      }
    }
  }

  // ---- Redirects that are lost ----

  /** How many redirects of this kind a group has. */
  function Count(group: seq<Phrase>, kind: Kind): nat {
    if group == [] then 0
    else Count(group[..|group| - 1], kind) + if IsRedirect(group[|group| - 1], kind) then 1 else 0
  }

  function Surplus(n: nat): nat {
    if n == 0 then 0 else n - 1
  }

  /** The redirects of a group that a later one of the same kind overwrites. */
  function Overwritten(group: seq<Phrase>): nat {
    Surplus(Count(group, In)) + Surplus(Count(group, Out)) + Surplus(Count(group, Err))
  }

  function OverwrittenIn(groups: seq<seq<Phrase>>): nat {
    if groups == [] then 0 else OverwrittenIn(groups[..|groups| - 1]) + Overwritten(groups[|groups| - 1])
  }

  lemma {:induction false} CountZero(group: seq<Phrase>, env: Env, kind: Kind)
    ensures Count(group, kind) == 0 <==> FileOf(CmdOf(group, env), kind).None?
  {
    if group != [] {
      CountZero(group[..|group| - 1], env, kind);
    }
  }
}
