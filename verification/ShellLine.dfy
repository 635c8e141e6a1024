/** One line through the shell: parse_line of shell/src/parser.c, and the loop of main in
    shell/src/szshell.c that frees what it returned. */
module ShellLine {
  import opened CHeap
  import opened CText
  import opened Expansion
  import opened Grammar
  import opened Lexer
  import opened ParseLine
  import opened Quoting
  import opened ShellLimits
  import opened Wrappers

  // ---- Tokens are C strings ----

  lemma {:induction false} SingleQuotedClean(s: string, acc: string)
    requires IsCString(s) && IsCString(acc)
    ensures IsCString(SingleQuoted(s, acc).text) && IsCString(SingleQuoted(s, acc).rest)
  {
    if s != "" && s[0] != '\'' {
      SingleQuotedClean(s[1..], acc + [s[0]]);
    }
  }

  lemma {:induction false} DoubleQuotedClean(s: string, acc: string)
    requires IsCString(s) && IsCString(acc)
    ensures IsCString(DoubleQuoted(s, acc).text) && IsCString(DoubleQuoted(s, acc).rest)
  {
    if s == "" || s[0] == '"' {
    } else if s[0] == '\\' && |s| > 1 {
      DoubleQuotedClean(s[2..], acc + [s[1]]);
    } else {
      DoubleQuotedClean(s[1..], acc + [s[0]]);
    }
  }

  lemma {:induction false} WordClean(s: string, acc: string)
    requires IsCString(s) && IsCString(acc)
    ensures IsCString(Word(s, acc).text) && IsCString(Word(s, acc).rest)
  {
    if EndsWord(s) {
    } else if s[0] == '\\' && |s| > 1 {
      WordClean(s[2..], acc + [s[1]]);
    } else {
      WordClean(s[1..], acc + [s[0]]);
    }
  }

  lemma {:induction false} SkipSpacesClean(s: string)
    requires IsCString(s)
    ensures IsCString(SkipSpaces(s))
  {
    if s != "" && IsSpace(s[0]) {
      SkipSpacesClean(s[1..]);
    }
  }

  lemma PieceClean(s: string)
    requires IsCString(s) && s != "" && !IsSpace(s[0])
    ensures IsCString(NextPiece(s).text) && IsCString(NextPiece(s).rest)
  {
    if s[0] == '\'' {
      SingleQuotedClean(s[1..], "");
    } else if s[0] == '"' {
      DoubleQuotedClean(s[1..], "");
    } else {
      WordClean(s, "");
    }
  }

  lemma {:induction false} LexClean(s: string)
    requires IsCString(s)
    ensures forall i | 0 <= i < |Lex(s)| :: IsCString(Lex(s)[i])
    decreases |s|
  {
    var t := SkipSpaces(s);
    SkipSpacesClean(s);
    if t != "" {
      PieceClean(t);
      LexClean(NextPiece(t).rest);
    }
  }

  lemma TokensClean(line: string)
    requires IsCString(line)
    ensures forall i | 0 <= i < |Tokens(line)| :: IsCString(Tokens(line)[i])
  {
    LexClean(line);
    forall i | 0 <= i < |Tokens(line)| ensures IsCString(Tokens(line)[i]) {
      assert Tokens(line)[i] == Clip(Lex(line)[i]);
    }
  }

  // ---- parse_line ----

  /** parse_line: an empty line, a comment and a line without tokens give no command and leave the heap
      alone; any other line gives what `Parsed` says. */
  method Parse(heap: Heap, env: Env, line: string)
    returns (p: Pipeline, ghost owned: map<nat, string>, ghost lost: multiset<nat>, ghost stop: nat)
    requires heap.Valid() && IsCString(line) && IsEnv(env) && AllFit(Tokens(line), env)
    modifies heap
    ensures p.count == 0 <==> LineGroups(line) == []
    ensures LineGroups(line) == [] ==> p == Pipeline([], 0) && heap.Valid() && heap.cells == old(heap.cells)
    ensures LineGroups(line) != [] ==>
              Parsed(heap, Source(old(heap.cells), old(heap.next), Tokens(line)), env, p, owned, lost, stop)
  {
    p, owned, lost, stop := Pipeline([], 0), map[], multiset{}, 0;
    if line == "" || line[0] == '#' {
      return;
    }
    ghost var src := Source(heap.cells, heap.next, Tokens(line));
    var tokens, count := Tokenize(heap, line);
    if count == 0 {
      assert heap.cells == src.before + map[];
      return;
    }
    TokensClean(line);
    p, owned, lost, stop := ParseTokens(heap, env, tokens, count, src);
  }

  // ---- The freeing loop ----

  lemma RemoveKey(left: map<nat, string>, q: nat, ids: multiset<nat>)
    requires q in left && ids <= multiset(left.Keys)
    ensures multiset((left - {q}).Keys) == multiset(left.Keys) - multiset{q}
  {
    assert (left - {q}).Keys == left.Keys - {q};
  }

  /** One free: `kept` is not touched, `left` loses the string. */
  method FreeOwned(heap: Heap, q: nat, ghost kept: map<nat, string>, ghost left: map<nat, string>)
    returns (ghost left': map<nat, string>)
    requires heap.Valid() && heap.cells == kept + left && kept.Keys !! left.Keys && q in left
    modifies heap
    ensures heap.Valid() && heap.cells == kept + left' && kept.Keys !! left'.Keys
    ensures multiset(left'.Keys) == multiset(left.Keys) - multiset{q}
  {
    left' := left - {q};
    RemoveKey(left, q, multiset{});
    heap.Free(q);
  }

  method FreeFile(heap: Heap, f: Option<nat>, ghost kept: map<nat, string>, ghost left: map<nat, string>)
    returns (ghost left': map<nat, string>)
    requires heap.Valid() && heap.cells == kept + left && kept.Keys !! left.Keys && IdOf(f) <= multiset(left.Keys)
    modifies heap
    ensures heap.Valid() && heap.cells == kept + left' && kept.Keys !! left'.Keys
    ensures multiset(left'.Keys) == multiset(left.Keys) - IdOf(f)
  {
    left' := left;
    if f.Some? {
      assert f.value in multiset(left.Keys);
      left' := FreeOwned(heap, f.value, kept, left);
    }
  }

  method FreeArgs(heap: Heap, argv: seq<nat>, ghost kept: map<nat, string>, ghost left: map<nat, string>)
    returns (ghost left': map<nat, string>)
    requires heap.Valid() && heap.cells == kept + left && kept.Keys !! left.Keys
    requires multiset(argv) <= multiset(left.Keys)
    modifies heap
    ensures heap.Valid() && heap.cells == kept + left' && kept.Keys !! left'.Keys
    ensures multiset(left'.Keys) == multiset(left.Keys) - multiset(argv)
  {
    left' := left;
    var j := 0;
    while j < |argv|
      invariant 0 <= j <= |argv| && heap.Valid() && heap.cells == kept + left' && kept.Keys !! left'.Keys
      invariant multiset(left'.Keys) + multiset(argv[..j]) == multiset(left.Keys)
    {
      assert argv == argv[..j] + [argv[j]] + argv[j + 1..];
      assert multiset(argv)[argv[j]] >= multiset(argv[..j])[argv[j]] + 1;
      assert argv[j] in multiset(left'.Keys);
      left' := FreeOwned(heap, argv[j], kept, left');
      assert argv[..j + 1] == argv[..j] + [argv[j]];
      j := j + 1;
    }
    assert argv[..j] == argv;
  }

  /** The body of the outer loop: every string the command holds is freed exactly once. */
  method FreeCommand(heap: Heap, c: Cmd<nat>, ghost kept: map<nat, string>, ghost left: map<nat, string>)
    returns (ghost left': map<nat, string>)
    requires heap.Valid() && heap.cells == kept + left && kept.Keys !! left.Keys && Ids(c) <= multiset(left.Keys)
    modifies heap
    ensures heap.Valid() && heap.cells == kept + left' && kept.Keys !! left'.Keys
    ensures multiset(left'.Keys) == multiset(left.Keys) - Ids(c)
  {
    left' := FreeArgs(heap, c.argv, kept, left);
    left' := FreeFile(heap, c.stdin, kept, left');
    left' := FreeFile(heap, c.stdout, kept, left');
    left' := FreeFile(heap, c.stderr, kept, left');
  }

  lemma IdsPrefix(cs: seq<Cmd<nat>>, i: nat)
    requires i < |cs|
    ensures IdsOfAll(cs[..i + 1]) == IdsOfAll(cs[..i]) + Ids(cs[i])
  {
    assert cs[..i + 1][..i] == cs[..i];
  }

  lemma {:induction false} IdsPrefixWithin(cs: seq<Cmd<nat>>, i: nat)
    requires i <= |cs|
    ensures IdsOfAll(cs[..i]) <= IdsOfAll(cs)
    decreases |cs|
  {
    hide Ids;
    if i == |cs| {
      assert cs[..i] == cs;
    } else {
      var front := cs[..|cs| - 1];
      IdsPrefixWithin(front, i);
      assert front[..i] == cs[..i];
    }
  }

  /** What is left still holds the next command's strings. */
  lemma RoomFor(left: multiset<nat>, freed: multiset<nat>, ids: multiset<nat>, all: multiset<nat>, lost: multiset<nat>)
    requires left + freed == all + lost && freed + ids <= all
    ensures ids <= left && (left - ids) + (freed + ids) == all + lost
  {
    forall q ensures ids[q] <= left[q] {
      assert (freed + ids)[q] <= all[q] && (left + freed)[q] == (all + lost)[q];
    }
    forall q ensures ((left - ids) + (freed + ids))[q] == (all + lost)[q] {
      assert ids[q] <= left[q] && (left + freed)[q] == (all + lost)[q];
    }
  }

  lemma Cancel(left: multiset<nat>, all: multiset<nat>, lost: multiset<nat>)
    requires left + all == all + lost
    ensures left == lost
  {
    forall q ensures left[q] == lost[q] {
      assert (left + all)[q] == (all + lost)[q];
    }
  }

  /** main's freeing loop. What it leaves of the owned strings is exactly the lost ones. */
  method FreePipeline(heap: Heap, p: Pipeline, ghost kept: map<nat, string>, ghost owned: map<nat, string>,
                      ghost lost: multiset<nat>)
    returns (ghost left: map<nat, string>)
    requires heap.Valid() && heap.cells == kept + owned && kept.Keys !! owned.Keys
    requires p.count == |p.commands| && multiset(owned.Keys) == IdsOfAll(p.commands) + lost
    modifies heap
    ensures heap.Valid() && heap.cells == kept + left && kept.Keys !! left.Keys
    ensures multiset(left.Keys) == lost
  {
    left := owned;
    ghost var rest, freed, all := multiset(owned.Keys), multiset{}, IdsOfAll(p.commands);
    var i := 0;
    while i < p.count
      invariant 0 <= i <= p.count && heap.Valid() && heap.cells == kept + left && kept.Keys !! left.Keys
      invariant rest == multiset(left.Keys) && freed == IdsOfAll(p.commands[..i]) && rest + freed == all + lost
    {
      ghost var ids := Ids(p.commands[i]);
      IdsPrefix(p.commands, i);
      IdsPrefixWithin(p.commands, i + 1);
      RoomFor(rest, freed, ids, all, lost);
      left := FreeCommand(heap, p.commands[i], kept, left);
      rest, freed := rest - ids, freed + ids;
      i := i + 1;
    }
    assert p.commands[..i] == p.commands;
    Cancel(rest, all, lost);
  }

  lemma HeapAfter(before: map<nat, string>, left: map<nat, string>, lost: multiset<nat>)
    requires before.Keys !! left.Keys && multiset(left.Keys) == lost
    ensures |(before + left).Keys| == |before.Keys| + |lost|
    ensures before + left == before <==> |lost| == 0
  {
    assert (before + left).Keys == before.Keys + left.Keys;
    assert |lost| == |left.Keys|;
    if |lost| == 0 {
      assert left.Keys == {};
      assert before + left == before;
    } else {
      var q :| q in left.Keys;
      assert q in before + left;
    }
  }

  /** A parse of at most sixteen groups leaves no token behind. */
  lemma ParsedWhole(heap: Heap, src: Source, env: Env, p: Pipeline, owned: map<nat, string>,
                    lost: multiset<nat>, stop: nat)
    requires Parsed(heap, src, env, p, owned, lost, stop)
    requires |Groups([], Phrases(src.toks))| <= MAX_PIPE_SEGMENTS
    ensures heap.Valid() && heap.cells == src.before + owned && src.before.Keys !! owned.Keys
    ensures 0 < p.count == |p.commands| && multiset(owned.Keys) == IdsOfAll(p.commands) + lost
    ensures |lost| == OverwrittenIn(Groups([], Phrases(src.toks)))
  {
    hide OverwrittenIn, IdsOfAll, Groups, Phrases;
    assert src.toks[stop..] == [];
    assert src.before + StringsAt(src.base + stop, []) == src.before;
  }

  /** The count that parse_line returns stays within the commands array just when the line names at most sixteen
      commands; the freeing loop reads past the array otherwise. */
  lemma CountWithinArray(heap: Heap, src: Source, env: Env, p: Pipeline, owned: map<nat, string>,
                         lost: multiset<nat>, stop: nat)
    requires Parsed(heap, src, env, p, owned, lost, stop)
    ensures p.count == |p.commands| <==> |Groups([], Phrases(src.toks))| <= MAX_PIPE_SEGMENTS
    ensures p.count > |p.commands| ==> p.count == MAX_PIPE_SEGMENTS + 1 && |p.commands| == MAX_PIPE_SEGMENTS
  {
  }

  /** A line's whole life. The caller's obligation is the source's: the loop indexes commands[count-1],
      so the line may name at most sixteen commands. The heap comes back as it was, except for one
      string for every overwritten redirect. */
  method RunLine(heap: Heap, env: Env, line: string)
    requires heap.Valid() && IsCString(line) && IsEnv(env) && AllFit(Tokens(line), env)
    requires |LineGroups(line)| <= MAX_PIPE_SEGMENTS
    modifies heap
    ensures heap.Valid() && old(heap.cells).Keys <= heap.cells.Keys
    ensures forall q | q in old(heap.cells) :: heap.cells[q] == old(heap.cells)[q]
    ensures |heap.cells.Keys| == |old(heap.cells).Keys| + OverwrittenIn(LineGroups(line))
    ensures heap.cells == old(heap.cells) <==> OverwrittenIn(LineGroups(line)) == 0
  {
    var p, owned, lost, stop := Parse(heap, env, line);
    ghost var before := old(heap.cells);
    if p.count == 0 {
      return;
    }
    ParsedWhole(heap, Source(before, old(heap.next), Tokens(line)), env, p, owned, lost, stop);
    var left := FreePipeline(heap, p, before, owned, lost);
    HeapAfter(before, left, lost);
  }

  /** No string is lost exactly when no command has two redirects of the same kind. */
  lemma {:induction false} NothingOverwritten(groups: seq<seq<Phrase>>)
    ensures OverwrittenIn(groups) == 0 <==>
            forall k, kind | 0 <= k < |groups| :: Count(groups[k], kind) <= 1
  {
    if groups != [] {
      var n := |groups| - 1;
      NothingOverwritten(groups[..n]);
      assert forall k | 0 <= k < n :: groups[..n][k] == groups[k];
      if Overwritten(groups[n]) == 0 {
        forall kind ensures Count(groups[n], kind) <= 1 {
          match kind case In => case Out => case Err =>
        }
      } else {
        assert Count(groups[n], In) > 1 || Count(groups[n], Out) > 1 || Count(groups[n], Err) > 1;
      }
      if OverwrittenIn(groups[..n]) != 0 {
        var k, kind :| 0 <= k < n && Count(groups[..n][k], kind) > 1;
        assert Count(groups[k], kind) > 1;
      }
    }
  }

  // ---- A written line read as a command ----

  /** The line is one foreground command with exactly these arguments and no redirect. */
  ghost predicate ReadsAs(line: string, env: Env, args: seq<string>) {
    |LineGroups(line)| == 1 && CmdOf(LineGroups(line)[0], env) == NoCmd().(argv := args)
  }

  function ArgPhrases(words: seq<string>): (r: seq<Phrase>)
    ensures |r| == |words| && forall i | 0 <= i < |words| :: r[i] == Arg(words[i])
  {
    seq(|words|, i requires 0 <= i < |words| => Arg(words[i]))
  }

  lemma {:induction false} WordsAreArgs(words: seq<string>)
    requires forall i | 0 <= i < |words| :: !IsOperator(words[i])
    ensures Phrases(words) == ArgPhrases(words)
  {
    if words != [] {
      WordsAreArgs(words[1..]);
      assert ArgPhrases(words) == [Arg(words[0])] + ArgPhrases(words[1..]);
    }
  }

  lemma {:induction false} OneGroup(group: seq<Phrase>, ps: seq<Phrase>)
    requires forall i | 0 <= i < |ps| :: !ps[i].Bar?
    ensures Groups(group, ps) == [group + ps]
    decreases |ps|
  {
    if ps == [] {
      assert group + ps == group;
    } else {
      OneGroup(group + [ps[0]], ps[1..]);
      assert group + [ps[0]] + ps[1..] == group + ps;
    }
  }

  lemma {:induction false} CmdOfArgs(words: seq<string>, env: Env)
    ensures CmdOf(ArgPhrases(words), env) == NoCmd().(argv := ExpandedAll(words, env))
  {
    if words != [] {
      var n := |words| - 1;
      CmdOfArgs(words[..n], env);
      assert ArgPhrases(words)[..n] == ArgPhrases(words[..n]);
      assert ExpandedAll(words, env) == ExpandedAll(words[..n], env) + [Expanded(words[n], env)];
    }
  }

  lemma {:induction false} FewerArgs(ps: seq<Phrase>)
    ensures |Args(ps)| <= |ps|
    ensures (exists i :: 0 <= i < |ps| && !ps[i].Arg?) ==> |Args(ps)| < |ps|
  {
    if ps != [] {
      var front := ps[..|ps| - 1];
      FewerArgs(front);
      if i :| 0 <= i < |ps| && !ps[i].Arg? {
        if i < |front| {
          assert !front[i].Arg?;
        }
      }
    }
  }

  lemma {:induction false} FlattenLength(ps: seq<Phrase>)
    ensures |ps| <= |Flatten(ps)|
  {
    if ps != [] {
      FlattenLength(ps[1..]);
    }
  }

  lemma {:induction false} AllArgs(ps: seq<Phrase>)
    requires WellFormed(ps) && forall i | 0 <= i < |ps| :: ps[i].Arg?
    ensures forall i | 0 <= i < |Flatten(ps)| :: !IsOperator(Flatten(ps)[i])
  {
    if ps != [] {
      AllArgs(ps[1..]);
    }
  }

  /** A line with an operator word loses at least that word. */
  lemma OperatorCosts(words: seq<string>, env: Env)
    requires exists i :: 0 <= i < |words| && IsOperator(words[i])
    ensures var groups := Groups([], Phrases(words));
            |groups| == 1 ==> |CmdOf(groups[0], env).argv| < |words|
  {
    var ps := Phrases(words);
    PhrasesOfTokens(words);
    var i :| 0 <= i < |words| && IsOperator(words[i]);
    if forall k | 0 <= k < |ps| :: ps[k].Arg? {
      AllArgs(ps);
      assert false;
    }
    GroupCount([], ps);
    if |Groups([], ps)| == 1 {
      NoBars(ps);
      OneGroup([], ps);
      assert [] + ps == ps;
      FewerArgs(ps);
      FlattenLength(ps);
      CmdArgs(ps, env);
    }
  }

  lemma PlainWords(words: seq<string>, env: Env)
    requires forall i | 0 <= i < |words| :: !IsOperator(words[i])
    ensures var groups := Groups([], Phrases(words));
            |groups| == 1 && CmdOf(groups[0], env) == NoCmd().(argv := ExpandedAll(words, env))
  {
    WordsAreArgs(words);
    OneGroup([], ArgPhrases(words));
    assert [] + ArgPhrases(words) == ArgPhrases(words);
    CmdOfArgs(words, env);
  }

  lemma {:induction false} NoBars(ps: seq<Phrase>)
    requires Bars(ps) == 0
    ensures forall i | 0 <= i < |ps| :: !ps[i].Bar?
  {
    if ps != [] {
      NoBars(ps[1..]);
    }
  }

  /** From written words to a command's arguments: the line is one command with those words, expanded,
      as its arguments exactly when no word spells an operator and the line is not a comment. Quoting
      does not protect an operator, since the tokens no longer say how they were written. */
  lemma WrittenLineReadsBack(items: seq<Item>, tail: string, env: Env)
    requires items != [] && Writable(items, false) && AllSpaces(tail)
    requires |items| < MAX_ARGS && forall i | 0 <= i < |items| :: |items[i].word| < MAX_LINE_LENGTH
    ensures var line := Render(items, tail);
            line != "" &&
            (ReadsAs(line, env, ExpandedAll(Words(items), env)) <==>
             line[0] != '#' && forall i | 0 <= i < |items| :: !IsOperator(items[i].word))
  {
    var line, words := Render(items, tail), Words(items);
    TokenizeUndoesQuoting(items, tail);
    assert Lex("") == [];
    if line[0] == '#' {
      assert LineGroups(line) == [];
    } else {
      assert LineGroups(line) == Groups([], Phrases(words));
      if i :| 0 <= i < |items| && IsOperator(items[i].word) {
        assert IsOperator(words[i]);
        OperatorCosts(words, env);
      } else {
        PlainWords(words, env);
      }
    }
  }
}
