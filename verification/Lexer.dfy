/** shell/src/parser.c: the tokenizer. A line is its characters without the terminator;
    `Peek` reads the terminator at index |line| and nothing past it. */
module Lexer {
  import opened CHeap
  import opened CText
  import opened Seqs
  import opened ShellLimits
  import opened Wrappers

  ghost predicate IsCString(s: string) {
    forall i | 0 <= i < |s| :: s[i] != '\0'
  }

  function Peek(line: string, p: nat): char
    requires p <= |line|
  {
    if p == |line| then '\0' else line[p]
  }

  /** The characters that end an unquoted word. */
  predicate IsOperatorChar(c: char) {
    c == '|' || c == '&' || c == ';' || c == '>' || c == '<'
  }

  // ---- Specification: one quoted piece, word or operator at a time, without any buffer ----

  datatype Piece = Piece(text: string, rest: string)

  /** What follows an opening single quote, after the characters `acc`. */
  function SingleQuoted(s: string, acc: string): (r: Piece)
    ensures |r.rest| <= |s|
  {
    if s == "" then Piece(acc, "")
    else if s[0] == '\'' then Piece(acc, s[1..])
    else SingleQuoted(s[1..], acc + [s[0]])
  }

  /** What follows an opening double quote; a backslash keeps any next character. */
  function DoubleQuoted(s: string, acc: string): (r: Piece)
    ensures |r.rest| <= |s|
  {
    if s == "" then Piece(acc, "")
    else if s[0] == '"' then Piece(acc, s[1..])
    else if s[0] == '\\' && |s| > 1 then DoubleQuoted(s[2..], acc + [s[1]])
    else DoubleQuoted(s[1..], acc + [s[0]])
  }

  predicate EndsWord(s: string) {
    s == "" || IsSpace(s[0]) || IsOperatorChar(s[0])
  }

  function Word(s: string, acc: string): (r: Piece)
    ensures |r.rest| <= |s|
    ensures !EndsWord(s) ==> |r.rest| < |s|
  {
    if EndsWord(s) then Piece(acc, s)
    else if s[0] == '\\' && |s| > 1 then Word(s[2..], acc + [s[1]])
    else Word(s[1..], acc + [s[0]])
  }

  /** The piece that starts at the first non-space character. */
  function NextPiece(s: string): (r: Piece)
    requires s != "" && !IsSpace(s[0])
    ensures |r.rest| < |s|
  {
    if s[0] == '\'' then SingleQuoted(s[1..], "")
    else if s[0] == '"' then DoubleQuoted(s[1..], "")
    else if s[0] == '|' || s[0] == '&' || s[0] == ';' then Piece([s[0]], s[1..])
    else if s[0] == '>' && |s| > 1 && s[1] == '>' then Piece(">>", s[2..])
    else if s[0] == '2' && |s| > 1 && s[1] == '>' then Piece("2>", s[2..])
    else if s[0] == '>' || s[0] == '<' then Piece([s[0]], s[1..])
    else Word(s, "")
  }

  /** Every token of the line, untruncated; empty pieces are dropped. */
  function Lex(s: string): seq<string>
    decreases |s|
  {
    var t := SkipSpaces(s);
    if t == "" then []
    else
      var x := NextPiece(t);
      (if x.text == "" then [] else [x.text]) + Lex(x.rest)
  }

  /** The token buffer keeps the first 4095 characters. */
  function Clip(s: string): string {
    Truncate(s, MAX_LINE_LENGTH)
  }

  function ClipAll(ss: seq<string>): (r: seq<string>)
    ensures |r| == |ss| && forall i | 0 <= i < |ss| :: r[i] == Clip(ss[i])
  {
    seq(|ss|, i requires 0 <= i < |ss| => Clip(ss[i]))
  }

  /** What tokenize keeps of a line: its first 255 tokens, each clipped. */
  function Tokens(line: string): seq<string> {
    var all := ClipAll(Lex(line));
    if |all| < MAX_ARGS then all else all[..MAX_ARGS - 1]
  }

  // ---- The scanning loops ----

  /** `token[ti++] = c` under the bound the source checks. */
  method Put(token: array<char>, ti: nat, c: char, ghost acc: string) returns (ti': nat)
    requires token.Length == MAX_LINE_LENGTH && ti < MAX_LINE_LENGTH && token[..ti] == Clip(acc)
    modifies token
    ensures ti' < MAX_LINE_LENGTH && token[..ti'] == Clip(acc + [c])
  {
    ti' := ti;
    if ti < MAX_LINE_LENGTH - 1 {
      token[ti] := c;
      ti' := ti + 1;
      assert token[..ti'] == acc + [c];
    }
  }

  method CopySingleQuoted(line: string, start: nat, token: array<char>) returns (p: nat, ti: nat)
    requires IsCString(line) && start <= |line| && token.Length == MAX_LINE_LENGTH
    modifies token
    ensures p <= |line| && line[p..] == SingleQuoted(line[start..], "").rest
    ensures ti < MAX_LINE_LENGTH && token[..ti] == Clip(SingleQuoted(line[start..], "").text)
  {
    p, ti := start, 0;
    ghost var acc := "";
    while Peek(line, p) != '\0' && Peek(line, p) != '\''
      invariant p <= |line| && ti < MAX_LINE_LENGTH && token[..ti] == Clip(acc)
      invariant SingleQuoted(line[start..], "") == SingleQuoted(line[p..], acc)
      decreases |line| - p
    {
      assert line[p..][1..] == line[p + 1..];
      ti := Put(token, ti, line[p], acc);
      acc := acc + [line[p]];
      p := p + 1;
    }
    if Peek(line, p) == '\'' {
      assert line[p..][1..] == line[p + 1..];
      p := p + 1;
    }
  }

  /** Where the character kept at `p` stands: after the backslash, when one escapes it. */
  ghost function KeptAt(line: string, p: nat): (q: nat)
    requires p < |line|
    ensures p <= q < |line|
  {
    if line[p] == '\\' && p + 1 < |line| then p + 1 else p
  }

  lemma DoubleQuotedStep(line: string, p: nat, acc: string)
    requires p < |line| && line[p] != '"'
    ensures var q := KeptAt(line, p);
            DoubleQuoted(line[p..], acc) == DoubleQuoted(line[q + 1..], acc + [line[q]])
  {
    assert line[p..][1..] == line[p + 1..];
    if p + 1 < |line| {
      assert line[p..][2..] == line[p + 2..];
    }
  }

  /** The guard of the loop over an unquoted word. */
  predicate InWord(line: string, p: nat)
    requires p <= |line|
  {
    var c := Peek(line, p);
    c != '\0' && !IsSpace(c) && !IsOperatorChar(c)
  }

  lemma WordStep(line: string, p: nat, acc: string)
    requires IsCString(line) && p <= |line|
    ensures if InWord(line, p) then
              var q := KeptAt(line, p);
              Word(line[p..], acc) == Word(line[q + 1..], acc + [line[q]])
            else Word(line[p..], acc) == Piece(acc, line[p..])
  {
    if p < |line| {
      assert line[p..][1..] == line[p + 1..];
      if p + 1 < |line| {
        assert line[p..][2..] == line[p + 2..];
      }
    }
  }

  method CopyDoubleQuoted(line: string, start: nat, token: array<char>) returns (p: nat, ti: nat)
    requires IsCString(line) && start <= |line| && token.Length == MAX_LINE_LENGTH
    modifies token
    ensures p <= |line| && line[p..] == DoubleQuoted(line[start..], "").rest
    ensures ti < MAX_LINE_LENGTH && token[..ti] == Clip(DoubleQuoted(line[start..], "").text)
  {
    hide DoubleQuoted, Clip;
    NothingClipped();
    p, ti := start, 0;
    ghost var acc, whole := "", DoubleQuoted(line[start..], "");
    while Peek(line, p) != '\0' && Peek(line, p) != '"'
      invariant p <= |line| && ti < MAX_LINE_LENGTH && token[..ti] == Clip(acc)
      invariant whole == DoubleQuoted(line[p..], acc)
      decreases |line| - p
    {
      DoubleQuotedStep(line, p, acc);
      if Peek(line, p) == '\\' && Peek(line, p + 1) != '\0' {
        p := p + 1;
      }
      ti := Put(token, ti, line[p], acc);
      acc := acc + [line[p]];
      p := p + 1;
    }
    DoubleQuotedEnds(line, p, acc);
    if Peek(line, p) == '"' {
      p := p + 1;
    }
  }

  lemma NothingClipped()
    ensures Clip("") == ""
  {
  }

  lemma DoubleQuotedEnds(line: string, p: nat, acc: string)
    requires p <= |line| && (p < |line| ==> line[p] == '"')
    ensures DoubleQuoted(line[p..], acc).text == acc
    ensures DoubleQuoted(line[p..], acc).rest == line[if p < |line| then p + 1 else p..]
  {
    if p < |line| {
      assert line[p..][1..] == line[p + 1..];
    }
  }

  method CopyWord(line: string, start: nat, token: array<char>) returns (p: nat, ti: nat)
    requires IsCString(line) && start <= |line| && token.Length == MAX_LINE_LENGTH
    modifies token
    ensures p <= |line| && line[p..] == Word(line[start..], "").rest
    ensures ti < MAX_LINE_LENGTH && token[..ti] == Clip(Word(line[start..], "").text)
  {
    hide Word, Clip, InWord;
    NothingClipped();
    p, ti := start, 0;
    ghost var acc, whole := "", Word(line[start..], "");
    while InWord(line, p)
      invariant p <= |line| && ti < MAX_LINE_LENGTH && token[..ti] == Clip(acc)
      invariant whole == Word(line[p..], acc)
      decreases |line| - p
    {
      p, ti, acc := CopyNext(line, p, token, ti, acc);
    }
    WordStep(line, p, acc);
  }

  /** One turn of the loop: a backslash is passed over, and the character goes to the buffer. */
  method CopyNext(line: string, p: nat, token: array<char>, ti: nat, ghost acc: string)
    returns (p': nat, ti': nat, ghost acc': string)
    requires IsCString(line) && p <= |line| && InWord(line, p)
    requires token.Length == MAX_LINE_LENGTH && ti < MAX_LINE_LENGTH && token[..ti] == Clip(acc)
    modifies token
    ensures p < p' <= |line| && ti' < MAX_LINE_LENGTH && token[..ti'] == Clip(acc')
    ensures Word(line[p'..], acc') == Word(line[p..], acc)
  {
    WordStep(line, p, acc);
    hide Word, Clip;
    ghost var q := KeptAt(line, p);
    p' := p;
    if line[p'] == '\\' && Peek(line, p' + 1) != '\0' {
      p' := p' + 1;
    }
    assert p' == q;
    ti' := Put(token, ti, line[p'], acc);
    acc' := acc + [line[p']];
    p' := p' + 1;
  }

  method SkipBlanks(line: string, start: nat) returns (p: nat)
    requires IsCString(line) && start <= |line|
    ensures start <= p <= |line| && line[p..] == SkipSpaces(line[start..])
  {
    p := start;
    while Peek(line, p) != '\0' && IsSpace(Peek(line, p))
      invariant start <= p <= |line|
      invariant SkipSpaces(line[start..]) == SkipSpaces(line[p..])
      decreases |line| - p
    {
      assert line[p..][1..] == line[p + 1..];
      p := p + 1;
    }
  }

  /** One pass of the main loop's body after the blanks: fills `token` with the piece at `start`. */
  method CopyPiece(line: string, start: nat, token: array<char>) returns (p: nat, ti: nat)
    requires IsCString(line) && start < |line| && !IsSpace(line[start])
    requires token.Length == MAX_LINE_LENGTH
    modifies token
    ensures start < p <= |line| && line[p..] == NextPiece(line[start..]).rest
    ensures ti < MAX_LINE_LENGTH && token[..ti] == Clip(NextPiece(line[start..]).text)
  {
    ghost var s := line[start..];
    var c := Peek(line, start);
    assert s[1..] == line[start + 1..];
    if c == '\'' {
      p, ti := CopySingleQuoted(line, start + 1, token);
    } else if c == '"' {
      p, ti := CopyDoubleQuoted(line, start + 1, token);
    } else if c == '|' || c == '&' || c == ';' {
      token[0] := c;
      p, ti := start + 1, 1;
    } else if c == '>' && Peek(line, start + 1) == '>' {
      token[0], token[1] := '>', '>';
      p, ti := start + 2, 2;
      assert s[2..] == line[p..];
    } else if c == '2' && Peek(line, start + 1) == '>' {
      token[0], token[1] := '2', '>';
      p, ti := start + 2, 2;
      assert s[2..] == line[p..];
    } else if c == '>' || c == '<' {
      token[0] := c;
      p, ti := start + 1, 1;
    } else {
      p, ti := CopyWord(line, start, token);
    }
    assert |line[p..]| < |s|;
  }

  /** The heap strings numbered from `base` on, in `tokens` order, are `done`; the rest is `before`. */
  ghost predicate Holds(heap: Heap, tokens: array<Option<nat>>, base: nat, before: map<nat, string>,
                        done: seq<string>)
    reads heap, tokens
  {
    && heap.Valid() && heap.next == base + |done|
    && heap.cells == before + StringsAt(base, done)
    && tokens.Length == MAX_ARGS && |done| < MAX_ARGS
    && forall i | 0 <= i < |done| :: tokens[i] == Some(base + i)
  }

  /** `tokens[*count] = strdup(token); (*count)++` */
  method Append(heap: Heap, tokens: array<Option<nat>>, count: nat, s: string,
                ghost base: nat, ghost before: map<nat, string>, ghost done: seq<string>)
    requires Holds(heap, tokens, base, before, done) && count == |done| < MAX_ARGS - 1
    modifies heap, tokens
    ensures Holds(heap, tokens, base, before, done + [s])
  {
    var q := heap.Strdup(s);
    tokens[count] := Some(q);
    StringsAtExtend(base, done, s);
    StringsAtCells(base, done);
  }

  /** `tokens[*count] = NULL` */
  method Terminate(heap: Heap, tokens: array<Option<nat>>, ghost base: nat, ghost before: map<nat, string>,
                   count: nat, ghost done: seq<string>)
    requires Holds(heap, tokens, base, before, done) && count == |done|
    modifies tokens
    ensures Holds(heap, tokens, base, before, done) && tokens[count] == None
  {
    tokens[count] := None;
  }

  /** The tokens of `s`, given where its first piece starts. */
  lemma LexStep(s: string, t: string)
    requires t == SkipSpaces(s)
    ensures t == "" ==> ClipAll(Lex(s)) == []
    ensures t != "" ==>
              var x := NextPiece(t);
              ClipAll(Lex(s)) == (if x.text == "" then [] else [Clip(x.text)]) + ClipAll(Lex(x.rest))
  {
  }

  /** The loop body up to the strdup: blanks, then one piece in the token buffer. */
  method CopyToken(line: string, start: nat) returns (p: nat, text: string)
    requires IsCString(line) && start < |line|
    ensures start < p <= |line|
    ensures ClipAll(Lex(line[start..])) == (if text == "" then [] else [text]) + ClipAll(Lex(line[p..]))
  {
    p := SkipBlanks(line, start);
    LexStep(line[start..], line[p..]);
    if Peek(line, p) == '\0' {
      return p, "";
    }
    var token := new char[MAX_LINE_LENGTH];
    var ti;
    p, ti := CopyPiece(line, p, token);
    text := token[..ti];
  }

  /** When the loop stops, either nothing is left or 255 tokens are done. */
  lemma Stopped(line: string, done: seq<string>, left: seq<string>)
    requires ClipAll(Lex(line)) == done + left && |done| < MAX_ARGS
    requires left == [] || |done| == MAX_ARGS - 1
    ensures done == Tokens(line)
  {
    var all := ClipAll(Lex(line));
    assert done == all[..|done|];
    if left == [] {
      assert done == all;
    }
  }

  /** parser.c's tokenize: the token vector holds fresh heap strings at consecutive numbers,
      ends in NULL, and the strings are exactly `Tokens(line)`. */
  method Tokenize(heap: Heap, line: string) returns (tokens: array<Option<nat>>, count: nat)
    requires heap.Valid() && IsCString(line)
    modifies heap
    ensures fresh(tokens) && count == |Tokens(line)| && count < tokens.Length
    ensures Holds(heap, tokens, old(heap.next), old(heap.cells), Tokens(line))
    ensures tokens[count] == None
  {
    tokens := new Option<nat>[MAX_ARGS](_ => None);
    count := 0;
    var p := 0;
    ghost var base, before := heap.next, heap.cells;
    assert line[0..] == line;
    ghost var total := ClipAll(Lex(line));
    ghost var done: seq<string>, left := [], total;
    while Peek(line, p) != '\0' && count < MAX_ARGS - 1
      invariant p <= |line| && |done| == count
      invariant left == ClipAll(Lex(line[p..])) && total == done + left
      invariant Holds(heap, tokens, base, before, done)
      decreases |line| - p
    {
      var text;
      p, text := CopyToken(line, p);
      left := ClipAll(Lex(line[p..]));
      Assoc(done, if text == "" then [] else [text], left);
      if text != "" {
        Append(heap, tokens, count, text, base, before, done);
        count := count + 1;
        done := done + [text];
      } else {
        assert done + [] == done;
      }
    }
    Stopped(line, done, left);
    Terminate(heap, tokens, base, before, count, done);
  }
}
