/** Any line taken apart into the pieces it is written in, and what the tokenizer of shell/src/parser.c makes of
    them. */
module Lexemes {
  import opened CText
  import opened Lexer
  import opened Quoting
  import opened Seqs
  import opened ShellLimits

  /** Blanks; an operator; a quoted piece, closed or running to the end of the line; and an unquoted one. A piece
      that the line ends in may end in a backslash that escapes nothing. `esc[i]` says whether character i carries
      a backslash. */
  datatype Lexeme = Blanks(text: string) | Op(op: string)
                  | Single(word: string) | OpenSingle(word: string)
                  | Double(word: string, esc: seq<bool>) | OpenDouble(word: string, esc: seq<bool>, dangling: bool)
                  | Plain(word: string, esc: seq<bool>, dangling: bool)

  predicate IsBlank(c: char) {
    c == ' ' || c == '\t' || c == '\n' || c == '\U{0B}' || c == '\U{0C}' || c == '\r'
  }

  predicate IsOp(op: string) {
    op == "|" || op == "&" || op == ";" || op == "<" || op == ">" || op == ">>" || op == "2>"
  }

  /** What an unquoted piece ends at. */
  predicate EndsPlain(c: char) {
    IsBlank(c) || c == '|' || c == '&' || c == ';' || c == '<' || c == '>'
  }

  lemma EndChars(c: char)
    ensures IsBlank(c) <==> IsSpace(c)
    ensures EndsPlain(c) <==> IsSpace(c) || IsOperatorChar(c)
  {
  }

  function Slash(dangling: bool): string {
    if dangling then "\\" else ""
  }

  /** The escapes are given character by character. */
  predicate Shaped(x: Lexeme) {
    x.Double? || x.OpenDouble? || x.Plain? ==> |x.esc| == |x.word|
  }

  function Spelling(x: Lexeme): string
    requires Shaped(x)
  {
    match x
    case Blanks(text) => text
    case Op(op) => op
    case Single(word) => "'" + word + "'"
    case OpenSingle(word) => "'" + word
    case Double(word, esc) => "\"" + Escape(word, esc) + "\""
    case OpenDouble(word, esc, dangling) => "\"" + Escape(word, esc) + Slash(dangling)
    case Plain(word, esc, dangling) => Escape(word, esc) + Slash(dangling)
  }

  /** The token it stands for; none if it is empty. */
  function Token(x: Lexeme): string {
    match x
    case Blanks(_) => ""
    case Op(op) => op
    case Single(word) => word
    case OpenSingle(word) => word
    case Double(word, _) => word
    case OpenDouble(word, _, dangling) => word + Slash(dangling)
    case Plain(word, _, dangling) => word + Slash(dangling)
  }

  /** The piece is read as it is meant when `rest` follows it. */
  ghost predicate Readable(x: Lexeme, rest: string) {
    && Shaped(x)
    && match x
       case Blanks(text) => text != "" && forall i | 0 <= i < |text| :: IsBlank(text[i])
       case Op(op) => IsOp(op) && (op == ">" && rest != "" ==> rest[0] != '>')
       case Single(word) => '\'' !in word
       case OpenSingle(word) => '\'' !in word && rest == ""
       case Double(word, esc) => forall i | 0 <= i < |word| :: word[i] == '"' || word[i] == '\\' ==> esc[i]
       case OpenDouble(word, esc, _) =>
         (forall i | 0 <= i < |word| :: word[i] == '"' || word[i] == '\\' ==> esc[i]) && rest == ""
       case Plain(word, esc, dangling) =>
         && (forall i | 0 <= i < |word| :: EndsPlain(word[i]) || word[i] == '\\' ==> esc[i])
         && (if word == "" then dangling else word[0] == '\'' || word[0] == '"' ==> esc[0])
         && (rest != "" ==> !dangling && EndsPlain(rest[0]))
         && !(word == "2" && !esc[0] && rest != "" && rest[0] == '>')
  }

  function SpellAll(xs: seq<Lexeme>): string
    requires forall i | 0 <= i < |xs| :: Shaped(xs[i])
  {
    if xs == [] then "" else Spelling(xs[0]) + SpellAll(xs[1..])
  }

  ghost predicate AllReadable(xs: seq<Lexeme>)
    requires forall i | 0 <= i < |xs| :: Shaped(xs[i])
  {
    xs == [] || (Readable(xs[0], SpellAll(xs[1..])) && AllReadable(xs[1..]))
  }

  function AllTokens(xs: seq<Lexeme>): seq<string> {
    if xs == [] then [] else (if Token(xs[0]) == "" then [] else [Token(xs[0])]) + AllTokens(xs[1..])
  }

  // ---- One piece ----

  lemma {:induction false} SkipBlanks(text: string, rest: string)
    requires forall i | 0 <= i < |text| :: IsBlank(text[i])
    ensures SkipSpaces(text + rest) == SkipSpaces(rest)
  {
    if text == "" {
      assert text + rest == rest;
    } else {
      EndChars(text[0]);
      assert (text + rest)[1..] == text[1..] + rest;
      SkipBlanks(text[1..], rest);
    }
  }

  lemma SameStart(s: string, t: string)
    requires SkipSpaces(s) == SkipSpaces(t)
    ensures Lex(s) == Lex(t)
  {
  }

  lemma OnePieceLexes(s: string, text: string, rest: string)
    requires s != "" && !IsSpace(s[0]) && NextPiece(s) == Piece(text, rest)
    ensures Lex(s) == (if text == "" then [] else [text]) + Lex(rest)
  {
    hide NextPiece;
    assert SkipSpaces(s) == s;
  }

  lemma {:induction false} OpenSingleIs(word: string, acc: string)
    requires '\'' !in word
    ensures SingleQuoted(word, acc) == Piece(acc + word, "")
  {
    if word == "" {
      assert acc + word == acc;
    } else {
      assert acc + [word[0]] + word[1..] == acc + word;
      OpenSingleIs(word[1..], acc + [word[0]]);
    }
  }

  lemma EscapeStep(word: string, esc: seq<bool>, tail: string)
    requires |esc| == |word| && word != ""
    ensures var s := Escape(word, esc) + tail;
            var s' := Escape(word[1..], esc[1..]) + tail;
            && s != ""
            && if esc[0] then |s| > 1 && s[0] == '\\' && s[1] == word[0] && s[2..] == s' else s[0] == word[0] && s[1..] == s'
  {
    hide Escape;
    OneEscape(word, esc);
    var c, more := if esc[0] then ['\\', word[0]] else [word[0]], Escape(word[1..], esc[1..]);
    Assoc(c, more, tail);
    Split(c, more + tail);
  }

  lemma NoEscape(esc: seq<bool>)
    requires |esc| == 0
    ensures Escape("", esc) == ""
  {
  }

  lemma OneEscape(word: string, esc: seq<bool>)
    requires |esc| == |word| && word != ""
    ensures Escape(word, esc) == (if esc[0] then ['\\', word[0]] else [word[0]]) + Escape(word[1..], esc[1..])
  {
  }

  lemma {:induction false} OpenDoubleIs(word: string, esc: seq<bool>, dangling: bool, acc: string)
    requires |esc| == |word| && forall i | 0 <= i < |word| :: word[i] == '"' || word[i] == '\\' ==> esc[i]
    ensures DoubleQuoted(Escape(word, esc) + Slash(dangling), acc) == Piece(acc + (word + Slash(dangling)), "")
  {
    hide Escape;
    if word == "" {
      NoEscape(esc);
      PlusNothing(Slash(dangling));
      assert dangling ==> "\\"[1..] == "";
      PlusNothing(acc);
    } else {
      EscapeStep(word, esc, Slash(dangling));
      assert acc + [word[0]] + (word[1..] + Slash(dangling)) == acc + (word + Slash(dangling));
      OpenDoubleIs(word[1..], esc[1..], dangling, acc + [word[0]]);
    }
  }

  lemma {:induction false} PlainIs(word: string, esc: seq<bool>, dangling: bool, acc: string, rest: string)
    requires |esc| == |word| && forall i | 0 <= i < |word| :: EndsPlain(word[i]) || word[i] == '\\' ==> esc[i]
    requires rest != "" ==> !dangling && EndsPlain(rest[0])
    ensures Word(Escape(word, esc) + (Slash(dangling) + rest), acc) == Piece(acc + (word + Slash(dangling)), rest)
  {
    hide Escape, EndsPlain, IsBlank;
    var tail := Slash(dangling) + rest;
    if word == "" {
      NoEscape(esc);
      PlusNothing(tail);
      PlusNothing(Slash(dangling));
      PlusNothing(acc);
      if dangling {
        assert tail == "\\" && "\\"[1..] == "";
      } else {
        assert tail == rest;
        if rest != "" {
          EndChars(rest[0]);
        }
      }
    } else {
      EscapeStep(word, esc, tail);
      EndChars(word[0]);
      assert acc + [word[0]] + (word[1..] + Slash(dangling)) == acc + (word + Slash(dangling));
      PlainIs(word[1..], esc[1..], dangling, acc + [word[0]], rest);
    }
  }

  /** An unquoted piece is not mistaken for a quote, an operator or `2>`. */
  lemma PlainStarts(x: Lexeme, rest: string)
    requires x.Plain? && Readable(x, rest)
    ensures var s := Spelling(x) + rest;
            s != "" && !IsSpace(s[0]) && NextPiece(s) == Word(s, "")
  {
    hide Word;
    var word, esc, tail := x.word, x.esc, Slash(x.dangling) + rest;
    var s := Spelling(x) + rest;
    Assoc(Escape(word, esc), Slash(x.dangling), rest);
    if word == "" {
      assert s == "\\";
    } else {
      EndChars(word[0]);
      EscapeStep(word, esc, tail);
      if !esc[0] && |word| > 1 {
        EndChars(word[1]);
        EscapeStep(word[1..], esc[1..], tail);
        assert s[1] == s[1..][0];
      } else if !esc[0] && tail != "" {
        assert Escape(word[1..], esc[1..]) + tail == tail;
        assert s[1] == tail[0];
      }
    }
  }

  lemma OperatorPiece(op: string, rest: string)
    requires IsOp(op) && (op == ">" && rest != "" ==> rest[0] != '>')
    ensures var s := op + rest;
            s != "" && !IsSpace(s[0]) && NextPiece(s) == Piece(op, rest)
  {
    var s := op + rest;
    assert s[|op|..] == rest && forall i | 0 <= i < |op| :: s[i] == op[i];
    assert |op| == 1 ==> [op[0]] == op;
  }

  lemma PieceOf(x: Lexeme, rest: string)
    requires Readable(x, rest) && !x.Blanks?
    ensures var s := Spelling(x) + rest;
            s != "" && !IsSpace(s[0]) && NextPiece(s) == Piece(Token(x), rest)
  {
    hide NextPiece, SingleQuoted, DoubleQuoted, Word, Escape;
    PlusNothing(Token(x));
    match x
    case Op(op) => OperatorPiece(op, rest);
    case Single(word) =>
      SingleQuotedReadsBack(word, "", rest);
      Assoc("'", word, "'");
      AfterQuote('\'', word + "'", rest);
    case OpenSingle(word) =>
      OpenSingleIs(word, "");
      AfterQuote('\'', word, "");
      PlusNothing(word);
    case Double(word, esc) =>
      DoubleQuotedReadsBack(word, esc, "", rest);
      Assoc("\"", Escape(word, esc), "\"");
      AfterQuote('"', Escape(word, esc) + "\"", rest);
    case OpenDouble(word, esc, dangling) =>
      OpenDoubleIs(word, esc, dangling, "");
      Assoc("\"", Escape(word, esc), Slash(dangling));
      AfterQuote('"', Escape(word, esc) + Slash(dangling), "");
      PlusNothing(Escape(word, esc) + Slash(dangling));
    case Plain(word, esc, dangling) =>
      PlainStarts(x, rest);
      PlainIs(word, esc, dangling, "", rest);
      Assoc(Escape(word, esc), Slash(dangling), rest);
  }

  /** A quote begins a quoted piece. */
  lemma AfterQuote(quote: char, text: string, rest: string)
    requires quote == '\'' || quote == '"'
    ensures var s := [quote] + text + rest;
            && s != "" && !IsSpace(s[0])
            && NextPiece(s) == if quote == '"' then DoubleQuoted(text + rest, "") else SingleQuoted(text + rest, "")
  {
    hide SingleQuoted, DoubleQuoted;
    assert ([quote] + text + rest)[1..] == text + rest;
  }

  lemma OneLexeme(x: Lexeme, rest: string)
    requires Readable(x, rest)
    ensures Lex(Spelling(x) + rest) == (if Token(x) == "" then [] else [Token(x)]) + Lex(rest)
  {
    hide Lex, NextPiece;
    if x.Blanks? {
      SkipBlanks(x.text, rest);
      SameStart(x.text + rest, rest);
      PlusNothing(Lex(rest));
    } else {
      PieceOf(x, rest);
      OnePieceLexes(Spelling(x) + rest, Token(x), rest);
    }
  }

  // ---- Operators ----

  /** An operator is one token wherever it stands; only `>` must not run into another one. */
  lemma OperatorLexes(op: string, rest: string)
    requires op in {"|", "&", ";", "<", ">", ">>", "2>"} && (op == ">" && rest != "" ==> rest[0] != '>')
    ensures Lex(op + rest) == [op] + Lex(rest)
  {
    OneLexeme(Op(op), rest);
  }

  /** A written word ends where an operator begins. An unquoted one does not end at `2>`, whose digit belongs to it,
      and an unescaped `2` is itself part of an operator that begins with `>`. */
  lemma WordThenOperator(word: string, style: Style, op: string, rest: string)
    requires CanWrite(word, style) && op in {"|", "&", ";", "<", ">", ">>", "2>"}
    requires op == ">" && rest != "" ==> rest[0] != '>'
    requires style.Plain? ==> op != "2>" && !(word == "2" && !style.esc[0] && op[0] == '>')
    ensures Lex(Write(word, style) + (op + rest)) == [word, op] + Lex(rest)
  {
    hide Lex;
    var x := match style
      case Single => Lexeme.Single(word)
      case Double(esc) => Lexeme.Double(word, esc)
      case Plain(esc) => Lexeme.Plain(word, esc, false);
    assert style.Plain? ==> Spelling(x) == Write(word, style) + "" == Write(word, style);
    assert Token(x) == word;
    WrittenIsReadable(word, style, x, op + rest);
    OneLexeme(x, op + rest);
    OperatorLexes(op, rest);
    Assoc([word], [op], Lex(rest));
  }

  lemma WrittenIsReadable(word: string, style: Style, x: Lexeme, rest: string)
    requires CanWrite(word, style)
    requires x == match style
                  case Single => Lexeme.Single(word)
                  case Double(esc) => Lexeme.Double(word, esc)
                  case Plain(esc) => Lexeme.Plain(word, esc, false)
    requires style.Plain? && rest != "" ==> EndsPlain(rest[0]) && !(word == "2" && !style.esc[0] && rest[0] == '>')
    ensures Readable(x, rest)
  {
    forall c: char ensures EndsPlain(c) <==> IsSpace(c) || IsOperatorChar(c) {
      EndChars(c);
    }
  }

  // ---- Whole lines ----

  /** A line of readable pieces lexes to the tokens they stand for. */
  lemma {:induction false} LexemesRead(xs: seq<Lexeme>)
    requires (forall i | 0 <= i < |xs| :: Shaped(xs[i])) && AllReadable(xs)
    ensures Lex(SpellAll(xs)) == AllTokens(xs)
  {
    hide Lex, Readable, Spelling;
    if xs == [] {
      LexBlanks("");
    } else {
      OneLexeme(xs[0], SpellAll(xs[1..]));
      LexemesRead(xs[1..]);
    }
  }

  /** The characters before the first single quote. */
  lemma {:induction false} UpToSingle(s: string) returns (n: nat)
    ensures n <= |s| && '\'' !in s[..n] && (n < |s| ==> s[n] == '\'')
  {
    n := 0;
    if s != "" && s[0] != '\'' {
      n := UpToSingle(s[1..]);
      n := n + 1;
      assert s[..n] == [s[0]] + s[1..][..n - 1];
    }
  }

  /** What stands before the closing double quote, or before the end of the line. */
  lemma {:induction false} UpToDouble(s: string) returns (word: string, esc: seq<bool>, dangling: bool, rest: string)
    ensures |esc| == |word| && forall i | 0 <= i < |word| :: word[i] == '"' || word[i] == '\\' ==> esc[i]
    ensures s == Escape(word, esc) + (Slash(dangling) + rest) && |rest| <= |s|
    ensures rest != "" ==> rest[0] == '"' && !dangling
    decreases |s|
  {
    word, esc, dangling, rest := "", [], s == "\\", if s == "\\" then "" else s;
    if s == "" || s[0] == '"' || s == "\\" {
      assert s == Escape("", []) + (Slash(dangling) + rest);
    } else {
      var escaped := s[0] == '\\';
      var n := if escaped then 2 else 1;
      word, esc, dangling, rest := UpToDouble(s[n..]);
      Extended(s, n, word, esc, Slash(dangling) + rest);
      word, esc := [s[n - 1]] + word, [escaped] + esc;
    }
  }

  /** One character more in front. */
  lemma Extended(s: string, n: nat, word: string, esc: seq<bool>, tail: string)
    requires |esc| == |word| && (n == 1 || n == 2) && n <= |s| && s[n..] == Escape(word, esc) + tail
    requires n == 2 ==> s[0] == '\\'
    ensures s == Escape([s[n - 1]] + word, [n == 2] + esc) + tail
  {
    hide Escape;
    Split([s[n - 1]], word);
    Split([n == 2], esc);
    OneEscape([s[n - 1]] + word, [n == 2] + esc);
    FirstTwo(s, n);
    Assoc(s[..n], Escape(word, esc), tail);
  }

  lemma FirstTwo(s: string, n: nat)
    requires (n == 1 || n == 2) && n <= |s|
    ensures s == s[..n] + s[n..] && s[..n] == if n == 2 then [s[0], s[1]] else [s[0]]
  {
  }

  /** What stands before the end of an unquoted piece. */
  lemma {:induction false} UpToEnd(s: string) returns (word: string, esc: seq<bool>, dangling: bool, rest: string)
    ensures |esc| == |word| && forall i | 0 <= i < |word| :: EndsPlain(word[i]) || word[i] == '\\' ==> esc[i]
    ensures s == Escape(word, esc) + (Slash(dangling) + rest) && |rest| <= |s|
    ensures rest != "" ==> EndsPlain(rest[0]) && !dangling
    ensures s != "" && !EndsPlain(s[0]) ==> |rest| < |s| && (word == "" ==> dangling)
    ensures word != "" && !esc[0] ==> word[0] == s[0]
    decreases |s|
  {
    word, esc, dangling, rest := "", [], s == "\\", if s == "\\" then "" else s;
    if s == "" || EndsPlain(s[0]) || s == "\\" {
      assert s == Escape("", []) + (Slash(dangling) + rest);
    } else {
      var escaped := s[0] == '\\';
      var n := if escaped then 2 else 1;
      word, esc, dangling, rest := UpToEnd(s[n..]);
      Extended(s, n, word, esc, Slash(dangling) + rest);
      word, esc := [s[n - 1]] + word, [escaped] + esc;
    }
  }

  lemma FirstSingle(s: string) returns (x: Lexeme, rest: string)
    requires s != "" && s[0] == '\''
    ensures |rest| < |s| && Readable(x, rest) && s == Spelling(x) + rest
  {
    var n := UpToSingle(s[1..]);
    var word := s[1..][..n];
    if n < |s| - 1 {
      x, rest := Lexeme.Single(word), s[n + 2..];
      assert s == "'" + word + "'" + rest;
    } else {
      x, rest := OpenSingle(word), "";
      assert s == "'" + word + "";
    }
  }

  lemma FirstDouble(s: string) returns (x: Lexeme, rest: string)
    requires s != "" && s[0] == '"'
    ensures |rest| < |s| && Readable(x, rest) && s == Spelling(x) + rest
  {
    hide Escape;
    var word, esc, dangling, tail := UpToDouble(s[1..]);
    var text := Escape(word, esc);
    FirstTwo(s, 1);
    if tail != "" {
      x, rest := Lexeme.Double(word, esc), tail[1..];
      FirstTwo(tail, 1);
      PlusNothing(tail);
      Assoc("\"", text, "\"" + rest);
      Assoc("\"" + text, "\"", rest);
    } else {
      x, rest := OpenDouble(word, esc, dangling), "";
      PlusNothing(Slash(dangling));
      Assoc("\"", text, Slash(dangling));
      PlusNothing(Spelling(x));
    }
  }

  lemma FirstOp(s: string) returns (x: Lexeme, rest: string)
    requires s != "" && (s[0] in {'|', '&', ';', '<', '>'} || (s[0] == '2' && |s| > 1 && s[1] == '>'))
    ensures |rest| < |s| && Readable(x, rest) && s == Spelling(x) + rest
  {
    var n := if s[0] == '2' || (s[0] == '>' && |s| > 1 && s[1] == '>') then 2 else 1;
    x, rest := Op(s[..n]), s[n..];
    assert n == 2 ==> s[..n] == [s[0], s[1]];
    assert n == 1 ==> s[..n] == [s[0]];
    assert n == 1 && rest != "" ==> rest[0] == s[1];
  }

  lemma FirstPlain(s: string) returns (x: Lexeme, rest: string)
    requires s != "" && !EndsPlain(s[0]) && s[0] != '\'' && s[0] != '"' && !(s[0] == '2' && |s| > 1 && s[1] == '>')
    ensures |rest| < |s| && Readable(x, rest) && s == Spelling(x) + rest
  {
    var word, esc, dangling, tail := UpToEnd(s);
    x, rest := Lexeme.Plain(word, esc, dangling), tail;
    Assoc(Escape(word, esc), Slash(dangling), rest);
    if word == "2" && !esc[0] && rest != "" {
      EscapeStep(word, esc, Slash(dangling) + rest);
      assert Escape(word[1..], esc[1..]) + (Slash(dangling) + rest) == rest;
      assert s[1] == s[1..][0] == rest[0];
    }
  }

  /** The first piece of a line. */
  lemma FirstLexeme(s: string) returns (x: Lexeme, rest: string)
    requires s != ""
    ensures |rest| < |s| && Readable(x, rest) && s == Spelling(x) + rest
  {
    if IsBlank(s[0]) {
      x, rest := Blanks([s[0]]), s[1..];
    } else if s[0] == '\'' {
      x, rest := FirstSingle(s);
    } else if s[0] == '"' {
      x, rest := FirstDouble(s);
    } else if EndsPlain(s[0]) || (s[0] == '2' && |s| > 1 && s[1] == '>') {
      x, rest := FirstOp(s);
    } else {
      x, rest := FirstPlain(s);
    }
  }

  /** Every line is spelled by pieces that are read as they are meant. */
  lemma {:induction false} EveryLineSpelled(s: string) returns (xs: seq<Lexeme>)
    ensures (forall i | 0 <= i < |xs| :: Shaped(xs[i])) && SpellAll(xs) == s && AllReadable(xs)
    decreases |s|
  {
    hide Readable, Spelling;
    if s == "" {
      return [];
    }
    var x, rest := FirstLexeme(s);
    var more := EveryLineSpelled(rest);
    xs := [x] + more;
    ReadableIsShaped(x, rest);
    assert xs[1..] == more;
    assert forall i | 0 < i < |xs| :: xs[i] == more[i - 1];
  }

  lemma ReadableIsShaped(x: Lexeme, rest: string)
    requires Readable(x, rest)
    ensures Shaped(x)
  {
  }

  /** So every line lexes to the tokens that its pieces stand for; of these the first 255 are kept, and of each its
      first 4095 characters. */
  lemma EveryLineMeans(line: string) returns (xs: seq<Lexeme>)
    ensures (forall i | 0 <= i < |xs| :: Shaped(xs[i])) && SpellAll(xs) == line && AllReadable(xs)
    ensures Lex(line) == AllTokens(xs)
    ensures |Tokens(line)| == if |AllTokens(xs)| < MAX_ARGS then |AllTokens(xs)| else MAX_ARGS - 1
    ensures forall i | 0 <= i < |Tokens(line)| :: Tokens(line)[i] == Take(AllTokens(xs)[i], MAX_LINE_LENGTH - 1)
  {
    hide Lex, AllTokens, SpellAll, AllReadable;
    xs := EveryLineSpelled(line);
    LexemesRead(xs);
  }
}
