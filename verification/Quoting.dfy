/** Writing words so that the tokenizer of shell/src/parser.c reads them back. */
module Quoting {
  import opened CText
  import opened Lexer
  import opened ShellLimits

  /** The three ways to write a word. `esc[i]` says whether character i carries a backslash. */
  datatype Style = Single | Double(esc: seq<bool>) | Plain(esc: seq<bool>)

  datatype Item = Item(gap: string, word: string, style: Style)

  predicate AllSpaces(s: string) {
    forall i | 0 <= i < |s| :: IsSpace(s[i])
  }

  /** The characters an unquoted word must escape. */
  predicate MustEscape(c: char) {
    IsSpace(c) || IsOperatorChar(c) || c == '\\'
  }

  predicate EscapesDouble(w: string, esc: seq<bool>) {
    |esc| == |w| && forall i | 0 <= i < |w| :: w[i] == '"' || w[i] == '\\' ==> esc[i]
  }

  predicate EscapesPlain(w: string, esc: seq<bool>) {
    |esc| == |w| && forall i | 0 <= i < |w| :: MustEscape(w[i]) ==> esc[i]
  }

  predicate CanWrite(w: string, style: Style) {
    w != "" &&
    match style
    case Single => forall i | 0 <= i < |w| :: w[i] != '\''
    case Double(esc) => EscapesDouble(w, esc)
    case Plain(esc) => EscapesPlain(w, esc) && (w[0] == '\'' || w[0] == '"' ==> esc[0])
  }

  function Escape(w: string, esc: seq<bool>): string
    requires |esc| == |w|
  {
    if w == "" then "" else (if esc[0] then ['\\', w[0]] else [w[0]]) + Escape(w[1..], esc[1..])
  }

  function Write(w: string, style: Style): string
    requires CanWrite(w, style)
  {
    match style
    case Single => "'" + w + "'"
    case Double(esc) => "\"" + Escape(w, esc) + "\""
    case Plain(esc) => Escape(w, esc)
  }

  /** Every word can be written as asked, and blanks separate any two words. */
  predicate Writable(items: seq<Item>, gapNeeded: bool) {
    items == [] ||
    (&& AllSpaces(items[0].gap) && (gapNeeded ==> items[0].gap != "")
     && CanWrite(items[0].word, items[0].style)
     && Writable(items[1..], true))
  }

  function Render(items: seq<Item>, tail: string): string
    requires exists gapNeeded :: Writable(items, gapNeeded)
  {
    if items == [] then tail
    else
      assert Writable(items[1..], true);
      items[0].gap + Write(items[0].word, items[0].style) + Render(items[1..], tail)
  }

  function Words(items: seq<Item>): (r: seq<string>)
    ensures |r| == |items| && forall i | 0 <= i < |items| :: r[i] == items[i].word
  {
    seq(|items|, i requires 0 <= i < |items| => items[i].word)
  }

  lemma {:induction false} SkipSpacesOver(gap: string, s: string)
    requires AllSpaces(gap) && (s != "" ==> !IsSpace(s[0]))
    ensures SkipSpaces(gap + s) == s
  {
    if gap == "" {
      assert gap + s == s;
    } else {
      assert (gap + s)[1..] == gap[1..] + s;
      SkipSpacesOver(gap[1..], s);
    }
  }

  lemma {:induction false} SingleQuotedReadsBack(w: string, acc: string, rest: string)
    requires forall i | 0 <= i < |w| :: w[i] != '\''
    ensures SingleQuoted(w + "'" + rest, acc) == Piece(acc + w, rest)
  {
    var s := w + "'" + rest;
    if w == "" {
      assert s[1..] == rest && acc + w == acc;
    } else {
      assert s[1..] == w[1..] + "'" + rest;
      assert acc + [w[0]] + w[1..] == acc + w;
      SingleQuotedReadsBack(w[1..], acc + [w[0]], rest);
    }
  }

  lemma {:induction false} DoubleQuotedReadsBack(w: string, esc: seq<bool>, acc: string, rest: string)
    requires EscapesDouble(w, esc)
    ensures DoubleQuoted(Escape(w, esc) + "\"" + rest, acc) == Piece(acc + w, rest)
  {
    var s := Escape(w, esc) + "\"" + rest;
    if w == "" {
      assert s[1..] == rest && acc + w == acc;
    } else {
      var s' := Escape(w[1..], esc[1..]) + "\"" + rest;
      assert if esc[0] then s == ['\\', w[0]] + s' else s == [w[0]] + s';
      assert s[if esc[0] then 2 else 1..] == s';
      assert acc + [w[0]] + w[1..] == acc + w;
      DoubleQuotedReadsBack(w[1..], esc[1..], acc + [w[0]], rest);
    }
  }

  lemma {:induction false} WordReadsBack(w: string, esc: seq<bool>, acc: string, rest: string)
    requires EscapesPlain(w, esc) && EndsWord(rest)
    ensures Word(Escape(w, esc) + rest, acc) == Piece(acc + w, rest)
  {
    var s := Escape(w, esc) + rest;
    if w == "" {
      assert s == rest && acc + w == acc;
    } else {
      var s' := Escape(w[1..], esc[1..]) + rest;
      assert if esc[0] then s == ['\\', w[0]] + s' else s == [w[0]] + s';
      assert s[if esc[0] then 2 else 1..] == s';
      assert acc + [w[0]] + w[1..] == acc + w;
      WordReadsBack(w[1..], esc[1..], acc + [w[0]], rest);
    }
  }

  lemma SinglePiece(w: string, rest: string)
    requires CanWrite(w, Single)
    ensures NextPiece(Write(w, Single) + rest) == Piece(w, rest)
  {
    SingleQuotedReadsBack(w, "", rest);
    assert (Write(w, Single) + rest)[1..] == w + "'" + rest;
    assert "" + w == w;
  }

  lemma DoublePiece(w: string, esc: seq<bool>, rest: string)
    requires CanWrite(w, Double(esc))
    ensures NextPiece(Write(w, Double(esc)) + rest) == Piece(w, rest)
  {
    DoubleQuotedReadsBack(w, esc, "", rest);
    assert (Write(w, Double(esc)) + rest)[1..] == Escape(w, esc) + "\"" + rest;
    assert "" + w == w;
  }

  lemma PlainPiece(w: string, esc: seq<bool>, rest: string)
    requires CanWrite(w, Plain(esc)) && (rest == "" || IsSpace(rest[0]))
    ensures NextPiece(Write(w, Plain(esc)) + rest) == Piece(w, rest)
  {
    PlainStartsWord(w, esc, rest);
    WordReadsBack(w, esc, "", rest);
    assert "" + w == w;
  }

  /** An unquoted word is not mistaken for a quote, an operator or `2>`. */
  lemma PlainStartsWord(w: string, esc: seq<bool>, rest: string)
    requires CanWrite(w, Plain(esc)) && (rest == "" || IsSpace(rest[0]))
    ensures var s := Escape(w, esc) + rest;
            s != "" && !IsSpace(s[0]) && NextPiece(s) == Word(s, "")
  {
    if !esc[0] && |w| > 1 {
      assert Escape(w, esc) == [w[0]] + Escape(w[1..], esc[1..]);
      assert Escape(w[1..], esc[1..])[0] == if esc[1] then '\\' else w[1];
    }
  }

  /** A written word is one piece whatever blank or end of line follows it. */
  lemma PieceReadsBack(w: string, style: Style, rest: string)
    requires CanWrite(w, style) && (rest == "" || IsSpace(rest[0]))
    ensures var s := Write(w, style) + rest;
            s != "" && !IsSpace(s[0]) && NextPiece(s) == Piece(w, rest)
  {
    match style
    case Single => SinglePiece(w, rest);
    case Double(esc) => DoublePiece(w, esc, rest);
    case Plain(esc) => PlainPiece(w, esc, rest);
  }

  /** What Lex does with one written word. */
  lemma LexOne(gap: string, w: string, style: Style, rest: string)
    requires AllSpaces(gap) && CanWrite(w, style) && (rest == "" || IsSpace(rest[0]))
    ensures Lex(gap + Write(w, style) + rest) == [w] + Lex(rest)
  {
    hide Write, NextPiece, SkipSpaces, IsSpace;
    var s := Write(w, style) + rest;
    PieceReadsBack(w, style, rest);
    SkipSpacesOver(gap, s);
    assert gap + Write(w, style) + rest == gap + s;
  }

  lemma LexBlanks(tail: string)
    requires AllSpaces(tail)
    ensures Lex(tail) == []
  {
    SkipSpacesOver(tail, "");
    assert tail + "" == tail;
  }

  lemma {:induction false} LexReadsBack(items: seq<Item>, tail: string, gapNeeded: bool)
    requires Writable(items, gapNeeded) && AllSpaces(tail)
    ensures Lex(Render(items, tail)) == Words(items)
  {
    hide Lex, Write, CanWrite;
    if items == [] {
      LexBlanks(tail);
    } else {
      RestStartsBlank(items[1..], tail);
      LexOne(items[0].gap, items[0].word, items[0].style, Render(items[1..], tail));
      LexReadsBack(items[1..], tail, true);
      assert Words(items) == [items[0].word] + Words(items[1..]);
    }
  }

  lemma RestStartsBlank(items: seq<Item>, tail: string)
    requires Writable(items, true) && AllSpaces(tail)
    ensures var s := Render(items, tail); s == "" || IsSpace(s[0])
  {
  }

  /** Tokenising undoes quoting: any words, each written in any of the three styles with any
      optional backslashes, come back in order. Exactly the lines of at most 255 words of at most
      4095 characters come back whole. */
  lemma TokenizeUndoesQuoting(items: seq<Item>, tail: string)
    requires Writable(items, false) && AllSpaces(tail)
    ensures Lex(Render(items, tail)) == Words(items)
    ensures Tokens(Render(items, tail)) == Words(items) <==>
            |items| < MAX_ARGS && forall i | 0 <= i < |items| :: |items[i].word| < MAX_LINE_LENGTH
  {
    LexReadsBack(items, tail, false);
    var all := ClipAll(Words(items));
    if |items| < MAX_ARGS {
      if i :| 0 <= i < |items| && |items[i].word| >= MAX_LINE_LENGTH {
        assert all[i] != Words(items)[i];
      } else {
        assert all == Words(items);
      }
    }
  }
}
