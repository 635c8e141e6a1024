/** The daemon's text protocol, shell to daemon: the message formatting of shell/src/crypto_cmds.c
    and the field extraction of crypticengine/daemon/crypticd.c. */
module Messages {
  import opened Wrappers
  import opened CText

  const SEARCH_SIZE: nat := 128

  // ---- The daemon's side ----

  /** The search pattern of extract_field (`quoted`) or extract_int. */
  function Pattern(k: string, quoted: bool): string {
    "\"" + k + "\":" + if quoted then "\"" else ""
  }

  /** The pointer past the first occurrence of the search pattern. */
  function PastPattern(json: string, field: string, quoted: bool): Option<string> {
    var search := Truncate(Pattern(field, quoted), SEARCH_SIZE);
    match Strstr(json, search)
    case None => None
    case Some(i) => Some(json[i + |search|..])
  }

  /** A quoted value: what stands before the next quote. */
  function ReadQuoted(start: string): Option<string> {
    match BeforeQuote(start)
    case None => None
    case Some(len) => Some(start[..len])
  }

  /** extract_field: what stands between the pattern `"field":"` and the next quote. */
  function ExtractField(json: string, field: string): Option<string> {
    match PastPattern(json, field, true)
    case None => None
    case Some(start) => ReadQuoted(start)
  }

  /** extract_int: atoi of what follows the pattern `"field":`, or -1. */
  function ExtractInt(json: string, field: string): int {
    match PastPattern(json, field, false)
    case None => -1
    case Some(start) => Atoi(start)
  }

  /** On any text at all: NULL when the pattern is not there or no quote follows it, else what stands up to the next
      quote; and -1 for a number whose pattern is not there. */
  lemma ExtractExactly(json: string, k: string)
    requires IsKey(k)
    ensures match Strstr(json, "\"" + k + "\":\"")
            case None => ExtractField(json, k) == None
            case Some(i) =>
              var start := json[i + |k| + 4..];
              && (ExtractField(json, k) == None <==> '"' !in start)
              && (ExtractField(json, k).Some? ==>
                    var text := ExtractField(json, k).value;
                    |text| < |start| && text == start[..|text|] && start[|text|] == '"' && '"' !in text)
    ensures match Strstr(json, "\"" + k + "\":")
            case None => ExtractInt(json, k) == -1
            case Some(i) => ExtractInt(json, k) == Atoi(json[i + |k| + 3..])
  {
    hide Strstr, Atoi;
    var quoted, bare := Pattern(k, true), Pattern(k, false);
    assert quoted == "\"" + k + "\":\"" && bare == "\"" + k + "\":";
    assert Truncate(quoted, SEARCH_SIZE) == quoted && Truncate(bare, SEARCH_SIZE) == bare;
  }

  // ---- The shell's side ----

  /** A value printed between quotes, or bare. */
  datatype Value = Str(text: string) | Raw(text: string)

  datatype Field = Field(key: string, value: Value)

  function ShownValue(v: Value): string {
    match v case Str(t) => "\"" + t + "\"" case Raw(t) => t
  }

  function FieldText(f: Field): string {
    "\"" + f.key + "\":" + ShownValue(f.value)
  }

  function Tail(fs: seq<Field>): (s: string)
    ensures s != "" && (s[0] == ',' || s[0] == '}')
  {
    if fs == [] then "}" else "," + (FieldText(fs[0]) + Tail(fs[1..]))
  }

  /** The fields of a message, as the message spells them. */
  function From(fs: seq<Field>): string
    requires fs != []
  {
    FieldText(fs[0]) + Tail(fs[1..])
  }

  function Message(fs: seq<Field>): string
    requires fs != []
  {
    "{" + From(fs)
  }

  /** A message as it is printed: braces around the fields, commas between them, and no blanks. */
  lemma MessageShown(fs: seq<Field>, k: string, v: string)
    requires fs != []
    ensures FieldText(Field(k, Str(v))) == "\"" + k + "\":\"" + v + "\"" && FieldText(Field(k, Raw(v))) == "\"" + k + "\":" + v
    ensures Message(fs) == "{" + FieldText(fs[0]) + if |fs| == 1 then "}" else "," + Message(fs[1..])[1..]
  {
    assert "\"" + k + "\":" + ("\"" + v + "\"") == "\"" + k + "\":\"" + v + "\"";
    hide FieldText;
    if |fs| > 1 {
      assert Message(fs[1..])[1..] == From(fs[1..]);
    }
  }

  predicate IsLetter(c: char) {
    'a' <= c <= 'z' || 'A' <= c <= 'Z' || c == '_'
  }

  /** The protocol's keys are short words of letters and underscores. */
  predicate IsKey(k: string) {
    0 < |k| < 64 && forall i | 0 <= i < |k| :: IsLetter(k[i])
  }

  predicate Clean(f: Field) {
    IsKey(f.key) && NoQuote(f.value.text)
  }

  predicate AllClean(fs: seq<Field>) {
    forall i | 0 <= i < |fs| :: Clean(fs[i])
  }

  // ---- Where a pattern can occur ----

  function Later(r: Option<nat>, n: nat): Option<nat> {
    match r case None => None case Some(i) => Some(n + i)
  }

  predicate Hits(f: Field, k: string, quoted: bool) {
    f.key == k && (quoted ==> f.value.Str?)
  }

  /** An occurrence, character by character. */
  lemma PatternChars(s: string, k: string, quoted: bool)
    ensures StartsWith(s, Pattern(k, quoted)) ==>
              && |s| >= |k| + 3 && s[0] == '"' && s[1..1 + |k|] == k && s[1 + |k|] == '"' && s[2 + |k|] == ':'
              && (quoted ==> |s| >= |k| + 4 && s[3 + |k|] == '"')
  {
    var pat := Pattern(k, quoted);
    assert pat[0] == '"' && pat[1..1 + |k|] == k && pat[1 + |k|] == '"' && pat[2 + |k|] == ':';
    assert quoted ==> pat[3 + |k|] == '"';
    if StartsWith(s, pat) {
      assert forall i | 0 <= i < |pat| :: s[i] == s[..|pat|][i] == pat[i];
      assert s[1..1 + |k|] == pat[1..1 + |k|];
    }
  }

  /** Two quote-free words that both end at the first quote of `s` are the same word. */
  lemma SameWord(s: string, a: string, b: string)
    requires NoQuote(a) && NoQuote(b)
    requires |a| < |s| && s[..|a|] == a && s[|a|] == '"'
    ensures |b| < |s| && s[..|b|] == b && s[|b|] == '"' ==> a == b
  {
    assert forall i | 0 <= i < |a| :: s[i] == s[..|a|][i];
    if |b| < |s| && s[..|b|] == b && s[|b|] == '"' {
      assert forall i | 0 <= i < |b| :: s[i] == s[..|b|][i];
    }
  }

  /** The characters of a clean field that matter to a search. */
  lemma FieldChars(f: Field, rest: string)
    requires Clean(f) && rest != ""
    ensures var s := FieldText(f) + rest;
            var n := |f.key|;
            && |FieldText(f)| == n + 3 + |ShownValue(f.value)|
            && s[0] == '"' && s[1..1 + n] == f.key && s[n + 1] == '"' && s[n + 2] == ':'
            && s[|FieldText(f)|] == rest[0]
            && (forall i | 0 < i <= n :: s[i] != '"')
            && (forall i | 0 <= i < |ShownValue(f.value)| :: s[n + 3 + i] == ShownValue(f.value)[i])
  {
    hide ShownValue;
    var s, n := FieldText(f) + rest, |f.key|;
    assert forall i | 0 < i <= n :: s[i] == f.key[i - 1];
    KeyHasNoQuote(f.key);
    assert s[1..1 + n] == f.key;
  }

  lemma KeyHasNoQuote(k: string)
    requires IsKey(k)
    ensures NoQuote(k)
  {
  }

  /** The quotes in a value. */
  lemma ValueChars(v: Value, i: nat)
    requires NoQuote(v.text) && i < |ShownValue(v)| && ShownValue(v)[i] == '"'
    ensures v.Str? && (i == 0 || i == |ShownValue(v)| - 1)
  {
    assert v.Str? ==> forall j | 0 < j <= |v.text| :: ShownValue(v)[j] == v.text[j - 1];
  }

  /** Where a match would have to begin: at a quote that a letter follows and, one key later, a quote and a colon. */
  lemma MatchBegins(s: string, i: nat, k: string, quoted: bool)
    requires i < |s| && IsKey(k) && StartsWith(s[i..], Pattern(k, quoted))
    ensures i + |k| + 3 <= |s| && s[i] == '"' && IsLetter(s[i + 1])
    ensures s[i + 1..i + 1 + |k|] == k && s[i + 1 + |k|] == '"' && s[i + 2 + |k|] == ':'
  {
    var t := s[i..];
    PatternChars(t, k, quoted);
    hide StartsWith, Pattern;
    assert s[i + 1..i + 1 + |k|] == t[1..1 + |k|];
    assert k[0] == s[i + 1..i + 1 + |k|][0];
  }

  /** What follows a quote inside a clean field: a colon, the value that it opens, or the end of the field. */
  lemma AfterQuote(f: Field, rest: string, i: nat)
    requires Clean(f) && rest != "" && 0 < i < |FieldText(f)| && FieldText(f)[i] == '"'
    ensures var s := FieldText(f) + rest;
            s[i + 1] == ':' || s[i + 1] == rest[0] || (f.value.Str? && i == |f.key| + 3)
  {
    hide FieldText, ShownValue;
    var s, n := FieldText(f) + rest, |f.key|;
    FieldChars(f, rest);
    assert s[i] == FieldText(f)[i];
    if i >= n + 3 {
      assert s[i] == ShownValue(f.value)[i - n - 3];
      ValueChars(f.value, i - n - 3);
    }
  }

  lemma ValueAt(f: Field, rest: string)
    requires Clean(f) && rest != "" && f.value.Str?
    ensures var s := FieldText(f) + rest;
            var i := |f.key| + 4;
            var text := f.value.text;
            && i + |text| + 1 < |s| && s[i..i + |text|] == text && s[i + |text|] == '"' && s[i + |text| + 1] == rest[0]
  {
    hide FieldText, Clean;
    var s, v, i := FieldText(f) + rest, ShownValue(f.value), |f.key| + 3;
    FieldChars(f, rest);
    assert v[1..|v| - 1] == f.value.text && v[|v| - 1] == '"';
    assert s[i..i + |v|] == v;
    assert s[i + 1..i + |v| - 1] == v[1..|v| - 1];
  }

  /** No pattern occurs inside a clean field after its first character, nor across its end. */
  lemma NoMatchInside(f: Field, rest: string, k: string, quoted: bool, i: nat)
    requires Clean(f) && IsKey(k) && rest != "" && !IsLetter(rest[0]) && rest[0] != ':'
    requires 0 < i < |FieldText(f)|
    ensures !StartsWith((FieldText(f) + rest)[i..], Pattern(k, quoted))
  {
    hide Pattern, StartsWith, IsKey, IsLetter, FieldText, NoQuote;
    var s := FieldText(f) + rest;
    LettersOnly(':');
    if StartsWith(s[i..], Pattern(k, quoted)) {
      MatchBegins(s, i, k, quoted);
      AfterQuote(f, rest, i);
      ValueAt(f, rest);
      ValueIsNoKey(s, i + 1, f.value.text, k, rest[0]);
    }
  }

  lemma LettersOnly(c: char)
    requires c == ':' || c == ','
    ensures !IsLetter(c) && !IsLetter('"')
  {
  }

  /** A quote-free value between quotes matches no key, if no colon comes after it. */
  lemma ValueIsNoKey(s: string, i: nat, text: string, k: string, c: char)
    requires i + |text| + 1 < |s| && s[i..i + |text|] == text && s[i + |text|] == '"' && s[i + |text| + 1] == c != ':'
    requires NoQuote(text) && IsKey(k) && i + |k| + 1 < |s|
    ensures !(s[i..i + |k|] == k && s[i + |k|] == '"' && s[i + |k| + 1] == ':')
  {
    var t := s[i..];
    assert t[..|text|] == text && t[|text|] == '"' && t[..|k|] == s[i..i + |k|] && t[|k|] == s[i + |k|];
    KeyHasNoQuote(k);
    SameWord(t, text, k);
  }

  /** At its start a field matches exactly the pattern of its own key, and the quoted pattern only when
      its value is quoted. */
  lemma MatchAtStart(f: Field, rest: string, k: string, quoted: bool)
    requires Clean(f) && IsKey(k) && rest != "" && rest[0] != '"'
    ensures StartsWith(FieldText(f) + rest, Pattern(k, quoted)) ==> Hits(f, k, quoted)
  {
    hide FieldText, StartsWith, Pattern;
    var s, n := FieldText(f) + rest, |f.key|;
    FieldChars(f, rest);
    PatternChars(s, k, quoted);
    assert s[1..][..n] == f.key && s[1..][n] == s[n + 1];
    SameWord(s[1..], f.key, k);
    assert |s| > |k| + 1 ==> s[1..][..|k|] == s[1..1 + |k|] && s[1..][|k|] == s[1 + |k|];
    if f.value.Raw? && f.value.text != "" {
      assert s[n + 3] == ShownValue(f.value)[0] != '"';
    }
  }

  lemma HitAtStart(f: Field, rest: string, k: string, quoted: bool)
    requires Hits(f, k, quoted)
    ensures Strstr(FieldText(f) + rest, Pattern(k, quoted)) == Some(0)
  {
    var s, pat := FieldText(f) + rest, Pattern(k, quoted);
    assert s[..|pat|] == pat;
  }

  /** A clean field that the pattern does not fit is skipped. */
  lemma SkipField(f: Field, rest: string, k: string, quoted: bool)
    requires Clean(f) && IsKey(k) && rest != "" && !IsLetter(rest[0]) && rest[0] != ':' && rest[0] != '"'
    requires !Hits(f, k, quoted)
    ensures Strstr(FieldText(f) + rest, Pattern(k, quoted)) == Later(Strstr(rest, Pattern(k, quoted)), |FieldText(f)|)
  {
    hide FieldText, Pattern, StartsWith, Strstr, IsKey, Clean, Hits, IsLetter;
    var s := FieldText(f) + rest;
    MatchAtStart(f, rest, k, quoted);
    assert s[0..] == s;
    forall i | 0 <= i < |FieldText(f)| ensures !StartsWith(s[i..], Pattern(k, quoted)) {
      if i > 0 {
        NoMatchInside(f, rest, k, quoted, i);
      }
    }
    StrstrSkip(FieldText(f), rest, Pattern(k, quoted));
  }

  /** A single character that is not a quote is skipped. */
  lemma SkipChar(c: char, rest: string, k: string, quoted: bool)
    requires c != '"'
    ensures Strstr([c] + rest, Pattern(k, quoted)) == Later(Strstr(rest, Pattern(k, quoted)), 1)
  {
    StrstrSkipChar(c, rest, Pattern(k, quoted));
  }

  // ---- Extraction undoes formatting ----

  /** Searching stops at the first field that the pattern fits. Only the fields before it need to be clean. */
  lemma {:induction false} SearchHits(fs: seq<Field>, j: nat, k: string, quoted: bool) returns (at: nat)
    requires j < |fs| && IsKey(k) && Hits(fs[j], k, quoted)
    requires forall i | 0 <= i < j :: Clean(fs[i]) && !Hits(fs[i], k, quoted)
    ensures Strstr(From(fs), Pattern(k, quoted)) == Some(at)
    ensures at <= |From(fs)| && From(fs)[at..] == From(fs[j..])
  {
    hide FieldText, Pattern, Strstr, Tail, From, Clean, Hits, IsKey;
    if j == 0 {
      at := 0;
      HitFirst(fs, k, quoted);
      assert fs[0..] == fs && From(fs)[0..] == From(fs);
    } else {
      var others := fs[1..];
      assert others[j - 1] == fs[j] && forall i | 0 <= i < j - 1 :: others[i] == fs[i + 1];
      var at' := SearchHits(others, j - 1, k, quoted);
      at := |FieldText(fs[0])| + 1 + at';
      assert others[j - 1..] == fs[j..];
      SkipFirst(fs, k, quoted);
      DropFirst(fs, at');
    }
  }

  lemma HitFirst(fs: seq<Field>, k: string, quoted: bool)
    requires fs != [] && Hits(fs[0], k, quoted)
    ensures Strstr(From(fs), Pattern(k, quoted)) == Some(0)
  {
    hide FieldText, Pattern, Strstr, Tail;
    HitAtStart(fs[0], Tail(fs[1..]), k, quoted);
  }

  lemma DropFirst(fs: seq<Field>, at: nat)
    requires |fs| > 1 && at <= |From(fs[1..])|
    ensures |From(fs)| == |FieldText(fs[0])| + 1 + |From(fs[1..])|
    ensures From(fs)[|FieldText(fs[0])| + 1 + at..] == From(fs[1..])[at..]
  {
    DropPrefix(FieldText(fs[0]), From(fs[1..]), at);
  }

  lemma DropPrefix(a: string, b: string, at: nat)
    requires at <= |b|
    ensures (a + ("," + b))[|a| + 1 + at..] == b[at..]
  {
  }

  /** The search passes over a field that does not fit, and the comma after it. */
  lemma SkipFieldComma(f: Field, others: string, k: string, quoted: bool)
    requires IsKey(k) && Clean(f) && !Hits(f, k, quoted)
    ensures Strstr(FieldText(f) + ("," + others), Pattern(k, quoted)) ==
            Later(Strstr(others, Pattern(k, quoted)), |FieldText(f)| + 1)
  {
    hide FieldText, Pattern, Strstr, IsKey, Clean, Hits, Later;
    LettersOnly(',');
    SkipField(f, "," + others, k, quoted);
    SkipChar(',', others, k, quoted);
    LaterTwice(Strstr(others, Pattern(k, quoted)), 1, |FieldText(f)|);
  }

  lemma LaterTwice(r: Option<nat>, n: nat, m: nat)
    ensures Later(Later(r, n), m) == Later(r, m + n)
  {
  }

  lemma SkipFirst(fs: seq<Field>, k: string, quoted: bool)
    requires |fs| > 1 && IsKey(k) && Clean(fs[0]) && !Hits(fs[0], k, quoted)
    ensures Strstr(From(fs), Pattern(k, quoted)) ==
            Later(Strstr(From(fs[1..]), Pattern(k, quoted)), |FieldText(fs[0])| + 1)
  {
    SkipFieldComma(fs[0], From(fs[1..]), k, quoted);
  }

  /** A pattern that fits no field of a clean message occurs nowhere. */
  lemma {:induction false} SearchMisses(fs: seq<Field>, k: string, quoted: bool)
    requires fs != [] && IsKey(k)
    requires forall i | 0 <= i < |fs| :: Clean(fs[i]) && !Hits(fs[i], k, quoted)
    ensures Strstr(From(fs), Pattern(k, quoted)).None?
  {
    if |fs| == 1 {
      SkipField(fs[0], "}", k, quoted);
      assert Tail(fs[1..]) == "}" == ['}'] + "";
      SkipChar('}', "", k, quoted);
    } else {
      SkipFirst(fs, k, quoted);
      SearchMisses(fs[1..], k, quoted);
    }
  }

  /** What extract_field reads where a quoted field starts: its value up to the first quote. */
  function UpToQuote(s: string): string {
    match BeforeQuote(s) case None => s case Some(i) => s[..i]
  }

  lemma {:induction false} UpToQuoteOfValue(v: string, rest: string)
    ensures BeforeQuote(v + "\"" + rest) == Some(|UpToQuote(v)|)
    ensures |UpToQuote(v)| <= |v| && UpToQuote(v) == v[..|UpToQuote(v)|]
    ensures UpToQuote(v) == v <==> NoQuote(v)
  {
    match BeforeQuote(v)
    case None =>
      BeforeQuoteIs(v, rest);
      assert v[..|v|] == v;
    case Some(i) =>
      assert v + "\"" + rest == v[..i] + "\"" + (v[i + 1..] + "\"" + rest);
      BeforeQuoteIs(v[..i], v[i + 1..] + "\"" + rest);
  }

  /** What follows the pattern where the search of a whole message stops. */
  lemma SearchMessage(fs: seq<Field>, j: nat, k: string, quoted: bool, after: string)
    requires j < |fs| && IsKey(k) && Hits(fs[j], k, quoted)
    requires forall i | 0 <= i < j :: Clean(fs[i]) && !Hits(fs[i], k, quoted)
    requires From(fs[j..]) == Pattern(k, quoted) + after
    ensures PastPattern(Message(fs), k, quoted) == Some(after)
  {
    hide Strstr, Clean, Hits, IsKey, From, Pattern, PastPattern;
    var at := SearchHits(fs, j, k, quoted);
    StartsQuoted(k, quoted);
    PastBrace(From(fs), Pattern(k, quoted), at, after);
    PastPatternAt(Message(fs), k, quoted, 1 + at);
  }

  lemma StartsQuoted(k: string, quoted: bool)
    ensures Pattern(k, quoted) != "" && Pattern(k, quoted)[0] == '"'
  {
  }

  lemma PastBrace(s: string, pat: string, at: nat, after: string)
    requires pat != "" && pat[0] == '"' && Strstr(s, pat) == Some(at)
    requires at <= |s| && s[at..] == pat + after
    ensures Strstr("{" + s, pat) == Some(1 + at)
    ensures 1 + at + |pat| <= |"{" + s| && ("{" + s)[1 + at + |pat|..] == after
  {
    StrstrSkipChar('{', s, pat);
    AfterPattern(s, at, pat, after);
  }

  lemma PastPatternAt(msg: string, k: string, quoted: bool, at: nat)
    requires IsKey(k) && Strstr(msg, Pattern(k, quoted)) == Some(at)
    ensures at + |Pattern(k, quoted)| <= |msg|
    ensures PastPattern(msg, k, quoted) == Some(msg[at + |Pattern(k, quoted)|..])
  {
    hide Pattern, Strstr, IsKey;
    ShortPattern(k, quoted);
    assert Truncate(Pattern(k, quoted), SEARCH_SIZE) == Pattern(k, quoted);
  }

  lemma ShortPattern(k: string, quoted: bool)
    requires IsKey(k)
    ensures |Pattern(k, quoted)| < SEARCH_SIZE
  {
  }

  lemma AfterPattern(s: string, at: nat, pat: string, after: string)
    requires at <= |s| && s[at..] == pat + after
    ensures 1 + at + |pat| <= |"{" + s| && ("{" + s)[1 + at + |pat|..] == after
  {
    assert s == s[..at] + (pat + after);
    assert "{" + s == ("{" + s[..at] + pat) + after;
  }

  /** A field is its own key's pattern followed by its value. */
  lemma FieldIsPattern(f: Field, rest: string)
    ensures f.value.Str? ==> FieldText(f) + rest == Pattern(f.key, true) + (f.value.text + "\"" + rest)
    ensures FieldText(f) + rest == Pattern(f.key, false) + (ShownValue(f.value) + rest)
  {
  }

  lemma ReadQuotedValue(v: string, rest: string)
    ensures ReadQuoted(v + "\"" + rest) == Some(UpToQuote(v))
    ensures UpToQuote(v) == v <==> NoQuote(v)
  {
    UpToQuoteOfValue(v, rest);
    assert (v + "\"" + rest)[..|UpToQuote(v)|] == v[..|UpToQuote(v)|];
  }

  /** extract_field on any message the shell formats: with clean fields before it, the first quoted field
      of that key gives its value up to the first quote, so it gives the value back exactly when the
      value has no quote. What follows the field does not matter. */
  lemma ExtractFieldReadsBack(fs: seq<Field>, j: nat, k: string)
    requires j < |fs| && IsKey(k) && Hits(fs[j], k, true)
    requires forall i | 0 <= i < j :: Clean(fs[i]) && !Hits(fs[i], k, true)
    ensures ExtractField(Message(fs), k) == Some(UpToQuote(fs[j].value.text))
    ensures ExtractField(Message(fs), k) == Some(fs[j].value.text) <==> NoQuote(fs[j].value.text)
  {
    var v, rest := fs[j].value.text, Tail(fs[j..][1..]);
    FieldIsPattern(fs[j], rest);
    SearchMessage(fs, j, k, true, v + "\"" + rest);
    ReadQuotedValue(v, rest);
  }

  /** A key that no field carries between quotes is not found. */
  lemma ExtractFieldMisses(fs: seq<Field>, k: string)
    requires fs != [] && IsKey(k) && AllClean(fs)
    requires forall i | 0 <= i < |fs| :: !Hits(fs[i], k, true)
    ensures ExtractField(Message(fs), k).None?
  {
    SearchMisses(fs, k, true);
    SkipChar('{', From(fs), k, true);
  }

  /** extract_int reads the first field of that key: atoi of a bare value, zero for a quoted one. */
  lemma ExtractIntReadsBack(fs: seq<Field>, j: nat, k: string)
    requires j < |fs| && IsKey(k) && fs[j].key == k
    requires forall i | 0 <= i < j :: Clean(fs[i]) && fs[i].key != k
    ensures ExtractInt(Message(fs), k) == if fs[j].value.Raw? then Atoi(fs[j].value.text) else 0
  {
    var v, rest := fs[j].value, Tail(fs[j..][1..]);
    var after := ShownValue(v) + rest;
    FieldIsPattern(fs[j], rest);
    SearchMessage(fs, j, k, false, after);
    AtoiOfValue(v, rest);
  }

  lemma AtoiOfValue(v: Value, rest: string)
    requires rest != "" && (rest[0] == ',' || rest[0] == '}')
    ensures Atoi(ShownValue(v) + rest) == if v.Raw? then Atoi(v.text) else 0
  {
    if v.Raw? {
      AtoiStops(v.text, rest);
    } else {
      assert (ShownValue(v) + rest)[0] == '"';
    }
  }

  /** A number printed with `%d`, negative ones included, is read back. */
  lemma ExtractIntOfDecimal(fs: seq<Field>, j: nat, k: string, n: int)
    requires j < |fs| && IsKey(k) && fs[j] == Field(k, Raw(Signed(n)))
    requires forall i | 0 <= i < j :: Clean(fs[i]) && fs[i].key != k
    ensures ExtractInt(Message(fs), k) == n
  {
    ExtractIntReadsBack(fs, j, k);
    AtoiOfSigned(n, "");
    assert Signed(n) + "" == Signed(n);
  }

  /** extract_int answers -1 when no field has the key. */
  lemma ExtractIntMisses(fs: seq<Field>, k: string)
    requires fs != [] && IsKey(k) && AllClean(fs) && forall i | 0 <= i < |fs| :: fs[i].key != k
    ensures ExtractInt(Message(fs), k) == -1
  {
    SearchMisses(fs, k, false);
    SkipChar('{', From(fs), k, false);
  }
}
