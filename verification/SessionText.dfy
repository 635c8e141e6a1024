/** The daemon's text protocol, daemon to shell: the session list printed by handle_command in
    crypticengine/daemon/crypticd.c and parsed by cmd_securesession in shell/src/session_cmds.c. */
module SessionText {
  import opened CText
  import opened Messages
  import opened Seqs
  import opened Wrappers

  const RESPONSE_SIZE: nat := 4096
  const NAME_SIZE: nat := 64
  const MAX_ACTIVE: nat := 16
  const INT_MAX: nat := 0x7fff_ffff

  /** What is printed of a session. */
  datatype Row = Row(id: int, name: string, pid: int)

  predicate Printable(r: Row) {
    0 <= r.id <= INT_MAX && 0 <= r.pid <= INT_MAX
  }

  predicate AllPrintable(rows: seq<Row>) {
    forall i | 0 <= i < |rows| :: Printable(rows[i])
  }

  // ---- Printing ----

  function IdField(r: Row): Field
    requires Printable(r)
  {
    Field("id", Raw(Decimal(r.id)))
  }

  function NameField(r: Row): Field {
    Field("name", Str(r.name))
  }

  function PidField(r: Row): Field
    requires Printable(r)
  {
    Field("pid", Raw(Decimal(r.pid)))
  }

  /** One entry from its id on, and the text after it. */
  function EntryFrom(r: Row, rest: string): string
    requires Printable(r)
  {
    FieldText(IdField(r)) + ("," + (FieldText(NameField(r)) + ("," + (FieldText(PidField(r)) + ("}" + rest)))))
  }

  /** The entries after the first, and the closing brackets. */
  function MoreEntries(rows: seq<Row>): (s: string)
    requires AllPrintable(rows)
    ensures s != "" && (s[0] == ',' || s[0] == ']')
  {
    if rows == [] then "]}" else "," + ("{" + EntryFrom(rows[0], MoreEntries(rows[1..])))
  }

  function Entries(rows: seq<Row>): (s: string)
    requires AllPrintable(rows)
    ensures s != "" && (s[0] == '{' || s[0] == ']')
  {
    if rows == [] then "]}" else "{" + EntryFrom(rows[0], MoreEntries(rows[1..]))
  }

  const SESSIONS_OPEN := Field("sessions", Raw("["))

  const STATUS := Field("status", Str("ok"))

  function CountField(count: nat): Field {
    Field("count", Raw(Decimal(count)))
  }

  /** The status and the count, and the list after them. */
  function Framed(count: nat, list: string): string {
    "{" + (FieldText(STATUS) + ("," + (FieldText(CountField(count)) + ("," + list))))
  }

  /** The whole response. */
  function PrintList(rows: seq<Row>): string
    requires AllPrintable(rows)
  {
    Framed(|rows|, FieldText(SESSIONS_OPEN) + Entries(rows))
  }

  // ---- Parsing ----

  function Past(r: Option<nat>, s: string, pat: string): Option<string>
    requires r.Some? ==> r.value + |pat| <= |s|
  {
    match r case None => None case Some(i) => Some(s[i + |pat|..])
  }

  /** What the loop body reads at an occurrence of `"id":`. */
  function RowAt(p: string): Row {
    var id := Atoi(Drop(p, |Pattern("id", false)|));
    var name := match Past(Strstr(p, Pattern("name", true)), p, Pattern("name", true))
      case None => "\U{2014}"
      case Some(n) => match ReadQuoted(n) case None => "\U{2014}" case Some(t) => Truncate(t, NAME_SIZE);
    var pid := match Past(Strstr(p, Pattern("pid", false)), p, Pattern("pid", false))
      case None => 0
      case Some(n) => Atoi(n);
    Row(id, name, pid)
  }

  /** Every place where the pattern occurs, as pointers. */
  function Sites(p: string, pat: string): seq<string>
    requires pat != ""
  {
    if p == "" then []
    else (if StartsWith(p, pat) then [p] else []) + Sites(p[1..], pat)
  }

  function RowsAt(sites: seq<string>): (r: seq<Row>)
    ensures |r| == |sites| && forall i | 0 <= i < |r| :: r[i] == RowAt(sites[i])
  {
    seq(|sites|, i requires 0 <= i < |sites| => RowAt(sites[i]))
  }

  const ID_PATTERN := "\"id\":"

  /** The rows from pointer `p` on. */
  function ParseRows(p: string): seq<Row> {
    RowsAt(Sites(p, ID_PATTERN))
  }

  function ParseCount(resp: string): int {
    match Past(Strstr(resp, Pattern("count", false)), resp, Pattern("count", false))
    case None => 0
    case Some(s) => Atoi(s)
  }

  /** What the parser makes of a response: no row is looked for when the count is zero. */
  function ParseResponse(resp: string): (r: (int, seq<Row>)) {
    var count := ParseCount(resp);
    if count == 0 then (0, [])
    else
      match Strstr(resp, Pattern("sessions", false) + "[")
      case None => (count, [])
      case Some(i) => (count, ParseRows(resp[i..]))
  }

  /** What is taken for a part that a response lacks: a dash for the name, 0 for the process id and the count, and no
      rows without a list. */
  lemma MissingParts(p: string)
    ensures Strstr(p, "\"name\":\"").None? ==> RowAt(p).name == "\U{2014}"
    ensures Strstr(p, "\"pid\":").None? ==> RowAt(p).pid == 0
    ensures Strstr(p, "\"count\":").None? ==> ParseResponse(p) == (0, [])
    ensures ParseResponse(p).0 == 0 || Strstr(p, "\"sessions\":[").None? ==> ParseResponse(p).1 == []
  {
    hide Strstr, Atoi, ParseRows, ReadQuoted;
    assert Pattern("name", true) == "\"name\":\"" && Pattern("pid", false) == "\"pid\":";
    assert Pattern("count", false) == "\"count\":" && Pattern("sessions", false) + "[" == "\"sessions\":[";
  }

  /** Searching again from one past each occurrence visits every occurrence. */
  lemma {:induction false} SiteStep(p: string, pat: string)
    requires pat != ""
    ensures match Strstr(p, pat)
            case None => Sites(p, pat) == []
            case Some(i) => Sites(p, pat) == [p[i..]] + Sites(p[i..][1..], pat)
  {
    if p != "" && !StartsWith(p, pat) {
      SiteStep(p[1..], pat);
      match Strstr(p[1..], pat)
      case None =>
      case Some(i) => assert p[1..][i..] == p[i + 1..];
    } else {
      assert p[0..] == p;
    }
  }

  lemma RowsAtSnoc(sites: seq<string>, p: string)
    ensures RowsAt(sites + [p]) == RowsAt(sites) + [RowAt(p)]
  {
  }

  /** The loop over the occurrences of `"id":`. */
  method ParseFrom(start: string) returns (rows: seq<Row>)
    ensures rows == ParseRows(start)
  {
    rows := [];
    var p := start;
    ghost var all := Sites(start, ID_PATTERN);
    ghost var done: seq<string> := [];
    var next := Strstr(p, ID_PATTERN);
    while next.Some?
      invariant next == Strstr(p, ID_PATTERN) && all == done + Sites(p, ID_PATTERN) && rows == RowsAt(done)
      decreases |p|
    {
      SiteStep(p, ID_PATTERN);
      var site := p[next.value..];
      RowsAtSnoc(done, site);
      Assoc(done, [site], Sites(site[1..], ID_PATTERN));
      rows, done := rows + [RowAt(site)], done + [site];
      p := site[1..];
      next := Strstr(p, ID_PATTERN);
    }
    SiteStep(p, ID_PATTERN);
  }

  method ParseList(resp: string) returns (count: int, rows: seq<Row>)
    ensures (count, rows) == ParseResponse(resp)
  {
    count, rows := ParseCount(resp), [];
    if count == 0 {
      return;
    }
    var s := Strstr(resp, Pattern("sessions", false) + "[");
    if s.Some? {
      rows := ParseFrom(resp[s.value..]);
    }
  }

  // ---- Parsing skips what holds no session number ----

  function IdSites(p: string): seq<string> {
    Sites(p, ID_PATTERN)
  }

  lemma IdPattern()
    ensures Pattern("id", false) == ID_PATTERN && IsKey("id")
  {
  }

  /** Text in front without an occurrence does not change the sites. */
  lemma {:induction false} SkipText(a: string, b: string, pat: string)
    requires pat != "" && forall i | 0 <= i < |a| :: !StartsWith((a + b)[i..], pat)
    ensures Sites(a + b, pat) == Sites(b, pat)
  {
    if a == "" {
      assert a + b == b;
    } else {
      assert (a + b)[0..] == a + b;
      assert (a + b)[1..] == a[1..] + b;
      forall i | 0 <= i < |a[1..]| ensures !StartsWith((a[1..] + b)[i..], pat) {
        assert (a[1..] + b)[i..] == (a + b)[i + 1..];
      }
      SkipText(a[1..], b, pat);
    }
  }

  lemma SitesSkipChar(c: char, rest: string)
    requires c != '"'
    ensures IdSites([c] + rest) == IdSites(rest)
  {
    assert ID_PATTERN[0] == '"' && ([c] + rest)[1..] == rest;
  }

  /** What may follow a field. */
  predicate Follows(rest: string) {
    rest != "" && !IsLetter(rest[0]) && rest[0] != ':' && rest[0] != '"'
  }

  /** A field with another key holds no occurrence. */
  lemma SitesSkipField(f: Field, rest: string)
    requires Clean(f) && f.key != "id" && Follows(rest)
    ensures IdSites(FieldText(f) + rest) == IdSites(rest)
  {
    IdPattern();
    var s := FieldText(f) + rest;
    MatchAtStart(f, rest, "id", false);
    assert s[0..] == s;
    forall i | 0 <= i < |FieldText(f)| ensures !StartsWith(s[i..], ID_PATTERN) {
      if i > 0 {
        NoMatchInside(f, rest, "id", false, i);
      }
    }
    SkipText(FieldText(f), rest, ID_PATTERN);
  }

  /** From one past its first character a field holds no occurrence at all. */
  lemma SitesSkipInside(f: Field, rest: string)
    requires Clean(f) && Follows(rest)
    ensures IdSites((FieldText(f) + rest)[1..]) == IdSites(rest)
  {
    IdPattern();
    var a := FieldText(f)[1..];
    assert (FieldText(f) + rest)[1..] == a + rest;
    forall i | 0 <= i < |a| ensures !StartsWith((a + rest)[i..], ID_PATTERN) {
      NoMatchInside(f, rest, "id", false, i + 1);
      assert (a + rest)[i..] == (FieldText(f) + rest)[i + 1..];
    }
    SkipText(a, rest, ID_PATTERN);
  }

  // ---- One entry ----

  lemma Keys()
    ensures IsKey("id") && IsKey("name") && IsKey("pid") && IsKey("sessions") && IsKey("count") && IsKey("status")
    ensures "id" != "name" && "id" != "pid" && "name" != "pid" && "sessions" != "id" && "status" != "count"
  {
    assert "name"[0] != "pid"[0] && "status"[0] != "count"[0];
  }

  lemma DecimalClean(key: string, n: nat)
    requires IsKey(key)
    ensures Clean(Field(key, Raw(Decimal(n))))
  {
  }

  /** The two fields before the process id, and the comma after each, are passed over. */
  lemma PastField(f: Field, others: string, k: string, quoted: bool)
    requires IsKey(k) && Clean(f) && !Hits(f, k, quoted)
    ensures Past(Strstr(FieldText(f) + ("," + others), Pattern(k, quoted)), FieldText(f) + ("," + others), Pattern(k, quoted))
         == Past(Strstr(others, Pattern(k, quoted)), others, Pattern(k, quoted))
  {
    hide FieldText, Pattern, Clean, Hits, IsKey;
    SkipFieldComma(f, others, k, quoted);
    var pat := Pattern(k, quoted);
    match Strstr(others, pat)
    case None =>
    case Some(i) => DropPrefix(FieldText(f), others, i + |pat|);
  }

  /** A field's own pattern is found at its start. */
  lemma PastOwn(f: Field, rest: string, quoted: bool)
    requires quoted ==> f.value.Str?
    ensures var s := FieldText(f) + rest;
            Past(Strstr(s, Pattern(f.key, quoted)), s, Pattern(f.key, quoted)) ==
            Some(if quoted then f.value.text + "\"" + rest else ShownValue(f.value) + rest)
  {
    HitAtStart(f, rest, f.key, quoted);
    FieldIsPattern(f, rest);
    var s, pat := FieldText(f) + rest, Pattern(f.key, quoted);
    var after := if quoted then f.value.text + "\"" + rest else ShownValue(f.value) + rest;
    assert s == pat + after;
    assert s[|pat|..] == after;
  }

  predicate GoodName(name: string) {
    NoQuote(name) && |name| < NAME_SIZE
  }

  /** The name read back is the printed one up to its first quote, cut to the buffer. */
  lemma NameReadsBack(r: Row, rest: string)
    requires Printable(r)
    ensures RowAt(EntryFrom(r, rest)).name == Truncate(UpToQuote(r.name), NAME_SIZE)
    ensures RowAt(EntryFrom(r, rest)).name == r.name <==> GoodName(r.name)
  {
    Keys();
    DecimalClean("id", r.id);
    var tail := "," + (FieldText(PidField(r)) + ("}" + rest));
    PastField(IdField(r), FieldText(NameField(r)) + tail, "name", true);
    PastOwn(NameField(r), tail, true);
    ReadQuotedValue(r.name, tail);
    UpToQuoteOfValue(r.name, tail);
  }

  lemma IdReadsBack(r: Row, rest: string)
    requires Printable(r)
    ensures RowAt(EntryFrom(r, rest)).id == r.id
  {
    var tail := "," + (FieldText(NameField(r)) + ("," + (FieldText(PidField(r)) + ("}" + rest))));
    FieldIsPattern(IdField(r), tail);
    var s, pat := EntryFrom(r, rest), Pattern("id", false);
    assert s[|pat|..] == Decimal(r.id) + tail;
    AtoiOfDecimal(r.id, tail);
  }

  lemma PidReadsBack(r: Row, rest: string)
    requires Printable(r) && NoQuote(r.name)
    ensures RowAt(EntryFrom(r, rest)).pid == r.pid
  {
    Keys();
    DecimalClean("id", r.id);
    var last := FieldText(PidField(r)) + ("}" + rest);
    PastField(IdField(r), FieldText(NameField(r)) + ("," + last), "pid", false);
    PastField(NameField(r), last, "pid", false);
    PastOwn(PidField(r), "}" + rest, false);
    AtoiOfDecimal(r.pid, "}" + rest);
  }

  lemma RowReadsBack(r: Row, rest: string)
    requires Printable(r)
    ensures RowAt(EntryFrom(r, rest)) == r <==> GoodName(r.name)
  {
    NameReadsBack(r, rest);
    if GoodName(r.name) {
      IdReadsBack(r, rest);
      PidReadsBack(r, rest);
    }
  }

  /** An entry is a site; with a quote-free name it is the only one before what follows. */
  lemma EntrySites(r: Row, rest: string)
    requires Printable(r)
    ensures IdSites(EntryFrom(r, rest)) != [] && IdSites(EntryFrom(r, rest))[0] == EntryFrom(r, rest)
    ensures NoQuote(r.name) ==> IdSites(EntryFrom(r, rest)) == [EntryFrom(r, rest)] + IdSites(rest)
  {
    Keys();
    IdPattern();
    DecimalClean("id", r.id);
    DecimalClean("pid", r.pid);
    var c := "}" + rest;
    var b := FieldText(PidField(r)) + c;
    var a := FieldText(NameField(r)) + ("," + b);
    var s := EntryFrom(r, rest);
    HitAtStart(IdField(r), "," + a, "id", false);
    SiteStep(s, ID_PATTERN);
    assert s[0..] == s;
    if NoQuote(r.name) {
      SitesSkipInside(IdField(r), "," + a);
      SitesSkipChar(',', a);
      SitesSkipField(NameField(r), "," + b);
      SitesSkipChar(',', b);
      SitesSkipField(PidField(r), c);
      SitesSkipChar('}', rest);
    }
  }

  // ---- The whole list ----

  predicate GoodNames(rows: seq<Row>) {
    forall i | 0 <= i < |rows| :: GoodName(rows[i].name)
  }

  lemma NoSites()
    ensures IdSites("]}") == []
  {
    assert "]}" == [']'] + ("}" + "") && "}" + "" == "}";
    SitesSkipChar(']', "}");
    SitesSkipChar('}', "");
  }

  /** The sites after an entry's closing brace are those of the next entry. */
  lemma MoreSites(rows: seq<Row>)
    requires AllPrintable(rows)
    ensures rows == [] ==> IdSites(MoreEntries(rows)) == []
    ensures rows != [] ==> IdSites(MoreEntries(rows)) == IdSites(EntryFrom(rows[0], MoreEntries(rows[1..])))
  {
    if rows == [] {
      NoSites();
    } else {
      var e := EntryFrom(rows[0], MoreEntries(rows[1..]));
      SitesSkipChar(',', "{" + e);
      SitesSkipChar('{', e);
    }
  }

  lemma RowsAtCons(p: string, sites: seq<string>)
    ensures RowsAt([p] + sites) == [RowAt(p)] + RowsAt(sites)
  {
  }

  lemma {:induction false} RowsReadBack(rows: seq<Row>)
    requires rows != [] && AllPrintable(rows)
    ensures ParseRows(EntryFrom(rows[0], MoreEntries(rows[1..]))) == rows <==> GoodNames(rows)
  {
    var r, rest, more := rows[0], rows[1..], MoreEntries(rows[1..]);
    var e := EntryFrom(r, more);
    RowReadsBack(r, more);
    EntrySites(r, more);
    assert ParseRows(e)[0] == RowAt(e);
    if GoodName(r.name) {
      RowsAtCons(e, IdSites(more));
      MoreSites(rest);
      if rest != [] {
        RowsReadBack(rest);
      }
      GoodCons(rows, ParseRows(more));
    }
  }

  lemma GoodCons(rows: seq<Row>, parsed: seq<Row>)
    requires rows != [] && GoodName(rows[0].name) && (parsed == rows[1..] <==> GoodNames(rows[1..]))
    ensures [rows[0]] + parsed == rows <==> GoodNames(rows)
  {
    assert rows == [rows[0]] + rows[1..];
    assert ([rows[0]] + parsed)[1..] == parsed;
    assert forall i | 0 <= i < |rows| - 1 :: rows[1..][i] == rows[i + 1];
  }

  lemma FrameClean(count: nat)
    ensures Clean(STATUS) && Clean(CountField(count))
  {
    Keys();
    DecimalClean("count", count);
  }

  lemma FramedCount(count: nat, list: string)
    ensures ParseCount(Framed(count, list)) == count
  {
    Keys();
    FrameClean(count);
    var b := FieldText(CountField(count)) + ("," + list);
    var a := FieldText(STATUS) + ("," + b);
    PastChar('{', a, "count");
    PastField(STATUS, b, "count", false);
    PastOwn(CountField(count), "," + list, false);
    AtoiOfDecimal(count, "," + list);
  }

  /** What the search finds behind a field that does not fit. */
  lemma FoundBehind(f: Field, others: string, k: string, at: nat)
    requires IsKey(k) && Clean(f) && !Hits(f, k, false)
    requires Strstr(others, Pattern(k, false)) == Some(at) && at <= |others|
    ensures var s := FieldText(f) + ("," + others);
            var n := |FieldText(f)| + 1 + at;
            Strstr(s, Pattern(k, false)) == Some(n) && n <= |s| && s[n..] == others[at..]
  {
    hide Strstr, Pattern, FieldText, Clean, IsKey, Hits;
    SkipFieldComma(f, others, k, false);
    DropPrefix(FieldText(f), others, at);
  }

  /** The list is found where it was printed. */
  lemma FramedList(count: nat, list: string) returns (at: nat)
    requires Strstr(list, Pattern("sessions", false)) == Some(0)
    ensures Strstr(Framed(count, list), Pattern("sessions", false)) == Some(at)
    ensures at <= |Framed(count, list)| && Framed(count, list)[at..] == list
  {
    hide Strstr, Pattern, FieldText, Clean, Decimal, IsKey;
    Keys();
    FrameClean(count);
    var b := FieldText(CountField(count)) + ("," + list);
    var a := FieldText(STATUS) + ("," + b);
    FoundBehind(CountField(count), list, "sessions", 0);
    at := |FieldText(CountField(count))| + 1;
    FoundBehind(STATUS, b, "sessions", at);
    at := |FieldText(STATUS)| + 1 + at;
    SkipChar('{', a, "sessions", false);
    at := 1 + at;
    assert ("{" + a)[at..] == a[at - 1..];
    assert list[0..] == list;
  }

  lemma PastChar(c: char, s: string, k: string)
    requires c != '"'
    ensures Past(Strstr([c] + s, Pattern(k, false)), [c] + s, Pattern(k, false)) ==
            Past(Strstr(s, Pattern(k, false)), s, Pattern(k, false))
  {
    SkipChar(c, s, k, false);
    match Strstr(s, Pattern(k, false))
    case None =>
    case Some(i) => assert ([c] + s)[1 + i + |Pattern(k, false)|..] == s[i + |Pattern(k, false)|..];
  }

  /** A longer pattern that fits where the shorter one first occurs first occurs there too. */
  lemma {:induction false} LongerPattern(s: string, a: string, b: string, at: nat)
    requires Strstr(s, a) == Some(at) && StartsWith(s[at..], a + b)
    ensures Strstr(s, a + b) == Some(at)
  {
    assert StartsWith(s, a + b) ==> StartsWith(s, a) by {
      assert forall i | 0 <= i < |a| :: (a + b)[i] == a[i];
    }
    if at > 0 {
      assert s[1..][at - 1..] == s[at..];
      LongerPattern(s[1..], a, b, at - 1);
    } else {
      assert s[0..] == s;
    }
  }

  /** Parsing the printed list gives the count, and the rows back exactly when every name is quote-free and
      shorter than the name buffer. It holds for any number of rows. */
  lemma ParseUndoesPrint(rows: seq<Row>)
    requires AllPrintable(rows)
    ensures ParseResponse(PrintList(rows)).0 == |rows|
    ensures ParseResponse(PrintList(rows)).1 == rows <==> GoodNames(rows)
  {
    hide Strstr, FieldText, Entries, Framed, ParseRows, ParseCount, Pattern;
    var list := FieldText(SESSIONS_OPEN) + Entries(rows);
    FramedCount(|rows|, list);
    if rows != [] {
      ListRows(rows);
      HitAtStart(SESSIONS_OPEN, Entries(rows), "sessions", false);
      var at := FramedList(|rows|, list);
      var pat := Pattern("sessions", false);
      SessionsOpenText();
      LongerPattern(PrintList(rows), pat, "[", at);
    }
  }

  lemma SessionsOpenText()
    ensures FieldText(SESSIONS_OPEN) == Pattern("sessions", false) + "["
  {
  }

  lemma ListRows(rows: seq<Row>)
    requires rows != [] && AllPrintable(rows)
    ensures ParseRows(FieldText(SESSIONS_OPEN) + Entries(rows)) == rows <==> GoodNames(rows)
  {
    Keys();
    SitesSkipField(SESSIONS_OPEN, Entries(rows));
    SitesSkipChar('{', EntryFrom(rows[0], MoreEntries(rows[1..])));
    RowsReadBack(rows);
  }

  // ---- The response buffer ----

  /** snprintf(buf + offset, size - offset, ...): what fits, a terminator, and the full length. */
  method Snprintf(buf: array<char>, offset: nat, text: string) returns (n: nat)
    requires offset < buf.Length
    modifies buf
    ensures n == |text| && buf[..offset] == old(buf[..offset])
    ensures var shown := Truncate(text, buf.Length - offset);
            buf[offset..offset + |shown|] == shown && buf[offset + |shown|] == '\0'
  {
    n := |text|;
    var shown := Truncate(text, buf.Length - offset);
    forall i | 0 <= i < |shown| {
      buf[offset + i] := shown[i];
    }
    buf[offset + |shown|] := '\0';
  }

  /** One pass of the printing loop. */
  function Chunk(r: Row, first: bool): string
    requires Printable(r)
  {
    (if first then "" else ",") + "{" + FieldText(IdField(r)) + "," + FieldText(NameField(r)) + ","
    + FieldText(PidField(r)) + "}"
  }

  function Opening(count: nat): string {
    "{" + FieldText(STATUS) + "," + FieldText(CountField(count)) + "," + FieldText(SESSIONS_OPEN)
  }

  /** What is still to print when `i` rows are out. */
  function ToPrint(rows: seq<Row>, i: nat): string
    requires AllPrintable(rows) && i <= |rows|
  {
    if i == 0 then Entries(rows) else MoreEntries(rows[i..])
  }

  lemma Flatten(comma: string, a: string, b: string, c: string, rest: string)
    ensures comma + ("{" + (a + ("," + (b + ("," + (c + ("}" + rest))))))) ==
            comma + "{" + a + "," + b + "," + c + "}" + rest
  {
    var r1 := "}" + rest;
    var r2 := c + r1;
    var r3 := "," + r2;
    var r4 := b + r3;
    var r5 := "," + r4;
    var r6 := a + r5;
    Assoc(comma, "{", r6);
    Assoc(comma + "{", a, r5);
    Assoc(comma + "{" + a, ",", r4);
    Assoc(comma + "{" + a + ",", b, r3);
    Assoc(comma + "{" + a + "," + b, ",", r2);
    Assoc(comma + "{" + a + "," + b + ",", c, r1);
    Assoc(comma + "{" + a + "," + b + "," + c, "}", rest);
  }

  lemma PrintStep(rows: seq<Row>, i: nat)
    requires AllPrintable(rows) && i < |rows|
    ensures ToPrint(rows, i) == Chunk(rows[i], i == 0) + ToPrint(rows, i + 1)
  {
    var r, rest := rows[i], ToPrint(rows, i + 1);
    assert rows[i..][0] == r && rows[i..][1..] == rows[i + 1..] && rows[0..] == rows;
    Flatten(if i == 0 then "" else ",", FieldText(IdField(r)), FieldText(NameField(r)), FieldText(PidField(r)), rest);
    assert "" + ("{" + EntryFrom(r, rest)) == "{" + EntryFrom(r, rest);
  }

  lemma PrintStart(rows: seq<Row>)
    requires AllPrintable(rows)
    ensures PrintList(rows) == Opening(|rows|) + ToPrint(rows, 0)
  {
    var a, b, c, rest := FieldText(STATUS), FieldText(CountField(|rows|)), FieldText(SESSIONS_OPEN), Entries(rows);
    Assoc("{", a, "," + (b + ("," + (c + rest))));
    Assoc("{" + a, ",", b + ("," + (c + rest)));
    Assoc("{" + a + ",", b, "," + (c + rest));
    Assoc("{" + a + "," + b, ",", c + rest);
    Assoc("{" + a + "," + b + ",", c, rest);
  }

  lemma ChunkLength(r: Row, first: bool)
    requires Printable(r) && |r.name| < NAME_SIZE
    ensures |Chunk(r, first)| <= 108
  {
    assert Power10(10) == 10 * Power10(9) == 100 * Power10(8) == 1000 * Power10(7);
    assert Power10(7) == 10 * Power10(6) == 100 * Power10(5) == 1000 * Power10(4);
    assert Power10(4) == 10 * Power10(3) == 100 * Power10(2) == 10000;
    DecimalLength(r.id, 10);
    DecimalLength(r.pid, 10);
  }

  lemma OpeningLength(count: nat)
    requires count <= MAX_ACTIVE
    ensures |Opening(count)| <= 38
  {
    assert Power10(2) == 100;
    DecimalLength(count, 2);
  }

  /** What snprintf wrote, when it fits. */
  lemma Written(buf: seq<char>, offset: nat, text: string, before: string)
    requires offset + |text| < |buf| && buf[..offset] == before && buf[offset..offset + |text|] == text
    ensures buf[..offset + |text|] == before + text
  {
  }

  /** The session_list branch of handle_command. For every table the engine can hold (at most sixteen
      sessions, names within their buffer) neither the offset guard nor truncation is reached, and the
      response is the whole printed list. */
  method PrintSessions(rows: seq<Row>, response: array<char>) returns (length: nat)
    requires AllPrintable(rows) && |rows| <= MAX_ACTIVE && response.Length == RESPONSE_SIZE
    requires forall i | 0 <= i < |rows| :: |rows[i].name| < NAME_SIZE
    modifies response
    ensures length == |PrintList(rows)| < response.Length
    ensures response[..length] == PrintList(rows) && response[length] == '\0'
  {
    hide PrintList, ToPrint, Opening, AllPrintable;
    ghost var opening, left, whole := Opening(|rows|), ToPrint(rows, 0), PrintList(rows);
    PrintStart(rows);
    OpeningLength(|rows|);
    var offset, out := PrintChunk(response, 0, Opening(|rows|), "");
    assert out == opening;
    var i := 0;
    while i < |rows| && offset < response.Length - 100
      invariant 0 <= i <= |rows| && left == ToPrint(rows, i) && whole == out + left
      invariant offset == |out| <= 38 + 108 * i && response[..offset] == out
    {
      offset, out, left := PrintNext(rows, i, response, offset, out, left);
      i := i + 1;
    }
    AllPrinted(rows, left);
    length, out := PrintChunk(response, offset, "]}", out);
  }

  /** One turn of the loop. */
  method PrintNext(rows: seq<Row>, i: nat, response: array<char>, offset: nat, ghost out: string, ghost left: string)
    returns (offset': nat, ghost out': string, ghost left': string)
    requires AllPrintable(rows) && i < |rows| && |rows[i].name| < NAME_SIZE && left == ToPrint(rows, i)
    requires offset == |out| && offset + 108 < response.Length && response[..offset] == out
    modifies response
    ensures offset' == |out'| <= offset + 108 && response[..offset'] == out'
    ensures left' == ToPrint(rows, i + 1) && out' + left' == out + left
  {
    hide ToPrint;
    var chunk := Chunk(rows[i], i == 0);
    PrintRow(rows, i, out, chunk, left);
    left' := ToPrint(rows, i + 1);
    offset', out' := PrintChunk(response, offset, chunk, out);
  }

  lemma AllPrinted(rows: seq<Row>, left: string)
    requires AllPrintable(rows) && left == ToPrint(rows, |rows|)
    ensures left == "]}"
  {
  }

  lemma PrintRow(rows: seq<Row>, i: nat, out: string, chunk: string, left: string)
    requires AllPrintable(rows) && i < |rows| && |rows[i].name| < NAME_SIZE
    requires left == ToPrint(rows, i) && chunk == Chunk(rows[i], i == 0)
    ensures out + left == out + chunk + ToPrint(rows, i + 1) && |chunk| <= 108
  {
    PrintStep(rows, i);
    ChunkLength(rows[i], i == 0);
    Assoc(out, chunk, ToPrint(rows, i + 1));
  }

  /** `offset += snprintf(response + offset, resp_size - offset, ...)` for a text that fits. */
  method PrintChunk(response: array<char>, offset: nat, text: string, ghost out: string)
    returns (offset': nat, ghost out': string)
    requires offset + |text| < response.Length && offset == |out| && response[..offset] == out
    modifies response
    ensures offset' == offset + |text| && out' == out + text
    ensures response[..offset'] == out' && response[offset'] == '\0'
  {
    var n := Snprintf(response, offset, text);
    Written(response[..], offset, text, out);
    return offset + n, out + text;
  }
}
