/** shell/src/parser.c: variable expansion. The environment maps names to values. */
module Expansion {
  import opened CHeap
  import opened Lexer
  import opened Seqs
  import opened ShellLimits

  const NAME_MAX: nat := 255

  type Env = map<string, string>

  /** Values are C strings and getenv("") finds nothing. */
  ghost predicate IsEnv(env: Env) {
    "" !in env && forall name | name in env :: IsCString(env[name])
  }

  /** HOME is copied into the result buffer unchecked; so long it can be. */
  ghost predicate HomeFits(env: Env) {
    "HOME" in env ==> |env["HOME"]| < MAX_LINE_LENGTH
  }

  /** What getenv contributes: nothing for an unset variable. */
  function Value(env: Env, name: string): string {
    if name in env then env[name] else ""
  }

  /** isalnum in the C locale, or an underscore. */
  predicate IsNameChar(c: char) {
    'a' <= c <= 'z' || 'A' <= c <= 'Z' || '0' <= c <= '9' || c == '_'
  }

  // ---- Specification ----

  /** The longest prefix of name characters, at most `room` of them. */
  function BareName(s: string, room: nat): (n: nat)
    ensures n <= |s|
  {
    if s == "" || room == 0 || !IsNameChar(s[0]) then 0 else 1 + BareName(s[1..], room - 1)
  }

  /** The characters before a closing brace, at most `room` of them. */
  function BracedName(s: string, room: nat): (n: nat)
    ensures n <= |s|
  {
    if s == "" || room == 0 || s[0] == '}' then 0 else 1 + BracedName(s[1..], room - 1)
  }

  datatype Ref = Ref(name: string, rest: string)

  /** The variable reference that follows a dollar sign. */
  function ScanRef(s: string): (r: Ref)
    ensures |r.rest| <= |s|
  {
    if s != "" && s[0] == '{' then
      var n := BracedName(s[1..], NAME_MAX);
      var after := s[1 + n..];
      Ref(s[1..1 + n], if after != "" && after[0] == '}' then after[1..] else after)
    else if s != "" && s[0] == '?' then Ref("?", s[1..])
    else Ref(s[..BareName(s, NAME_MAX)], s[BareName(s, NAME_MAX)..])
  }

  /** The full expansion of what is left of a token after `out` has been produced. */
  function Expand(s: string, out: string, env: Env): string
    decreases |s|
  {
    if s == "" then out
    else if s[0] == '$' then
      var ref := ScanRef(s[1..]);
      Expand(ref.rest, out + Value(env, ref.name), env)
    else if s[0] == '~' && out == "" then Expand(s[1..], out + Value(env, "HOME"), env)
    else Expand(s[1..], out + [s[0]], env)
  }

  /** The same walk under the buffer limit: a value that does not fit is dropped whole, and the walk
      stops once 4095 characters are out. */
  function ExpandWithin(s: string, out: string, env: Env): string
    decreases |s|
  {
    if s == "" || |out| >= MAX_LINE_LENGTH - 1 then out
    else if s[0] == '$' then
      var ref := ScanRef(s[1..]);
      var v := Value(env, ref.name);
      ExpandWithin(ref.rest, if |out| + |v| < MAX_LINE_LENGTH - 1 then out + v else out, env)
    else if s[0] == '~' && out == "" then ExpandWithin(s[1..], out + Value(env, "HOME"), env)
    else ExpandWithin(s[1..], out + [s[0]], env)
  }

  predicate HasDollar(s: string) {
    exists i :: 0 <= i < |s| && s[i] == '$'
  }

  /** What the shell puts in place of a token. */
  function Expanded(token: string, env: Env): string {
    if HasDollar(token) then ExpandWithin(token, "", env) else token
  }

  /** The code writes past its result buffer on this token. */
  predicate Overruns(token: string, env: Env) {
    HasDollar(token) && |ExpandWithin(token, "", env)| >= MAX_LINE_LENGTH
  }

  /** What the code demands of a list of tokens. */
  predicate AllFit(tokens: seq<string>, env: Env) {
    forall i | 0 <= i < |tokens| :: !Overruns(tokens[i], env)
  }

  // ---- The loops ----

  method FindDollar(token: string) returns (found: bool)
    ensures found == HasDollar(token)
  {
    var i := 0;
    while i < |token|
      invariant i <= |token| && forall j | 0 <= j < i :: token[j] != '$'
    {
      if token[i] == '$' {
        return true;
      }
      i := i + 1;
    }
    return false;
  }

  /** The name before a closing brace, starting after the opening one. */
  method ReadBraced(token: string, start: nat, varname: array<char>) returns (p: nat, vi: nat)
    requires IsCString(token) && start <= |token| && varname.Length == NAME_MAX + 1
    modifies varname
    ensures vi == BracedName(token[start..], NAME_MAX) <= NAME_MAX && p == start + vi <= |token|
    ensures varname[..vi] == token[start..start + vi]
  {
    hide BracedName;
    p, vi := start, 0;
    while Peek(token, p) != '\0' && Peek(token, p) != '}' && vi < NAME_MAX
      invariant p == start + vi <= |token| && vi <= NAME_MAX
      invariant varname[..vi] == token[start..start + vi]
      invariant BracedName(token[start..], NAME_MAX) == vi + BracedName(token[p..], NAME_MAX - vi)
      decreases |token| - p
    {
      BracedNext(token, p, NAME_MAX - vi);
      varname[vi] := token[p];
      p, vi := p + 1, vi + 1;
    }
    BracedStops(token, p, NAME_MAX - vi);
  }

  lemma BracedNext(token: string, p: nat, room: nat)
    requires p < |token| && token[p] != '}' && room > 0
    ensures BracedName(token[p..], room) == 1 + BracedName(token[p + 1..], room - 1)
  {
    assert token[p..][1..] == token[p + 1..];
  }

  lemma BracedStops(token: string, p: nat, room: nat)
    requires p <= |token| && (p == |token| || token[p] == '}' || room == 0)
    ensures BracedName(token[p..], room) == 0
  {
  }

  method ReadBare(token: string, start: nat, varname: array<char>) returns (p: nat, vi: nat)
    requires IsCString(token) && start <= |token| && varname.Length == NAME_MAX + 1
    modifies varname
    ensures vi == BareName(token[start..], NAME_MAX) <= NAME_MAX && p == start + vi <= |token|
    ensures varname[..vi] == token[start..start + vi]
  {
    hide BareName, IsNameChar;
    p, vi := start, 0;
    while Peek(token, p) != '\0' && IsNameChar(Peek(token, p)) && vi < NAME_MAX
      invariant p == start + vi <= |token| && vi <= NAME_MAX
      invariant varname[..vi] == token[start..start + vi]
      invariant BareName(token[start..], NAME_MAX) == vi + BareName(token[p..], NAME_MAX - vi)
      decreases |token| - p
    {
      BareNext(token, p, NAME_MAX - vi);
      varname[vi] := token[p];
      p, vi := p + 1, vi + 1;
    }
    BareStops(token, p, NAME_MAX - vi);
  }

  lemma BareNext(token: string, p: nat, room: nat)
    requires p < |token| && IsNameChar(token[p]) && room > 0
    ensures BareName(token[p..], room) == 1 + BareName(token[p + 1..], room - 1)
  {
    assert token[p..][1..] == token[p + 1..];
  }

  lemma BareStops(token: string, p: nat, room: nat)
    requires p <= |token| && (p == |token| || !IsNameChar(token[p]) || room == 0)
    ensures BareName(token[p..], room) == 0
  {
  }

  /** Copies a variable name into `varname` and steps over the reference. */
  method ReadRef(token: string, start: nat, varname: array<char>) returns (p: nat, vi: nat)
    requires IsCString(token) && start <= |token| && varname.Length == NAME_MAX + 1
    modifies varname
    ensures start <= p <= |token| && vi <= NAME_MAX
    ensures Ref(varname[..vi], token[p..]) == ScanRef(token[start..])
  {
    hide ScanRef, BracedName, BareName;
    if Peek(token, start) == '{' {
      p, vi := ReadBraced(token, start + 1, varname);
      BracedRefAt(token, start, vi);
      if Peek(token, p) == '}' {
        p := p + 1;
      }
    } else if Peek(token, start) == '?' {
      varname[0] := '?';
      p, vi := start + 1, 1;
      StatusRefAt(token, start);
      assert varname[..1] == "?";
    } else {
      p, vi := ReadBare(token, start, varname);
      BareRefAt(token, start, vi);
    }
  }

  /** The references at a position of the token. */
  lemma BracedRefAt(token: string, start: nat, n: nat)
    requires start < |token| && token[start] == '{' && start + 1 + n <= |token|
    requires n == BracedName(token[start + 1..], NAME_MAX)
    ensures var p := start + 1 + n;
            ScanRef(token[start..]) ==
            Ref(token[start + 1..p], token[if p < |token| && token[p] == '}' then p + 1 else p..])
  {
    hide BracedName, ScanRef;
    var s, p := token[start..], start + 1 + n;
    assert s[1..] == token[start + 1..] && s[1..1 + n] == token[start + 1..p] && s[1 + n..] == token[p..];
    assert p < |token| ==> token[p..][1..] == token[p + 1..];
    ScanAfterBrace(s);
  }

  lemma StatusRefAt(token: string, start: nat)
    requires start < |token| && token[start] == '?'
    ensures ScanRef(token[start..]) == Ref("?", token[start + 1..])
  {
    assert token[start..][1..] == token[start + 1..];
  }

  lemma BareRefAt(token: string, start: nat, n: nat)
    requires start + n <= |token| && (start < |token| ==> token[start] != '{' && token[start] != '?')
    requires n == BareName(token[start..], NAME_MAX)
    ensures ScanRef(token[start..]) == Ref(token[start..start + n], token[start + n..])
  {
    hide BareName, ScanRef;
    var s := token[start..];
    assert s[..n] == token[start..start + n] && s[n..] == token[start + n..];
    ScanBare(s);
  }

  lemma ScanAfterBrace(t: string)
    requires t != "" && t[0] == '{'
    ensures var n := BracedName(t[1..], NAME_MAX);
            ScanRef(t) == Ref(t[1..1 + n], if t[1 + n..] != "" && t[1 + n..][0] == '}' then t[1 + n..][1..] else t[1 + n..])
  {
  }

  lemma ScanBare(t: string)
    requires t == "" || (t[0] != '{' && t[0] != '?')
    ensures ScanRef(t) == Ref(t[..BareName(t, NAME_MAX)], t[BareName(t, NAME_MAX)..])
  {
  }

  /** memcpy of a value to the end of the result. */
  method CopyTo(result: array<char>, ri: nat, v: string) returns (ri': nat)
    requires ri + |v| < result.Length
    modifies result
    ensures ri' == ri + |v| && result[..ri'] == old(result[..ri]) + v
  {
    forall i | 0 <= i < |v| {
      result[ri + i] := v[i];
    }
    ri' := ri + |v|;
  }

  /** The value of a variable goes to the result when it is set and fits below the limit. */
  method CopyValue(result: array<char>, ri: nat, env: Env, name: string) returns (ri': nat)
    requires result.Length == MAX_LINE_LENGTH && ri < MAX_LINE_LENGTH
    modifies result
    ensures ri' < MAX_LINE_LENGTH
    ensures var v := Value(env, name);
            result[..ri'] == if ri + |v| < MAX_LINE_LENGTH - 1 then old(result[..ri]) + v else old(result[..ri])
  {
    ri' := ri;
    if name in env && ri + |env[name]| < MAX_LINE_LENGTH - 1 {
      ri' := CopyTo(result, ri, env[name]);
    }
  }

  /** parser.c's expand_variables on every token that does not overrun its buffer: the new heap string is
      `Expanded(token, env)`, and the other buffer is never overrun. */
  method ExpandVariables(heap: Heap, token: string, env: Env) returns (q: nat)
    requires heap.Valid() && IsCString(token) && IsEnv(env) && !Overruns(token, env)
    modifies heap
    ensures heap.Valid()
    ensures q == old(heap.next) && heap.next == old(heap.next) + 1
    ensures heap.cells == old(heap.cells)[q := Expanded(token, env)]
    ensures '$' !in token ==> heap.cells[q] == token
  {
    var dollar := FindDollar(token);
    if !dollar {
      q := heap.Strdup(token);
      return;
    }
    var result := new char[MAX_LINE_LENGTH];
    var ri, p := 0, 0;
    assert token[0..] == token;
    assert result[..0] == "";
    hide ExpandWithin;
    while Peek(token, p) != '\0' && ri < MAX_LINE_LENGTH - 1
      invariant 0 <= p <= |token| && 0 <= ri < MAX_LINE_LENGTH
      invariant ExpandWithin(token, "", env) == ExpandWithin(token[p..], result[..ri], env)
      invariant heap.Valid() && heap.next == old(heap.next) && heap.cells == old(heap.cells)
      decreases |token| - p
    {
      if token[p] == '~' && ri == 0 {
        TildeFits(token[p..], env);
      }
      p, ri := ExpandNext(token, p, result, ri, env);
    }
    ExpandEnds(token, p, result[..ri], env);
    q := heap.Strdup(result[..ri]);
  }

  lemma ExpandEnds(token: string, p: nat, out: string, env: Env)
    requires IsCString(token) && p <= |token| && (Peek(token, p) == '\0' || |out| >= MAX_LINE_LENGTH - 1)
    ensures ExpandWithin(token[p..], out, env) == out
  {
  }

  /** HOME fits where a walk that stays within the buffer begins with a tilde. */
  lemma TildeFits(s: string, env: Env)
    requires s != "" && s[0] == '~' && |ExpandWithin(s, "", env)| < MAX_LINE_LENGTH
    ensures HomeFits(env)
  {
    assert "" + Value(env, "HOME") == Value(env, "HOME");
  }

  /** One turn of the loop. */
  method ExpandNext(token: string, p: nat, result: array<char>, ri: nat, env: Env) returns (p': nat, ri': nat)
    requires IsCString(token) && IsEnv(env) && result.Length == MAX_LINE_LENGTH
    requires p < |token| && ri < MAX_LINE_LENGTH - 1 && (token[p] == '~' && ri == 0 ==> HomeFits(env))
    modifies result
    ensures p < p' <= |token| && ri' < MAX_LINE_LENGTH
    ensures ExpandWithin(token[p'..], result[..ri'], env) == ExpandWithin(token[p..], old(result[..ri]), env)
  {
    p', ri' := p + 1, ri;
    assert token[p..][1..] == token[p + 1..];
    if Peek(token, p) == '$' {
      var varname := new char[NAME_MAX + 1];
      var vi;
      p', vi := ReadRef(token, p + 1, varname);
      ri' := CopyValue(result, ri, env, varname[..vi]);
    } else if Peek(token, p) == '~' && ri == 0 {
      if "HOME" in env {
        ri' := CopyTo(result, ri, env["HOME"]);
      } else {
        assert result[..ri] + Value(env, "HOME") == result[..ri];
      }
    } else {
      ghost var out := result[..ri];
      result[ri] := token[p];
      assert result[..ri + 1] == out + [token[p]];
      ri' := ri + 1;
    }
  }

  // ---- What the walk means ----

  lemma {:induction false} ExpandGrows(s: string, out: string, env: Env)
    ensures |Expand(s, out, env)| >= |out|
    decreases |s|
  {
    if s == "" {
    } else if s[0] == '$' {
      var ref := ScanRef(s[1..]);
      ExpandGrows(ref.rest, out + Value(env, ref.name), env);
    } else if s[0] == '~' && out == "" {
      ExpandGrows(s[1..], out + Value(env, "HOME"), env);
    } else {
      ExpandGrows(s[1..], out + [s[0]], env);
    }
  }

  /** A full expansion below 4095 characters is never cut. */
  lemma {:induction false} WithinIsFull(s: string, out: string, env: Env)
    requires |Expand(s, out, env)| < MAX_LINE_LENGTH - 1
    ensures ExpandWithin(s, out, env) == Expand(s, out, env)
    decreases |s|
  {
    ExpandGrows(s, out, env);
    if s == "" {
    } else if s[0] == '$' {
      var ref := ScanRef(s[1..]);
      ExpandGrows(ref.rest, out + Value(env, ref.name), env);
      WithinIsFull(ref.rest, out + Value(env, ref.name), env);
    } else if s[0] == '~' && out == "" {
      WithinIsFull(s[1..], out + Value(env, "HOME"), env);
    } else {
      WithinIsFull(s[1..], out + [s[0]], env);
    }
  }

  /** The result always fits the buffer, terminator included. */
  lemma {:induction false} WithinFits(s: string, out: string, env: Env)
    requires |out| < MAX_LINE_LENGTH && HomeFits(env)
    ensures |ExpandWithin(s, out, env)| < MAX_LINE_LENGTH
    decreases |s|
  {
    if s == "" || |out| >= MAX_LINE_LENGTH - 1 {
    } else if s[0] == '$' {
      var ref := ScanRef(s[1..]);
      var v := Value(env, ref.name);
      WithinFits(ref.rest, if |out| + |v| < MAX_LINE_LENGTH - 1 then out + v else out, env);
    } else if s[0] == '~' && out == "" {
      WithinFits(s[1..], out + Value(env, "HOME"), env);
    } else {
      WithinFits(s[1..], out + [s[0]], env);
    }
  }

  // ---- When the buffer is overrun ----

  /** The walk reaches a tilde while nothing is out: before it stand only references whose value is empty or
      dropped. */
  predicate ReachesTilde(s: string, env: Env)
    decreases |s|
  {
    && s != ""
    && if s[0] == '$' then
         var ref := ScanRef(s[1..]);
         var v := Value(env, ref.name);
         (v == "" || |v| >= MAX_LINE_LENGTH - 1) && ReachesTilde(ref.rest, env)
       else s[0] == '~'
  }

  /** Once something is out no tilde is expanded any more, and everything else is checked. */
  lemma {:induction false} StartedFits(s: string, out: string, env: Env)
    requires 0 < |out| < MAX_LINE_LENGTH
    ensures |ExpandWithin(s, out, env)| < MAX_LINE_LENGTH
    decreases |s|
  {
    if s == "" || |out| >= MAX_LINE_LENGTH - 1 {
    } else if s[0] == '$' {
      var ref := ScanRef(s[1..]);
      var v := Value(env, ref.name);
      StartedFits(ref.rest, if |out| + |v| < MAX_LINE_LENGTH - 1 then out + v else out, env);
    } else {
      StartedFits(s[1..], out + [s[0]], env);
    }
  }

  lemma {:induction false} WalkOverruns(s: string, env: Env)
    ensures |ExpandWithin(s, "", env)| >= MAX_LINE_LENGTH <==> !HomeFits(env) && ReachesTilde(s, env)
    decreases |s|
  {
    if s == "" {
    } else if s[0] == '$' {
      var ref := ScanRef(s[1..]);
      var v := Value(env, ref.name);
      PlusNothing(v);
      if v == "" || |v| >= MAX_LINE_LENGTH - 1 {
        WalkOverruns(ref.rest, env);
      } else {
        StartedFits(ref.rest, v, env);
      }
    } else if s[0] == '~' {
      PlusNothing(Value(env, "HOME"));
      if HomeFits(env) {
        WithinFits(s, "", env);
      }
    } else {
      StartedFits(s[1..], "" + [s[0]], env);
    }
  }

  /** A token overruns the buffer just when it has a dollar sign, HOME is too long, and the walk reaches a tilde
      while nothing is out. */
  lemma OverrunsExactly(token: string, env: Env)
    ensures Overruns(token, env) <==> HasDollar(token) && !HomeFits(env) && ReachesTilde(token, env)
  {
    WalkOverruns(token, env);
  }

  /** No token overruns the buffer just when HOME has at most 4095 characters: with a longer one `~$` does. */
  lemma HomeFitsExactly(env: Env)
    ensures (forall token | IsCString(token) && |token| < MAX_LINE_LENGTH :: !Overruns(token, env)) <==> HomeFits(env)
  {
    var long := "~$";
    assert long[1] == '$';
    OverrunsExactly(long, env);
    forall token ensures Overruns(token, env) ==> !HomeFits(env) {
      OverrunsExactly(token, env);
    }
  }

  // ---- Tokens written piece by piece ----

  /** Literal text, `${NAME}`, `${NAME` without its brace, `$NAME` or `$` alone, `$?`, and a leading `~`. */
  datatype Segment = Text(text: string) | Braced(name: string) | Unclosed(name: string) | Bare(name: string) | Status | Tilde

  function Spelling(seg: Segment): string {
    match seg
    case Text(text) => text
    case Braced(name) => "${" + name + "}"
    case Unclosed(name) => "${" + name
    case Bare(name) => "$" + name
    case Status => "$?"
    case Tilde => "~"
  }

  /** The variable that a segment other than text stands for. */
  function NameOf(seg: Segment): string
    requires !seg.Text?
  {
    match seg
    case Braced(name) => name
    case Unclosed(name) => name
    case Bare(name) => name
    case Status => "?"
    case Tilde => "HOME"
  }

  function Meaning(seg: Segment, env: Env): string {
    if seg.Text? then seg.text else if NameOf(seg) in env then env[NameOf(seg)] else ""
  }

  function Spell(segs: seq<Segment>): string {
    if segs == [] then "" else Spelling(segs[0]) + Spell(segs[1..])
  }

  function MeaningOf(segs: seq<Segment>, env: Env): string {
    if segs == [] then "" else Meaning(segs[0], env) + MeaningOf(segs[1..], env)
  }

  predicate IsBare(name: string, rest: string) {
    && |name| <= NAME_MAX && (forall i | 0 <= i < |name| :: IsNameChar(name[i]))
    && (rest == "" || !IsNameChar(rest[0]) || |name| == NAME_MAX)
    && (name == "" && rest != "" ==> rest[0] != '{' && rest[0] != '?')
  }

  /** `seg` reads back when `rest` follows it: text has no dollar sign and does not start with a tilde
      while nothing is out yet, a name without brace ends where `rest` starts, one with a missing brace at the
      end of the token or after 255 characters, and a tilde comes before any output. */
  ghost predicate Unambiguous(seg: Segment, rest: string, outEmpty: bool) {
    match seg
    case Text(text) => text != "" && !HasDollar(text) && (outEmpty ==> text[0] != '~')
    case Braced(name) => |name| <= NAME_MAX && forall i | 0 <= i < |name| :: name[i] != '}'
    case Unclosed(name) =>
      && |name| <= NAME_MAX && (forall i | 0 <= i < |name| :: name[i] != '}')
      && (rest == "" || (|name| == NAME_MAX && rest[0] != '}'))
    case Bare(name) => IsBare(name, rest)
    case Status => true
    case Tilde => outEmpty
  }

  ghost predicate Spellable(segs: seq<Segment>, outEmpty: bool, env: Env) {
    segs == [] ||
    (&& Unambiguous(segs[0], Spell(segs[1..]), outEmpty)
     && Spellable(segs[1..], outEmpty && Meaning(segs[0], env) == "", env))
  }

  lemma {:induction false} BracedNameReads(name: string, rest: string, room: nat)
    requires |name| <= room && forall i | 0 <= i < |name| :: name[i] != '}'
    ensures BracedName(name + "}" + rest, room) == |name|
  {
    if name != "" {
      assert (name + "}" + rest)[1..] == name[1..] + "}" + rest;
      BracedNameReads(name[1..], rest, room - 1);
    }
  }

  lemma {:induction false} UnclosedNameReads(name: string, rest: string, room: nat)
    requires |name| <= room && forall i | 0 <= i < |name| :: name[i] != '}'
    requires rest == "" || |name| == room
    ensures BracedName(name + rest, room) == |name|
  {
    if name != "" {
      assert (name + rest)[1..] == name[1..] + rest;
      UnclosedNameReads(name[1..], rest, room - 1);
    } else {
      assert name + rest == rest;
    }
  }

  lemma {:induction false} BareNameReads(name: string, rest: string, room: nat)
    requires |name| <= room && forall i | 0 <= i < |name| :: IsNameChar(name[i])
    requires rest == "" || !IsNameChar(rest[0]) || |name| == room
    ensures BareName(name + rest, room) == |name|
  {
    if name != "" {
      assert (name + rest)[1..] == name[1..] + rest;
      BareNameReads(name[1..], rest, room - 1);
    } else {
      assert name + rest == rest;
    }
  }

  lemma {:induction false} ExpandText(text: string, rest: string, out: string, env: Env)
    requires !HasDollar(text) && (out == "" && text != "" ==> text[0] != '~')
    ensures Expand(text + rest, out, env) == Expand(rest, out + text, env)
  {
    if text == "" {
      assert text + rest == rest && out + text == out;
    } else {
      assert text[0] != '$' && (text + rest)[1..] == text[1..] + rest;
      assert forall i | 0 <= i < |text[1..]| :: text[1..][i] == text[i + 1];
      ExpandText(text[1..], rest, out + [text[0]], env);
      assert out + [text[0]] + text[1..] == out + text;
    }
  }

  lemma AfterName(t: string, u: string, n: nat)
    requires t == "{" + u && n <= |u|
    ensures t[1..] == u && t[1..1 + n] == u[..n] && t[1 + n..] == u[n..]
    ensures n < |u| ==> u[n..] != "" && u[n..][0] == u[n] && u[n..][1..] == u[n + 1..]
  {
  }

  /** What the scan makes of a brace: the name, then what follows it without a closing brace. */
  lemma ScanBrace(u: string)
    ensures var n := BracedName(u, NAME_MAX);
            ScanRef("{" + u) == Ref(u[..n], if n < |u| && u[n] == '}' then u[n + 1..] else u[n..])
  {
    hide BracedName, ScanRef;
    ScanAfterBrace("{" + u);
    AfterName("{" + u, u, BracedName(u, NAME_MAX));
  }

  lemma DollarStep(t: string, out: string, env: Env)
    ensures Expand("$" + t, out, env) == Expand(ScanRef(t).rest, out + Value(env, ScanRef(t).name), env)
  {
    assert ("$" + t)[1..] == t;
  }

  lemma NameAndBrace(name: string, rest: string)
    ensures var u := name + "}" + rest;
            u[..|name|] == name && u[|name|] == '}' && u[|name| + 1..] == rest
  {
  }

  lemma Rejoined(name: string, rest: string)
    ensures "${" + name + "}" + rest == "$" + ("{" + (name + "}" + rest))
  {
  }

  lemma BracedReads(name: string, rest: string, out: string, env: Env)
    requires |name| <= NAME_MAX && forall i | 0 <= i < |name| :: name[i] != '}'
    ensures Expand("${" + name + "}" + rest, out, env) == Expand(rest, out + Value(env, name), env)
  {
    hide BracedName, ScanRef, Expand;
    var u := name + "}" + rest;
    BracedNameReads(name, rest, NAME_MAX);
    ScanBrace(u);
    NameAndBrace(name, rest);
    DollarStep("{" + u, out, env);
    Rejoined(name, rest);
  }

  lemma UnclosedReads(name: string, rest: string, out: string, env: Env)
    requires |name| <= NAME_MAX && forall i | 0 <= i < |name| :: name[i] != '}'
    requires rest == "" || (|name| == NAME_MAX && rest[0] != '}')
    ensures Expand("${" + name + rest, out, env) == Expand(rest, out + Value(env, name), env)
  {
    hide BracedName, ScanRef, Expand;
    var u := name + rest;
    UnclosedNameReads(name, rest, NAME_MAX);
    ScanBrace(u);
    Split(name, rest);
    DollarStep("{" + u, out, env);
    assert "${" + name + rest == "$" + ("{" + u);
  }

  lemma BareReads(name: string, rest: string, out: string, env: Env)
    requires IsBare(name, rest)
    ensures Expand("$" + name + rest, out, env) == Expand(rest, out + Value(env, name), env)
  {
    hide BareName, IsNameChar, ScanRef, Expand, IsBare;
    BareStart(name, rest);
    Split(name, rest);
    ScanBare(name + rest);
    DollarStep(name + rest, out, env);
    Assoc("$", name, rest);
  }

  lemma BareStart(name: string, rest: string)
    requires IsBare(name, rest)
    ensures var t := name + rest;
            BareName(t, NAME_MAX) == |name| && (t == "" || (t[0] != '{' && t[0] != '?'))
  {
    hide BareName, IsNameChar;
    BareNameReads(name, rest, NAME_MAX);
    NameCharIsNoMark(name + rest);
    assert name == "" ==> name + rest == rest;
  }

  lemma NameCharIsNoMark(t: string)
    ensures t != "" && IsNameChar(t[0]) ==> t[0] != '{' && t[0] != '?'
  {
  }

  lemma OneSegment(seg: Segment, rest: string, out: string, env: Env)
    requires Unambiguous(seg, rest, out == "")
    ensures Expand(Spelling(seg) + rest, out, env) == Expand(rest, out + Meaning(seg, env), env)
  {
    hide Expand, ScanRef, HasDollar, IsBare;
    match seg
    case Text(text) => ExpandText(text, rest, out, env);
    case Braced(name) => BracedReads(name, rest, out, env);
    case Unclosed(name) => UnclosedReads(name, rest, out, env);
    case Bare(name) => BareReads(name, rest, out, env);
    case Status => StatusReads(rest, out, env);
    case Tilde => TildeReads(rest, env);
  }

  lemma StatusReads(rest: string, out: string, env: Env)
    ensures Expand("$?" + rest, out, env) == Expand(rest, out + Value(env, "?"), env)
  {
    hide Expand, ScanRef;
    var t := "?" + rest;
    StatusRefAt(t, 0);
    assert t[0..] == t && t[1..] == rest && "$?" + rest == "$" + t;
    DollarStep(t, out, env);
  }

  lemma TildeReads(rest: string, env: Env)
    ensures Expand("~" + rest, "", env) == Expand(rest, "" + Value(env, "HOME"), env)
  {
    assert ("~" + rest)[1..] == rest;
  }

  lemma {:induction false} SpelledExpands(segs: seq<Segment>, out: string, env: Env)
    requires Spellable(segs, out == "", env)
    ensures Expand(Spell(segs), out, env) == out + MeaningOf(segs, env)
  {
    if segs == [] {
    } else {
      var seg, others := segs[0], segs[1..];
      var v, rest := Meaning(seg, env), Spell(others);
      OneSegment(seg, rest, out, env);
      assert (out + v == "") == (out == "" && v == "");
      SpelledExpands(others, out + v, env);
      Assoc(out, v, MeaningOf(others, env));
    }
  }

  /** Expansion replaces each reference by its value and leaves the text between alone, for every spelled
      token that contains a dollar sign and whose expansion stays under the limit. */
  lemma ExpansionMeaning(segs: seq<Segment>, env: Env)
    requires Spellable(segs, true, env) && HasDollar(Spell(segs))
    requires |MeaningOf(segs, env)| < MAX_LINE_LENGTH - 1
    ensures Expanded(Spell(segs), env) == MeaningOf(segs, env)
  {
    SpelledExpands(segs, "", env);
    assert "" + MeaningOf(segs, env) == MeaningOf(segs, env);
    WithinIsFull(Spell(segs), "", env);
  }

  lemma {:induction false} BracedNameIs(s: string, room: nat)
    ensures var n := BracedName(s, room);
            n <= room && (forall i | 0 <= i < n :: s[i] != '}') && (n == |s| || n == room || s[n] == '}')
  {
    if s != "" && room > 0 && s[0] != '}' {
      BracedNameIs(s[1..], room - 1);
      assert forall i | 0 < i < |s| :: s[i] == s[1..][i - 1];
    }
  }

  lemma {:induction false} BareNameIs(s: string, room: nat)
    ensures var n := BareName(s, room);
            n <= room && (forall i | 0 <= i < n :: IsNameChar(s[i])) && (n == |s| || n == room || !IsNameChar(s[n]))
  {
    hide IsNameChar;
    if s != "" && room > 0 && IsNameChar(s[0]) {
      BareNameIs(s[1..], room - 1);
      assert forall i | 0 < i < |s| :: s[i] == s[1..][i - 1];
    }
  }

  lemma BraceSpelled(u: string) returns (seg: Segment)
    ensures var ref := ScanRef("{" + u);
            && Spelling(seg) + ref.rest == "$" + ("{" + u)
            && (forall outEmpty :: Unambiguous(seg, ref.rest, outEmpty))
            && forall env :: Meaning(seg, env) == Value(env, ref.name)
  {
    hide BracedName, ScanRef, Spelling, Meaning, Unambiguous;
    ScanBrace(u);
    BracedNameIs(u, NAME_MAX);
    var n := BracedName(u, NAME_MAX);
    if n < |u| && u[n] == '}' {
      seg := Braced(u[..n]);
      ClosedSpelled(u[..n], u[n + 1..]);
      assert u[..n] + "}" + u[n + 1..] == u;
    } else {
      seg := Unclosed(u[..n]);
      UnclosedSpelled(u[..n], u[n..]);
      assert u[..n] + u[n..] == u;
    }
  }

  lemma ClosedSpelled(name: string, rest: string)
    requires |name| <= NAME_MAX && forall i | 0 <= i < |name| :: name[i] != '}'
    ensures Spelling(Braced(name)) + rest == "$" + ("{" + (name + "}" + rest))
    ensures forall outEmpty :: Unambiguous(Braced(name), rest, outEmpty)
    ensures forall env :: Meaning(Braced(name), env) == Value(env, name)
  {
    Rejoined(name, rest);
  }

  lemma UnclosedSpelled(name: string, rest: string)
    requires |name| <= NAME_MAX && forall i | 0 <= i < |name| :: name[i] != '}'
    requires rest == "" || (|name| == NAME_MAX && rest[0] != '}')
    ensures Spelling(Unclosed(name)) + rest == "$" + ("{" + (name + rest))
    ensures forall outEmpty :: Unambiguous(Unclosed(name), rest, outEmpty)
    ensures forall env :: Meaning(Unclosed(name), env) == Value(env, name)
  {
  }

  lemma BareSpelled(t: string) returns (seg: Segment)
    requires t == "" || (t[0] != '{' && t[0] != '?')
    ensures var ref := ScanRef(t);
            && Spelling(seg) + ref.rest == "$" + t
            && (forall outEmpty :: Unambiguous(seg, ref.rest, outEmpty))
            && forall env :: Meaning(seg, env) == Value(env, ref.name)
  {
    hide IsNameChar, BareName, ScanRef;
    var n := BareName(t, NAME_MAX);
    BareNameIs(t, NAME_MAX);
    ScanBare(t);
    seg := Bare(t[..n]);
    assert t[..n] + t[n..] == t;
    assert n == 0 && t != "" ==> t[n..][0] == t[0];
  }

  /** The reference that a dollar sign begins, as a segment. */
  lemma ReferenceSpelled(t: string) returns (seg: Segment)
    ensures var ref := ScanRef(t);
            && Spelling(seg) + ref.rest == "$" + t
            && (forall outEmpty :: Unambiguous(seg, ref.rest, outEmpty))
            && forall env :: Meaning(seg, env) == Value(env, ref.name)
  {
    if t != "" && t[0] == '{' {
      assert t == "{" + t[1..];
      seg := BraceSpelled(t[1..]);
    } else if t != "" && t[0] == '?' {
      seg := Status;
      assert "$?" + t[1..] == "$" + t;
    } else {
      seg := BareSpelled(t);
    }
  }

  /** Every string is spelled by segments that read back. */
  lemma {:induction false} EveryStringSpelled(s: string, outEmpty: bool, env: Env) returns (segs: seq<Segment>)
    ensures Spell(segs) == s && Spellable(segs, outEmpty, env)
    decreases |s|
  {
    if s == "" {
      return [];
    }
    var seg, rest := Text([s[0]]), s[1..];
    if s[0] == '$' {
      seg := ReferenceSpelled(s[1..]);
      rest := ScanRef(s[1..]).rest;
      assert s == "$" + s[1..] && Unambiguous(seg, rest, outEmpty);
    } else if s[0] == '~' && outEmpty {
      seg := Tilde;
    }
    assert s == Spelling(seg) + rest && Unambiguous(seg, rest, outEmpty);
    var more := EveryStringSpelled(rest, outEmpty && Meaning(seg, env) == "", env);
    segs := [seg] + more;
    assert segs[1..] == more;
  }

  /** Every token has a spelling, and expands fully to what that means; the bounded buffer holds the same for
      every token with a dollar sign whose expansion stays under the limit. */
  lemma EveryTokenMeans(token: string, env: Env) returns (segs: seq<Segment>)
    ensures Spell(segs) == token && Spellable(segs, true, env)
    ensures Expand(token, "", env) == MeaningOf(segs, env)
    ensures HasDollar(token) && |MeaningOf(segs, env)| < MAX_LINE_LENGTH - 1 ==>
              Expanded(token, env) == MeaningOf(segs, env)
  {
    segs := EveryStringSpelled(token, true, env);
    SpelledExpands(segs, "", env);
    PlusNothing(MeaningOf(segs, env));
    if HasDollar(token) && |MeaningOf(segs, env)| < MAX_LINE_LENGTH - 1 {
      ExpansionMeaning(segs, env);
    }
  }

  /** The comment promises that a leading tilde is expanded. Without a dollar sign in the token that
      happens only when it changes nothing. */
  lemma TildeNeedsDollar(token: string, env: Env)
    requires token != "" && !HasDollar(token)
    ensures Expanded(token, env) == Expand(token, "", env) <==> token[0] != '~' || Value(env, "HOME") == "~"
  {
    if token[0] != '~' {
      ExpandText(token, "", "", env);
      assert token + "" == token && "" + token == token;
    } else {
      var home, rest := Value(env, "HOME"), token[1..];
      assert forall i | 0 <= i < |rest| :: rest[i] == token[i + 1];
      assert rest + "" == rest && "" + home == home;
      if home != "" {
        ExpandText(rest, "", home, env);
        assert Expand(token, "", env) == home + rest;
        assert home == "~" ==> home + rest == token;
        assert home + rest == token ==> |home| == 1 && (home + rest)[0] == '~';
      } else {
        NoDollarShrinks(rest, "", env);
      }
    }
  }

  lemma {:induction false} NoDollarShrinks(s: string, out: string, env: Env)
    requires !HasDollar(s) && Value(env, "HOME") == ""
    ensures |Expand(s, out, env)| <= |out| + |s|
  {
    if s != "" {
      assert s[0] != '$' && forall i | 0 <= i < |s[1..]| :: s[1..][i] == s[i + 1];
      if s[0] == '~' && out == "" {
        NoDollarShrinks(s[1..], out + "", env);
        assert out + "" == out;
      } else {
        NoDollarShrinks(s[1..], out + [s[0]], env);
      }
    }
  }

  // ---- What the bounded walk means ----

  /** A token without a dollar sign stays as it is. */
  lemma NoDollarStays(token: string, env: Env)
    requires '$' !in token
    ensures Expanded(token, env) == token
  {
  }

  lemma NameChars(c: char)
    ensures IsNameChar(c) <==>
            48 <= c as int <= 57 || 65 <= c as int <= 90 || c as int == 95 || 97 <= c as int <= 122
  {
  }

  /** What is out after a segment: nothing is added once 4095 characters are out; text is cut there; HOME is added
      whatever its length; and another value is added whole or not at all. */
  function Poured(seg: Segment, out: string, env: Env): string {
    if |out| >= MAX_LINE_LENGTH - 1 then out
    else if seg.Text? then out + Take(seg.text, MAX_LINE_LENGTH - 1 - |out|)
    else if seg.Tilde? || |out| + |Meaning(seg, env)| < MAX_LINE_LENGTH - 1 then out + Meaning(seg, env)
    else out
  }

  function PouredAll(segs: seq<Segment>, out: string, env: Env): string {
    if segs == [] then out else PouredAll(segs[1..], Poured(segs[0], out, env), env)
  }

  /** Every segment reads back where it stands, and after what is then out. */
  ghost predicate Pourable(segs: seq<Segment>, out: string, env: Env) {
    segs == [] ||
    (&& Unambiguous(segs[0], Spell(segs[1..]), out == "")
     && Pourable(segs[1..], Poured(segs[0], out, env), env))
  }

  /** The reference in a segment is scanned as it is meant. */
  lemma RefScans(seg: Segment, rest: string, outEmpty: bool) returns (t: string)
    requires !seg.Text? && !seg.Tilde? && Unambiguous(seg, rest, outEmpty)
    ensures Spelling(seg) + rest == "$" + t && ScanRef(t) == Ref(NameOf(seg), rest)
  {
    hide BracedName, BareName, ScanRef, IsBare, IsNameChar;
    match seg
    case Braced(name) =>
      t := "{" + (name + "}" + rest);
      BracedNameReads(name, rest, NAME_MAX);
      ScanBrace(name + "}" + rest);
      NameAndBrace(name, rest);
      Rejoined(name, rest);
    case Unclosed(name) =>
      t := "{" + (name + rest);
      UnclosedNameReads(name, rest, NAME_MAX);
      ScanBrace(name + rest);
      Split(name, rest);
      assert "${" + name + rest == "$" + t;
    case Bare(name) =>
      t := name + rest;
      BareStart(name, rest);
      Split(name, rest);
      ScanBare(t);
      Assoc("$", name, rest);
    case Status =>
      t := "?" + rest;
      StatusRefAt(t, 0);
      assert t[0..] == t && t[1..] == rest && "$?" + rest == "$" + t;
  }

  lemma WithinStops(s: string, out: string, env: Env)
    requires |out| >= MAX_LINE_LENGTH - 1
    ensures ExpandWithin(s, out, env) == out
  {
  }

  lemma {:induction false} PourText(text: string, rest: string, out: string, env: Env)
    requires '$' !in text && (out == "" && text != "" ==> text[0] != '~') && |out| < MAX_LINE_LENGTH
    ensures ExpandWithin(text + rest, out, env) ==
            ExpandWithin(rest, out + Take(text, MAX_LINE_LENGTH - 1 - |out|), env)
  {
    if |out| == MAX_LINE_LENGTH - 1 {
      WithinStops(text + rest, out, env);
      WithinStops(rest, out, env);
      PlusNothing(out);
    } else if text == "" {
      PlusNothing(rest);
      PlusNothing(out);
    } else {
      assert (text + rest)[1..] == text[1..] + rest && (text + rest)[0] == text[0];
      TakeFirst(text, out, MAX_LINE_LENGTH - 1 - |out|);
      PourText(text[1..], rest, out + [text[0]], env);
    }
  }

  lemma TakeFirst(text: string, out: string, room: nat)
    requires text != "" && room > 0
    ensures out + Take(text, room) == (out + [text[0]]) + Take(text[1..], room - 1)
  {
    assert Take(text, room) == [text[0]] + Take(text[1..], room - 1);
  }

  lemma PourOne(seg: Segment, rest: string, out: string, env: Env)
    requires Unambiguous(seg, rest, out == "")
    ensures ExpandWithin(Spelling(seg) + rest, out, env) == ExpandWithin(rest, Poured(seg, out, env), env)
  {
    if |out| >= MAX_LINE_LENGTH - 1 {
      WithinStops(Spelling(seg) + rest, out, env);
      WithinStops(rest, out, env);
    } else if seg.Text? {
      assert '$' !in seg.text;
      PourText(seg.text, rest, out, env);
    } else if seg.Tilde? {
      assert ("~" + rest)[1..] == rest;
    } else {
      PourRef(seg, rest, out, env);
    }
  }

  lemma PourRef(seg: Segment, rest: string, out: string, env: Env)
    requires !seg.Text? && !seg.Tilde? && Unambiguous(seg, rest, out == "") && |out| < MAX_LINE_LENGTH - 1
    ensures ExpandWithin(Spelling(seg) + rest, out, env) == ExpandWithin(rest, Poured(seg, out, env), env)
  {
    hide ScanRef, Spelling, Unambiguous;
    var t := RefScans(seg, rest, out == "");
    DollarWithin(t, out, env);
  }

  lemma DollarWithin(t: string, out: string, env: Env)
    requires |out| < MAX_LINE_LENGTH - 1
    ensures var v := Value(env, ScanRef(t).name);
            ExpandWithin("$" + t, out, env) ==
            ExpandWithin(ScanRef(t).rest, if |out| + |v| < MAX_LINE_LENGTH - 1 then out + v else out, env)
  {
    hide ScanRef;
    assert ("$" + t)[1..] == t;
  }

  /** The bounded walk pours out a token segment by segment, for tokens of any length and values of any size. */
  lemma {:induction false} SpelledPours(segs: seq<Segment>, out: string, env: Env)
    requires Pourable(segs, out, env)
    ensures ExpandWithin(Spell(segs), out, env) == PouredAll(segs, out, env)
    decreases |segs|
  {
    hide ExpandWithin, Poured, Unambiguous, Spelling;
    if segs == [] {
      NothingLeft(out, env);
    } else {
      PourOne(segs[0], Spell(segs[1..]), out, env);
      SpelledPours(segs[1..], Poured(segs[0], out, env), env);
    }
  }

  lemma NothingLeft(out: string, env: Env)
    ensures ExpandWithin("", out, env) == out
  {
  }

  lemma {:induction false} EveryStringPoured(s: string, out: string, env: Env) returns (segs: seq<Segment>)
    ensures Spell(segs) == s && Pourable(segs, out, env)
    decreases |s|
  {
    hide ScanRef, Poured;
    if s == "" {
      return [];
    }
    var seg, rest := Text([s[0]]), s[1..];
    if s[0] == '$' {
      seg := ReferenceSpelled(s[1..]);
      rest := ScanRef(s[1..]).rest;
      assert s == "$" + s[1..] && Unambiguous(seg, rest, out == "");
    } else if s[0] == '~' && out == "" {
      seg := Tilde;
    }
    assert s == Spelling(seg) + rest && Unambiguous(seg, rest, out == "");
    var more := EveryStringPoured(rest, Poured(seg, out, env), env);
    segs := [seg] + more;
    assert segs[1..] == more;
  }

  /** Every token with a dollar sign becomes what its segments pour out. */
  lemma EveryTokenPours(token: string, env: Env) returns (segs: seq<Segment>)
    ensures Spell(segs) == token && Pourable(segs, "", env)
    ensures Expanded(token, env) == if '$' in token then PouredAll(segs, "", env) else token
  {
    segs := EveryStringPoured(token, "", env);
    SpelledPours(segs, "", env);
    hide ExpandWithin, PouredAll, Pourable, Spell;
  }
}
