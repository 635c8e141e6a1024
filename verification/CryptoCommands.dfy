/** shell/src/crypto_cmds.c: prompting, path resolution and the commands sent to the daemon. */
module CryptoCommands {
  import opened Wrappers
  import opened CText
  import opened Messages
  import opened Seqs

  const PASSWORD_SIZE: nat := 256
  const PATH_SIZE: nat := 1024
  const COMMAND_SIZE: nat := 4096

  // ---- What is sent ----

  /** resolve_path, with its 1024-byte buffer. An empty argument resolves to the directory itself. */
  function ResolvePath(path: string, cwd: string): (r: string)
    ensures |r| < PATH_SIZE
  {
    Truncate(if path != "" && path[0] == '/' then path else cwd + "/" + path, PATH_SIZE)
  }

  /** From an absolute directory the result is an absolute path; it is the argument itself when that is absolute,
      and the path below the directory otherwise, when they fit; and resolving it again changes nothing. */
  lemma ResolvedIsAbsolute(path: string, cwd: string, other: string)
    requires cwd != "" && cwd[0] == '/'
    ensures var r := ResolvePath(path, cwd);
            && r != "" && r[0] == '/' && ResolvePath(r, other) == r
            && (path != "" && path[0] == '/' ==> (r == path <==> |path| < PATH_SIZE))
            && (path == "" || path[0] != '/' ==> (r == cwd + "/" + path <==> |cwd| + 1 + |path| < PATH_SIZE))
  {
  }

  /** The fields of encrypt, decrypt, unlock and container_open. */
  function CommandFields(cmd: string, key: string, value: string, password: string): seq<Field> {
    [Field("cmd", Str(cmd)), Field(key, Str(value)), Field("password", Str(password))]
  }

  function CreateFields(name: string, size: string, password: string): seq<Field> {
    [Field("cmd", Str("container_create")), Field("name", Str(name)), Field("size", Raw(size)),
     Field("password", Str(password))]
  }

  lemma ProtocolKeys()
    ensures IsKey("cmd") && IsKey("path") && IsKey("name") && IsKey("size") && IsKey("password")
    ensures "cmd" != "path" && "cmd" != "name" && "path" != "password" && "name" != "password" && "name" != "size"
    ensures "cmd" != "size" && "cmd" != "password" && "size" != "password" && NoQuote("container_create")
  {
    assert "path"[0] != "name"[0] && "name"[0] != "size"[0];
  }

  /** extract_field for the `j`-th field, when the fields before it are clean and have other keys. */
  lemma FieldReadsBack(fs: seq<Field>, j: nat)
    requires j < |fs| && IsKey(fs[j].key) && fs[j].value.Str?
    requires forall i | 0 <= i < j :: Clean(fs[i]) && fs[i].key != fs[j].key
    ensures ExtractField(Message(fs), fs[j].key) == Some(fs[j].value.text) <==> NoQuote(fs[j].value.text)
  {
    ExtractFieldReadsBack(fs, j, fs[j].key);
  }

  ghost predicate CleanBefore(fs: seq<Field>, j: nat) {
    j <= |fs| && forall i | 0 <= i < j :: Clean(fs[i])
  }

  /** Any message whose keys are distinct reads back field by field, up to the first unclean value. */
  lemma AllReadBack(fs: seq<Field>, msg: string)
    requires fs != [] && msg == Message(fs)
    requires forall i | 0 <= i < |fs| :: IsKey(fs[i].key)
    requires forall i, j | 0 <= i < j < |fs| :: fs[i].key != fs[j].key
    ensures forall j | 0 <= j < |fs| && fs[j].value.Str? && CleanBefore(fs, j) ::
              ExtractField(msg, fs[j].key) == Some(fs[j].value.text) <==> NoQuote(fs[j].value.text)
    ensures forall j | 0 <= j < |fs| && fs[j].value.Raw? && CleanBefore(fs, j) ::
              ExtractInt(msg, fs[j].key) == Atoi(fs[j].value.text)
  {
    forall j | 0 <= j < |fs| && fs[j].value.Str? && CleanBefore(fs, j)
      ensures ExtractField(msg, fs[j].key) == Some(fs[j].value.text) <==> NoQuote(fs[j].value.text)
    {
      FieldReadsBack(fs, j);
    }
    forall j | 0 <= j < |fs| && fs[j].value.Raw? && CleanBefore(fs, j)
      ensures ExtractInt(msg, fs[j].key) == Atoi(fs[j].value.text)
    {
      ExtractIntReadsBack(fs, j, fs[j].key);
    }
  }

  /** The daemon reads back what the shell formatted: the command word always, the value exactly when it
      has no quote, and then the password exactly when it has no quote. */
  lemma CommandReadsBack(cmd: string, key: string, value: string, password: string, msg: string)
    requires NoQuote(cmd) && (key == "path" || key == "name")
    requires msg == Message(CommandFields(cmd, key, value, password))
    ensures ExtractField(msg, "cmd") == Some(cmd)
    ensures ExtractField(msg, key) == Some(value) <==> NoQuote(value)
    ensures NoQuote(value) ==> (ExtractField(msg, "password") == Some(password) <==> NoQuote(password))
  {
    hide ExtractField, ExtractInt, Message;
    var fs := CommandFields(cmd, key, value, password);
    ProtocolKeys();
    AllReadBack(fs, msg);
    assert fs[0] == Field("cmd", Str(cmd)) && CleanBefore(fs, 0);
    assert fs[1] == Field(key, Str(value)) && CleanBefore(fs, 1);
    assert fs[2] == Field("password", Str(password)) && (NoQuote(value) ==> CleanBefore(fs, 2));
  }

  /** vault create: the size is whatever atoi makes of the argument. */
  lemma CreateReadsBack(name: string, size: string, password: string, msg: string)
    requires msg == Message(CreateFields(name, size, password))
    ensures ExtractField(msg, "cmd") == Some("container_create")
    ensures ExtractField(msg, "name") == Some(name) <==> NoQuote(name)
    ensures NoQuote(name) ==> ExtractInt(msg, "size") == Atoi(size)
    ensures NoQuote(name) && NoQuote(size) ==>
              (ExtractField(msg, "password") == Some(password) <==> NoQuote(password))
  {
    hide ExtractField, ExtractInt, Message;
    var fs := CreateFields(name, size, password);
    ProtocolKeys();
    assert |fs| == 4 && fs[0].key == "cmd" && fs[1].key == "name" && fs[2].key == "size" && fs[3].key == "password";
    AllReadBack(fs, msg);
    assert fs[0] == Field("cmd", Str("container_create")) && CleanBefore(fs, 0);
    assert fs[1] == Field("name", Str(name)) && CleanBefore(fs, 1);
    assert fs[2] == Field("size", Raw(size)) && (NoQuote(name) ==> CleanBefore(fs, 2));
    assert fs[3] == Field("password", Str(password));
    assert NoQuote(name) && NoQuote(size) ==> CleanBefore(fs, 3);
  }

  /** session end: the printed session number is read back. */
  lemma EndReadsBack(id: int)
    ensures ExtractInt(Message([Field("cmd", Str("session_end")), Field("id", Raw(Signed(id)))]), "id") == id
  {
    ExtractIntOfDecimal([Field("cmd", Str("session_end")), Field("id", Raw(Signed(id)))], 1, "id", id);
  }

  // ---- Prompting ----

  /** The line that fgets takes into a buffer with room for `room` characters. */
  function LineOf(input: string, room: nat): string {
    input[..LineLen(input, '\n', room)]
  }

  ghost predicate NoNul(s: string) {
    forall i | 0 <= i < |s| :: s[i] != '\0'
  }

  lemma CStrAt(buffer: string, kept: string)
    requires |kept| < |buffer| && buffer[..|kept|] == kept && buffer[|kept|] == '\0' && NoNul(kept)
    ensures CStr(buffer, '\0') == kept
  {
    assert buffer == kept + (['\0'] + buffer[|kept| + 1..]);
    CStrBefore(kept, '\0', buffer[|kept| + 1..]);
  }

  /** The terminal, and the one static buffer that every prompt returns. */
  class Terminal {
    var input: string
    const password: array<char>

    constructor (input: string)
      ensures this.input == input && password.Length == PASSWORD_SIZE && fresh(password)
    {
      this.input := input;
      password := new char[PASSWORD_SIZE](_ => '\0');
    }

    /** prompt_password: NULL at end of input, else the static buffer. */
    method Prompt() returns (pw: Option<array<char>>)
      requires password.Length == PASSWORD_SIZE && NoNul(input)
      modifies this, password
      ensures NoNul(input) && input == old(input)[|LineOf(old(input), PASSWORD_SIZE - 1)|..]
      ensures pw == if old(input) == "" then None else Some(password)
      ensures old(input) != "" ==> CStr(password[..], '\0') == StripLast(LineOf(old(input), PASSWORD_SIZE - 1), '\n')
      ensures old(input) == "" ==> password[..] == old(password[..])
    {
      hide CStr;
      if input == "" {
        return None;
      }
      var line := LineOf(input, PASSWORD_SIZE - 1);
      input := input[|line|..];
      forall i | 0 <= i < |line| {
        password[i] := line[i];
      }
      password[|line|] := '\0';
      var len := |line|;
      if line[len - 1] == '\n' {
        password[len - 1] := '\0';
      }
      var kept := StripLast(line, '\n');
      CStrAt(password[..], kept);
      return Some(password);
    }
  }

  function EncryptMessage(path: string, cwd: string, password: string): string {
    Truncate(Message(CommandFields("encrypt", "path", ResolvePath(path, cwd), password)), COMMAND_SIZE)
  }

  /** The command buffer is large enough for any path and password that reach it. */
  lemma EncryptMessageFits(path: string, cwd: string, password: string)
    requires |password| < PASSWORD_SIZE
    ensures EncryptMessage(path, cwd, password) == Message(CommandFields("encrypt", "path", ResolvePath(path, cwd), password))
  {
    var fs := CommandFields("encrypt", "path", ResolvePath(path, cwd), password);
    assert fs[1..][1..][1..] == [];
    assert |Tail([])| == 1;
    assert Tail(fs[1..][1..]) == "," + (FieldText(fs[2]) + Tail([]));
    assert Tail(fs[1..]) == "," + (FieldText(fs[1]) + Tail(fs[1..][1..]));
  }

  /** The answer to a prompt, as it stands in the buffer. */
  function Answer(input: string): string {
    StripLast(LineOf(input, PASSWORD_SIZE - 1), '\n')
  }

  /** What the next prompt finds of the input. */
  function AfterPrompt(input: string): string {
    input[LineLen(input, '\n', PASSWORD_SIZE - 1)..]
  }

  /** The message that cmd_encrypt sends for what is typed: it is cancelled only by an empty first answer or by the
      end of the input, and carries the second answer. */
  function Sent(input: string, path: string, cwd: string): Option<string> {
    if input == "" || Answer(input) == "" || AfterPrompt(input) == "" then None
    else Some(EncryptMessage(path, cwd, Answer(AfterPrompt(input))))
  }

  /** cmd_encrypt up to the message it sends. Both prompts return the same buffer, so the comparison is of that
      buffer with itself. */
  method EncryptCommand(t: Terminal, path: string, cwd: string) returns (sent: Option<string>)
    requires t.password.Length == PASSWORD_SIZE && NoNul(t.input)
    modifies t, t.password
    ensures sent == Sent(old(t.input), path, cwd)
    ensures old(t.input) == "" || old(t.input)[0] == '\n' ==> sent == None
  {
    if t.input != "" && t.input[0] == '\n' {
      assert "" + ("\n" + t.input[1..]) == t.input;
      OneAnswer("", t.input[1..]);
    }
    var pw := t.Prompt();
    if pw.None? || CStr(pw.value[..], '\0') == "" {
      return None;
    }
    var confirm := t.Prompt();
    if confirm.None? || CStr(pw.value[..], '\0') != CStr(confirm.value[..], '\0') {
      return None;
    }
    return Some(EncryptMessage(path, cwd, CStr(pw.value[..], '\0')));
  }

  /** A line that fits is one answer, and the next prompt goes on behind it. */
  lemma OneAnswer(answer: string, rest: string)
    requires '\n' !in answer && |answer| < PASSWORD_SIZE - 1
    ensures var input := answer + ("\n" + rest);
            Answer(input) == answer && AfterPrompt(input) == rest
  {
    var input := answer + ("\n" + rest);
    LineLenIs(answer, '\n', rest, PASSWORD_SIZE - 1);
    assert input[..|answer| + 1] == answer + "\n" && input[|answer| + 1..] == rest;
    assert (answer + "\n")[..|answer|] == answer;
  }

  /** A line that does not fit is cut into answers. */
  lemma LongAnswer(answer: string, rest: string)
    requires '\n' !in answer && |answer| == PASSWORD_SIZE - 1
    ensures Answer(answer + rest) == answer && AfterPrompt(answer + rest) == rest
  {
    LineLenNone(answer, '\n', rest, PASSWORD_SIZE - 1);
    Split(answer, rest);
  }

  /** The input can end with an answer. */
  lemma LastAnswer(answer: string)
    requires '\n' !in answer && |answer| < PASSWORD_SIZE
    ensures Answer(answer) == answer && AfterPrompt(answer) == ""
  {
    LineLenNone(answer, '\n', "", PASSWORD_SIZE - 1);
    assert answer + "" == answer;
  }

  /** What is sent for whatever is typed: nothing when the input ends before or with the first answer, or when the
      first line is empty; otherwise the second answer, which may be empty. */
  lemma SentExactly(first: string, rest: string, path: string, cwd: string)
    requires '\n' !in first && |first| < PASSWORD_SIZE
    ensures Sent(first, path, cwd) == None
    ensures |first| < PASSWORD_SIZE - 1 ==>
              Sent(first + ("\n" + rest), path, cwd) ==
              if first == "" || rest == "" then None else Some(EncryptMessage(path, cwd, Answer(rest)))
    ensures |first| == PASSWORD_SIZE - 1 ==>
              Sent(first + rest, path, cwd) == if rest == "" then None else Some(EncryptMessage(path, cwd, Answer(rest)))
  {
    hide Answer, AfterPrompt, EncryptMessage;
    LastAnswer(first);
    if |first| < PASSWORD_SIZE - 1 {
      OneAnswer(first, rest);
    } else {
      LongAnswer(first, rest);
    }
  }

  lemma SentOfTwo(first: string, second: string, rest: string, path: string, cwd: string)
    requires first != "" && '\n' !in first && '\n' !in second
    requires |first| < PASSWORD_SIZE - 1 && |second| < PASSWORD_SIZE - 1
    ensures Sent(first + ("\n" + (second + ("\n" + rest))), path, cwd) == Some(EncryptMessage(path, cwd, second))
  {
    hide Answer, AfterPrompt, EncryptMessage;
    OneAnswer(first, second + ("\n" + rest));
    OneAnswer(second, rest);
  }

  /** Two answers are accepted whether or not they agree, as long as the first is not empty: the message is sent
      with the second, and the daemon reads the first out of it just when they agree. */
  lemma MismatchAccepted(first: string, second: string, rest: string, path: string, cwd: string)
    requires first != "" && '\n' !in first && '\n' !in second
    requires |first| < PASSWORD_SIZE - 1 && |second| < PASSWORD_SIZE - 1
    requires NoQuote(second) && NoQuote(ResolvePath(path, cwd))
    ensures var sent := Sent(first + ("\n" + (second + ("\n" + rest))), path, cwd);
            && sent.Some? && ExtractField(sent.value, "password") == Some(second)
            && (ExtractField(sent.value, "password") == Some(first) <==> first == second)
  {
    hide Sent, EncryptMessage, ResolvePath, ExtractField, Message, CommandFields;
    SentOfTwo(first, second, rest, path, cwd);
    EncryptMessageFits(path, cwd, second);
    CommandReadsBack("encrypt", "path", ResolvePath(path, cwd), second, EncryptMessage(path, cwd, second));
  }
}
