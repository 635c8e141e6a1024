# SecureZ+: a verified model of the shell, the daemon protocol and the crypto engine

This project models the logic of SecureZ+ in Dafny: the shell's front end, the text protocol between the shell
and the daemon `crypticd`, the engine's tables, and its file formats. It states what that logic promises and
proves it. `dafny verify dfyconfig.toml` checks the whole project.

The shell:

- `Lexer`, `Quoting`, `Lexemes`: `tokenize` against a recursive lexer, the theorem that tokenising undoes quoting, and
  what every line lexes to, piece by piece.
- `Expansion`: `expand_variables` and its bounded buffer, and what an expansion means piece by piece.
- `Grammar`, `ParseLine`, `ShellLine`: `parse_line` against a grammar of phrases and groups; who owns and who
  frees every string; and a line from its words to the last `free`.
- `Pipes`: `execute_pipeline` as a protocol. The parent and every child have a descriptor table, the children's
  set-up calls interleave in any order, and any pipe or fork can fail.
- `ShellRun`: a turn of the main loop, which parses a line, executes it and frees what was parsed, and the loop over
  any run of lines.

The protocol:

- `CText`, `Messages`, `CryptoCommands`: messages that the shell prints and the daemon searches.
- `SessionText`: the session list that the daemon prints and the shell parses.

The engine:

- `Sessions`, `Containers`, `SecureMemory`: the compacting arrays and the linked list, each against a map or a
  set. Other threads may act between any two lock regions of the bulk operations.
- `KeyStore`, `KeyStoreCalls`, `MasterKey`: the append-only key file, its scan by seeks, its torn writes, the
  master key's file and the emergency wipe.
- `RetrievedKeys`: what retrievals leave in the allocation tracker.
- `NxeFormat`, `NxeFiles`: the packed header, the builder, and the loader up to the memfd.
- `Szenc`: file encryption and decryption.
- `IntegrityText`, `Integrity`, `IntegrityScan`: the line-based database, the recursive scan that builds it, and
  the two checks that read it.

Conventions. Code that works in place is a class or a method over arrays, proved against a specification
function; the theorems are about that function. A system call that can fail has its outcome among the method's
arguments, so a theorem over all arguments is a theorem over every pattern of failing calls. Heap blocks, secure
allocations, descriptors and files are explicit state (`CHeap.Heap`, `Host.Machine`, `Pipes.Kernel`), where a
block can be freed only while it is live. The cryptography is a `Crypto.Suite` of functions with the laws that
decryption undoes encryption, that genuine signatures verify, and that lengths are right. Clocks, randomness,
the terminal and the environment are parameters. `Wrappers`, `Seqs` and `Bytes` hold what several modules use.

## Where the code and its promises differ

The model follows the code. These promises hold only under a condition, and the members named give it.

- A leading tilde is expanded only in tokens that contain a dollar sign (`Expansion.TildeNeedsDollar`). HOME is
  copied unbounded: with one of 4096 characters or more the token `~$` writes past the buffer
  (`Expansion.HomeFitsExactly`, and token by token `Expansion.OverrunsExactly`).
- Quoting does not protect an operator word (`ShellLine.WrittenLineReadsBack`).
- More than fifteen separators give a count of 17 with sixteen commands stored (`ShellLine.CountWithinArray`, and
  `ShellRun.BarLineGroups` for such lines), and the freeing loop would leave the array; hence the precondition of
  `ShellLine.RunLine`. A repeated redirect loses a string (`ShellLine.NothingOverwritten`).
- A trailing separator, as in `ls |`, leaves the parent with an open pipe end (`ShellRun.LineLeaksExactly`,
  `ShellRun.LsBarLeaks`), one for every such line (`ShellRun.LeftExactly`).
- The password confirmation compares a buffer with itself, so two different answers are accepted
  (`CryptoCommands.MismatchAccepted`).
- `session_create` reads the id to return after unlocking (`Sessions.CreateSession`).
- Container names over 60 characters are stored cut (`Containers.OpenThenClose`).
- A store checks neither the length of the name nor its writes (`KeyStoreCalls.StoredIsFound`,
  `KeyStoreCalls.TornStore`), and a long name hides later entries from the listing (`KeyStoreCalls.ListAfterRun`). The
  retrieved key's block is tracked with 16 bytes more than the caller is told, so that freeing it leaves the byte total
  wrong (`RetrievedKeys.TotalAfterKeys`).
  The comment at the head of `key_storage.c` describes a file header that the code neither writes nor reads.
- A failed change of the master key can leave none (`MasterKey.Change`), and the emergency wipe reports success even
  when the files could be neither overwritten nor removed (`MasterKey.WipedKeys`).
- The comment in `nxe_format.h` gives the header 280 bytes; it has 256. The builder limits the ELF, the loader
  the whole file (`NxeFormat.LoadOfBuild`), and its bounds check is a 32-bit sum (`NxeFormat.CheckIsExact`).
- `integrity_check_all` is documented to return 0 if all is OK. Unreadable files are reported but not counted, they
  use up result slots, and the check stops when the slots do; `Integrity.ZeroReturned` says exactly when 0 is
  returned though a file is not OK, and `Integrity.ZeroThoughUnreadable`, `Integrity.ZeroThoughModified` and
  `Integrity.ZeroWithoutSlots` show the ways.
- The database prints paths whole and `%511s` reads them up to the first white space. An unchanged `/etc/a b` is
  reported MISSING as `/etc/a`, or judged by that file (`Integrity.SpacedMissing`), and is NEW to the check of one file
  (`Integrity.SpacedIsNew`). `IntegrityScan.BuiltIsSilent` says exactly when the check after building is silent, and
  `IntegrityScan.BuiltChecksAgree` when the two checks agree. Paths cut to 511 characters can be recorded twice
  (`IntegrityScan.CutNamesCollide`).
- A failed `container_create` can leave a vault file or take away an old header (`Containers.FailedCreate`).

## Model

| member | source | states |
|---|---|---|
| Lexer.SkipBlanks | shell/src/parser.c:28-30 | stops at the first character that is not white space, never past the terminator |
| Lexer.Put | shell/src/parser.c:39 | a full token buffer drops further characters, so the buffer holds the first 4095 of what was read |
| Lexer.CopySingleQuoted | shell/src/parser.c:35-43 | the buffer gets what stands before the closing quote, clipped; reading stops past it or at the terminator |
| Lexer.CopyDoubleQuoted | shell/src/parser.c:44-57 | the same between double quotes, where a backslash keeps any next character |
| Lexer.CopyWord | shell/src/parser.c:75-84 | an unquoted word up to white space, a separator or a redirect character, with backslash escapes |
| Lexer.CopyPiece | shell/src/parser.c:35-86 | one piece of the line is read exactly as the recursive lexer reads it, including the operators of one and two characters |
| Lexer.CopyToken | shell/src/parser.c:27-93 | one turn of the loop moves on, and yields the next token of the recursive lexer or nothing for an empty piece |
| Lexer.Append | shell/src/parser.c:89-92 | the new heap string is the next entry of the token vector |
| Lexer.Tokenize | shell/src/parser.c:18-97 | for every NUL-free line: the vector holds fresh strings equal to the first 255 lexed tokens, each clipped to 4095 characters, and ends in NULL; no buffer is overrun |
| Quoting.SingleQuotedReadsBack | shell/src/parser.c:35-43 | a word between single quotes is read back |
| Quoting.DoubleQuotedReadsBack | shell/src/parser.c:44-57 | a word between double quotes is read back, whichever characters are escaped as long as `\` and `"` are |
| Quoting.WordReadsBack | shell/src/parser.c:75-84 | an unquoted word with its special characters escaped is read back |
| Quoting.PieceReadsBack | shell/src/parser.c:35-86 | a word written in any of the three styles is one piece, whatever blank or end of line follows |
| Quoting.LexOne | shell/src/parser.c:27-93 | a written word after blanks becomes one token |
| Quoting.LexReadsBack | shell/src/parser.c:18-97 | a line of written words separated by blanks lexes to exactly those words |
| Quoting.TokenizeUndoesQuoting | shell/src/parser.c:18-97 | tokenising undoes quoting for any list of non-empty words; the buffers give back the list just when there are at most 255 words of at most 4095 characters |
| Lexemes.OperatorLexes | shell/src/parser.c:62-73 | each of the seven operators is one token wherever it stands, unless a `>` runs into another one |
| Lexemes.WordThenOperator | shell/src/parser.c:35-86 | a word written in any style and directly followed by an operator gives the word and then the operator; only `2>` does not end an unquoted word, and an unescaped `2` belongs to a following `>` |
| Lexemes.LexemesRead | shell/src/parser.c:27-93 | a line of blanks, operators, quoted pieces (closed or running to the end of the line) and unquoted pieces lexes to the tokens they stand for, empty ones dropped |
| Lexemes.EveryLineSpelled | shell/src/parser.c:27-93 | every line is made of such pieces |
| Lexemes.EveryLineMeans | shell/src/parser.c:18-97 | so every line lexes to the tokens of its pieces; the first 255 are kept, and of each its first 4095 characters |
| Expansion.FindDollar | shell/src/parser.c:103 | whether the token holds a dollar sign |
| Expansion.ReadBraced | shell/src/parser.c:116-122 | the name in braces, at most 255 characters of it, without overrunning `varname` |
| Expansion.ReadBare | shell/src/parser.c:130-134 | the longest run of name characters, at most 255 |
| Expansion.ReadRef | shell/src/parser.c:111-136 | the three forms of a reference are read as the recursive scan reads them |
| Expansion.CopyTo | shell/src/parser.c:151-153 | a copied value is appended to the result |
| Expansion.CopyValue | shell/src/parser.c:138-145 | a set value is appended whole when it fits below the limit, else dropped whole |
| Expansion.ExpandNext | shell/src/parser.c:109-160 | one turn of the loop makes one step of the bounded expansion and moves on; HOME has to fit only where a tilde is expanded |
| Expansion.ExpandVariables | shell/src/parser.c:101-164 | on every token that does not overrun the result buffer: the new string is the bounded expansion of the token, the token itself when it has no dollar sign, and the name buffer is never overrun |
| Expansion.ExpandGrows | shell/src/parser.c:109-160 | expanding never takes back what is already out |
| Expansion.WithinIsFull | shell/src/parser.c:109-160 | the bounded walk equals the full expansion whenever that stays under the limit |
| Expansion.WithinFits | shell/src/parser.c:109-163 | with a HOME that fits, the result and its terminator fit the buffer |
| Expansion.StartedFits | shell/src/parser.c:138-159 | once something is out the result stays within the buffer whatever HOME is |
| Expansion.OverrunsExactly | shell/src/parser.c:103-156 | a token overruns the buffer just when it has a dollar sign, HOME has more than 4095 characters, and the walk reaches a tilde while nothing is out |
| Expansion.HomeFitsExactly | shell/src/parser.c:147-156 | no token overruns the buffer just when HOME has at most 4095 characters |
| Expansion.ExpandText | shell/src/parser.c:157-159 | text without dollar sign or leading tilde is copied |
| Expansion.BracedReads | shell/src/parser.c:116-145 | `${NAME}` is replaced by the value of NAME |
| Expansion.UnclosedReads | shell/src/parser.c:116-145 | a brace that is not closed, or not within 255 characters, names what stands up to there |
| Expansion.BareReads | shell/src/parser.c:130-145 | `$NAME` is replaced by the value of NAME up to the first character that is no name character, and a dollar sign alone by nothing |
| Expansion.SpelledExpands | shell/src/parser.c:109-160 | any spelling of text, references and a leading tilde expands piece by piece |
| Expansion.ExpansionMeaning | shell/src/parser.c:101-164 | what the shell puts in place of a spelled token is the concatenated meaning of its pieces, when it has a dollar sign and the expansion stays under the limit |
| Expansion.EveryStringSpelled | shell/src/parser.c:109-160 | every string is spelled by pieces that read back |
| Expansion.EveryTokenMeans | shell/src/parser.c:101-164 | every token has a spelling, expands fully to what that means, and is replaced by it when it has a dollar sign and stays under the limit |
| Expansion.SpelledPours | shell/src/parser.c:109-160 | the bounded walk pours a spelled token out piece by piece: text is cut at 4095 characters, HOME is added whatever its length, any other value whole or not at all, and nothing once 4095 characters are out |
| Expansion.EveryStringPoured | shell/src/parser.c:109-160 | every string has such a spelling |
| Expansion.EveryTokenPours | shell/src/parser.c:101-164 | so every token with a dollar sign becomes what its pieces pour out, and every other token stays as it is |
| Expansion.NoDollarStays | shell/src/parser.c:103 | a token without a dollar sign stays as it is |
| Expansion.NameChars | shell/src/parser.c:131 | a name is made of ASCII letters, digits and underscores |
| Expansion.TildeNeedsDollar | shell/src/parser.c:103-156 | a token without a dollar sign is what full expansion would give just when it does not start with a tilde, or HOME is a tilde |
| Grammar.PhrasesOfTokens | shell/src/parser.c:191-254 | reading a token list into phrases loses no token and invents none: arguments, separators, `&`, operators and operands add up to the list |
| Grammar.TokensOfPhrases | shell/src/parser.c:191-254 | every phrase list the reader can produce is read in only one way |
| Grammar.GroupCount | shell/src/parser.c:194-203 | there is one command more than separators |
| Grammar.GroupsJoin | shell/src/parser.c:194-203 | the commands are what stands between the separators: joined by separators they are the phrases again, and none of them holds one |
| Grammar.CmdArgs | shell/src/parser.c:250-253 | the arguments are the words of the group, expanded, in order; the background flag is set just when `&` occurs |
| Grammar.ArgsOfSum | shell/src/parser.c:250-253 | the words of a run of phrases are those of its parts |
| Grammar.LastRedirectWins | shell/src/parser.c:211-248 | of each kind the last redirect wins, with its append flag; a kind never redirected stays unset, and does not append |
| Grammar.CountZero | shell/src/parser.c:211-248 | a kind is unset just when the group has no redirect of that kind |
| ParseLine.FreeToken | shell/src/parser.c:201 | freeing a token takes exactly that string from the heap |
| ParseLine.ExpandToken | shell/src/parser.c:250-253 | the token is replaced by its expansion, and freed |
| ParseLine.ReadRedirect | shell/src/parser.c:211-248 | a redirect frees the operator, takes the next token whatever it is, and the string it replaces is no longer held |
| ParseLine.ReadPhrase | shell/src/parser.c:205-253 | every branch but the separator keeps the invariant: each new string is held once or is an overwritten redirect |
| ParseLine.ParseTokens | shell/src/parser.c:186-260 | the commands stand for the first sixteen groups of the grammar; count is the number of groups, or 17 when there are more than sixteen; every string is held exactly once or was overwritten; each token is freed once |
| ShellLine.TokensClean | shell/src/parser.c:18-97 | tokens of a C string are C strings |
| ShellLine.Parse | shell/src/parser.c:168-261 | an empty line, a comment and a line without tokens leave the heap alone and give no command; any other line gives what the grammar says |
| ShellLine.FreeArgs | shell/src/szshell.c:294-296 | each argument is freed exactly once |
| ShellLine.FreeCommand | shell/src/szshell.c:294-299 | each string a command holds is freed exactly once |
| ShellLine.FreePipeline | shell/src/szshell.c:292-300 | after the freeing loop exactly the lost strings are left |
| ShellLine.CountWithinArray | shell/src/parser.c:194-198 | the count is that of the commands stored just when the line names at most sixteen; otherwise it is 17 with sixteen stored |
| ShellLine.RunLine | shell/src/parser.c:168-261 | parsing a line of at most sixteen groups and freeing the result leaves one string for each overwritten redirect, and the heap as it was just when there is none |
| ShellLine.NothingOverwritten | shell/src/parser.c:211-248 | no string is lost just when no command has two redirects of one kind |
| ShellLine.WrittenLineReadsBack | shell/src/parser.c:168-261 | a line of written words is one command with those words, expanded, just when none of the words is an operator: quoting does not protect an operator |
| Pipes.LowestFree | shell/src/szshell.c:116 | the descriptor handed out is the lowest that is not open |
| Pipes.Previous | shell/src/szshell.c:110-112 | the last stage before this one that has words |
| Pipes.FinishFile | shell/src/szshell.c:136-140 | the calls for a redirect file put the file under the standard descriptor and close the other, or end the child |
| Pipes.FinishInputPipe | shell/src/szshell.c:132-134 | dup2 and close move the read end to standard input |
| Pipes.FinishOutputPipe | shell/src/szshell.c:143-146 | dup2 and two closes move the write end to standard output and drop the read end |
| Pipes.SetupWires | shell/src/szshell.c:128-162 | the whole set-up turns the forked table into the table at entry with the wanted standard descriptors and nothing else new |
| Pipes.Kernel.Pipe | shell/src/szshell.c:116 | pipe gives two unused descriptors for the ends of a new pipe |
| Pipes.Kernel.Fork | shell/src/szshell.c:122 | the child gets a copy of the table |
| Pipes.Kernel.CloseFd | shell/src/szshell.c:180-181 | closing takes one descriptor from the table |
| Pipes.Kernel.Interleave | shell/src/szshell.c:110-183 | however the children's set-up calls interleave, each is on its way to the same final table |
| Pipes.SpawnStage | shell/src/szshell.c:110-183 | one stage keeps the invariant that the parent holds its table at entry and at most one pipe descriptor; if pipe or fork fails, the table at entry has grown by just the descriptors that are left open |
| Pipes.RunStages | shell/src/szshell.c:110-183 | over all stages, for any pattern of failing calls: how many pipe ends the parent's table has grown by, the children's wiring, and where the loop stopped; children of earlier lines go on to their ends |
| Pipes.ExecutePipeline | shell/src/szshell.c:90-200 | the parent keeps what it had at entry and just as many new pipe ends more as the outcome leaves (none, one, two or three); the child of every stage with words that was reached ends as its stage asks, while children of earlier lines go on; the outcome is the first failing call |
| Pipes.StageAsAsked | shell/src/szshell.c:128-162 | a child ends as its stage asks: it exits just when a redirect that it uses does not open; else descriptor 2 is the error file, 0 the input file when no earlier stage runs, 1 the output file of the last stage, each as at entry without a redirect, and every other descriptor is as at entry |
| Pipes.ChildAsAsked | shell/src/szshell.c:110-183 | there is one such child for each stage with words that was reached, in the order of the stages |
| Pipes.LeftAfterFailure | shell/src/szshell.c:115-126 | what is left open when pipe or fork fails: the read end of an earlier stage's pipe, and both ends of the own pipe once it is made |
| Pipes.StageHolds | shell/src/szshell.c:128-162 | of all new pipes a stage holds its own write end as its standard output, the previous running stage's read end as its standard input, and nothing else |
| Pipes.OneHolder | shell/src/szshell.c:128-162 | every end of a new pipe has one holder under one descriptor |
| Pipes.NoNewPipesKept | shell/src/szshell.c:116 | the ends that a line leaves open are no new pipes for the next line |
| Pipes.NeighboursConnected | shell/src/szshell.c:112-146 | the pipe between two running stages connects them, whatever empty stages lie between |
| Pipes.LeftOpen | shell/src/szshell.c:177-183 | after the last stage the parent keeps just one pipe end more if the last stage is empty and an earlier one ran, and none otherwise |
| ShellRun.StageDenoted | shell/src/szshell.c:110-162 | a command on the heap is the stage that its text describes |
| ShellRun.StageAsks | shell/src/parser.c:211-253 | a stage has one word for each word of its command, and its three redirects are the last ones of their kinds, expanded |
| ShellRun.ChildOfCommand | shell/src/szshell.c:288-290 | after a turn the child of every command with words that was reached ends as the redirects of the line ask |
| ShellRun.Turn | shell/src/szshell.c:288-300 | parse, execute and free, for every line of at most sixteen commands, every pattern of failing calls and any interleaving: the descriptors are as before but for those the outcome leaves open, the children are wired as the line says, and the heap is as before but for overwritten redirects |
| ShellRun.RunLines | shell/src/szshell.c:259-301 | over any run of lines, with any calls failing and any interleaving: the descriptors at the start stay, as many more are open as the turns left, no later line makes a pipe with the same number again, and the heap holds one string more for every overwritten redirect |
| ShellRun.LineLeaksExactly | shell/src/szshell.c:110-183 | when all stages of a line are spawned, the parent keeps one pipe end if the last command has no words and an earlier one has, and none otherwise |
| ShellRun.LeftExactly | shell/src/szshell.c:259-301 | after any run of lines whose pipe and fork calls work, the parent has exactly one descriptor more for each line that ends in an empty command after one with words |
| ShellRun.TrailingSeparatorLeaks | shell/src/szshell.c:112 | a line of one word and a trailing separator is such a line |
| ShellRun.LsBarLeaks | shell/src/szshell.c:112 | `ls` and a separator is one |
| ShellRun.BarLineGroups | shell/src/parser.c:194-257 | a line of n separators names n + 1 commands |
| CText.StrstrFirst | crypticengine/daemon/crypticd.c:70-71 | the search finds the first occurrence, or there is none |
| CText.StrstrSkip | crypticengine/daemon/crypticd.c:70-71 | text without an occurrence can be skipped |
| CText.BeforeQuoteIs | crypticengine/daemon/crypticd.c:74 | the search for a quote stops at the first one |
| CText.TruncateIs | shell/src/crypto_cmds.c:117-121 | snprintf keeps the longest beginning that leaves room for the terminator |
| CText.SpaceCodes | shell/src/parser.c:29 | white space is the six characters of the C locale |
| CText.AtoiOfDecimal | crypticengine/daemon/crypticd.c:95 | atoi undoes `%d` of a non-negative number when no digit follows |
| CText.AtoiOfSigned | crypticengine/daemon/crypticd.c:95 | and of any number |
| CText.DecimalDigits | crypticengine/daemon/crypticd.c:229-235 | numbers print in ASCII digits, the last one last |
| CText.AtoiPassesOver | crypticengine/daemon/crypticd.c:95 | atoi passes over white space and a plus sign |
| CText.AtoiStops | crypticengine/daemon/crypticd.c:95 | atoi stops at a comma or a brace |
| CText.DecimalLength | crypticengine/daemon/crypticd.c:229-235 | a number below 10^k prints in at most k digits |
| CText.LineLenIs | crypticengine/src/integrity.c:124 | fgets takes a line and its newline when there is room |
| CText.LineLenNone | shell/src/crypto_cmds.c:71 | without a newline fgets takes what there is or what there is room for |
| CText.CStrBefore | shell/src/crypto_cmds.c:74-76 | the string in a buffer ends at its first NUL |
| Messages.NoMatchInside | crypticengine/daemon/crypticd.c:67-71 | a search pattern never occurs inside a quote-free field after its start, nor across its end |
| Messages.MatchAtStart | crypticengine/daemon/crypticd.c:67-71 | at its start a field matches only the pattern of its own key |
| Messages.SkipField | crypticengine/daemon/crypticd.c:67-73 | a field with another key is skipped |
| Messages.SearchHits | crypticengine/daemon/crypticd.c:67-73 | the search stops at the first field of the key |
| Messages.SearchMisses | crypticengine/daemon/crypticd.c:70-71 | a key that no field has is found nowhere |
| Messages.ExtractFieldReadsBack | crypticengine/daemon/crypticd.c:65-84 | for every formatted message the first quoted field of a key is found; what is extracted is the value just when it has no quote, else the part before its first quote |
| Messages.ExtractFieldMisses | crypticengine/daemon/crypticd.c:70-71 | a key that no field carries between quotes gives NULL |
| Messages.ExtractIntReadsBack | crypticengine/daemon/crypticd.c:86-96 | extract_int gives atoi of the first field of the key, 0 for a quoted value |
| Messages.ExtractIntOfDecimal | crypticengine/daemon/crypticd.c:86-96 | a number printed with `%d`, negative ones included, is extracted |
| Messages.ExtractIntMisses | crypticengine/daemon/crypticd.c:91-92 | a key that no field has gives -1 |
| Messages.ExtractExactly | crypticengine/daemon/crypticd.c:63-96 | on any text: extract_field gives NULL when the pattern is not there or no quote follows it, else what stands up to the next quote; extract_int gives atoi of what follows the pattern, or -1 |
| Messages.MessageShown | shell/src/crypto_cmds.c:119-121 | a message is its fields between braces with commas between them and no blanks |
| CryptoCommands.ResolvedIsAbsolute | shell/src/crypto_cmds.c:83-92 | the result is absolute, is the argument or the path below the directory just when that fits the buffer, and resolving it again changes nothing |
| CryptoCommands.AllReadBack | crypticengine/daemon/crypticd.c:65-96 | every field of a message with distinct keys reads back up to the first value with a quote |
| CryptoCommands.CommandReadsBack | shell/src/crypto_cmds.c:118-121 | the daemon reads the command, and the value and the password just when they have no quote |
| CryptoCommands.CreateReadsBack | shell/src/crypto_cmds.c:331-334 | the same for vault create, whose size is atoi of the argument |
| CryptoCommands.EndReadsBack | shell/src/session_cmds.c:109-110 | any session number printed by session end, negative ones included, is the one extracted |
| CryptoCommands.Terminal.Prompt | shell/src/crypto_cmds.c:53-79 | the answer is the line without its newline, in the one static buffer |
| CryptoCommands.EncryptCommand | shell/src/crypto_cmds.c:96-121 | what is sent for every input; nothing at the end of the input or for an empty first line |
| CryptoCommands.OneAnswer | shell/src/crypto_cmds.c:65-78 | a line that fits is one answer, and the next prompt goes on behind it |
| CryptoCommands.LongAnswer | shell/src/crypto_cmds.c:65-78 | a longer line is cut after 255 characters, and the next prompt reads its rest |
| CryptoCommands.SentExactly | shell/src/crypto_cmds.c:96-121 | nothing is sent when the input ends before or with the first answer or the first line is empty; otherwise the second answer is sent, even an empty one |
| CryptoCommands.EncryptMessageFits | shell/src/crypto_cmds.c:117-121 | the command buffer holds any path and password that reach it |
| CryptoCommands.MismatchAccepted | shell/src/crypto_cmds.c:103-121 | two answers are accepted whether or not they agree; the message carries the second, and the daemon reads the first out of it just when they agree |
| SessionText.SiteStep | shell/src/session_cmds.c:139-160 | searching again from one past each hit visits every occurrence |
| SessionText.ParseFrom | shell/src/session_cmds.c:138-161 | the loop reads one row at every occurrence of the id pattern |
| SessionText.ParseList | shell/src/session_cmds.c:124-163 | the count, and the rows when it is not zero |
| SessionText.MissingParts | shell/src/session_cmds.c:124-161 | what a response lacks is read as a dash for the name, 0 for the process id or the count, and no rows without a list |
| SessionText.NameReadsBack | shell/src/session_cmds.c:144-154 | the name read is the printed one up to its first quote, cut to 63 characters |
| SessionText.RowReadsBack | shell/src/session_cmds.c:140-157 | a printed row reads back just when its name has no quote and fits |
| SessionText.EntrySites | shell/src/session_cmds.c:139 | an entry with a quote-free name holds one occurrence of the id pattern |
| SessionText.RowsReadBack | shell/src/session_cmds.c:138-161 | a printed list of rows reads back just when every name does |
| SessionText.FramedCount | shell/src/session_cmds.c:125-126 | the count read is the count printed |
| SessionText.ParseUndoesPrint | shell/src/session_cmds.c:121-163 | parsing the printed list gives the count and the rows, just when every name is quote-free and fits, for any number of rows |
| SessionText.Snprintf | crypticengine/daemon/crypticd.c:229-237 | what fits, a terminator, and the length of the whole text |
| SessionText.ChunkLength | crypticengine/daemon/crypticd.c:231-236 | an entry takes at most 108 characters |
| SessionText.PrintNext | crypticengine/daemon/crypticd.c:231-236 | one turn of the loop adds one entry |
| SessionText.PrintSessions | crypticengine/daemon/crypticd.c:224-238 | for at most sixteen sessions with names within their buffer the response is the whole list: neither the guard nor truncation is reached |
| Sessions.Find | crypticengine/src/secure_session.c:47-53 | the first live slot with the id, or none |
| Sessions.SessionTable.constructor | crypticengine/src/secure_session.c:149-163 | a fresh table is empty and numbers from 1 |
| Sessions.SessionTable.FindSession | crypticengine/src/secure_session.c:47-53 | the loop finds that slot |
| Sessions.SessionTable.CreateLocked | crypticengine/src/secure_session.c:180-247 | the array, the count and the counter after the locked part, for every failing call |
| Sessions.SessionTable.Destroy | crypticengine/src/secure_session.c:253-294 | the array after a destroy; it succeeds just when the id is live |
| Sessions.CreateKeepsInv | crypticengine/src/secure_session.c:180-247 | a create keeps the ids of the live prefix strictly increasing, at least 1 and below the counter, all ACTIVE, at most sixteen |
| Sessions.DestroyKeepsInv | crypticengine/src/secure_session.c:253-290 | so does a destroy |
| Sessions.RunKeepsInv | crypticengine/src/secure_session.c:173-294 | so does every run, and the counter never falls |
| Sessions.CreateRefines | crypticengine/src/secure_session.c:188-242 | a create succeeds just when there is a free slot and the stack and the clone can be had; then the map from id to record has one entry more, under the next number, with the name asked for up to 63 characters or one made of the number, the memory asked for or 512 MiB, and the network flag and time of the request; otherwise the map is as before |
| Sessions.DestroyRefines | crypticengine/src/secure_session.c:257-288 | a destroy removes the id's entry and no other |
| Sessions.RunIds | crypticengine/src/secure_session.c:193 | in any run only ids from the counter on appear, so ids are never reused |
| Sessions.ClearedByOthers | crypticengine/src/secure_session.c:356-358 | other threads do not bring a destroyed session back |
| Sessions.ClearedByDestroy | crypticengine/src/secure_session.c:357 | one turn of the loop takes one more snapshot id away |
| Sessions.DestroyAll | crypticengine/src/secure_session.c:343-359 | whatever other threads do between the lock regions, at the end no session of the snapshot is live and every live one is newer than the snapshot |
| Sessions.RunSlot | crypticengine/src/secure_session.c:247-250 | the id in a slot grows, and stays the same just when the slot is not rewritten |
| Sessions.CreateSession | crypticengine/src/secure_session.c:173-251 | refused before initialisation; otherwise the id read after unlocking is the one given out just when no other thread rewrote the slot in between |
| Sessions.DestroysDoNotRewrite | crypticengine/src/secure_session.c:284-288 | threads that only destroy cannot disturb the answer |
| Sessions.WrongIdReturned | crypticengine/src/secure_session.c:247-250 | one destroy and one create in between are enough to return another session's id |
| Sessions.RowsRefine | crypticengine/src/secure_session.c:311-320 | the listing is the map from id to record in the order of the ids, with each record's name and process id: every entry once and nothing else |
| Sessions.ListReadsBack | crypticengine/src/secure_session.c:311-320 | after any run the list that the shell parses is the list of live sessions just when no name holds a quote |
| SecureMemory.WithoutFirstAt | crypticengine/src/secure_memory.c:54-73 | removing the first entry of a pointer takes out that entry |
| SecureMemory.WithoutFirstRest | crypticengine/src/secure_memory.c:54-73 | what is left has no entry of the pointer and no repeats |
| SecureMemory.SecureAllocator.TrackerAdd | crypticengine/src/secure_memory.c:37-52 | the new node goes in front and the totals follow |
| SecureMemory.SecureAllocator.FindLink | crypticengine/src/secure_memory.c:54-66 | the walk stops at the link to the first node of the pointer |
| SecureMemory.SecureAllocator.Unlink | crypticengine/src/secure_memory.c:58-66 | writing through the link takes exactly that node out |
| SecureMemory.SecureAllocator.TrackerRemove | crypticengine/src/secure_memory.c:54-73 | the list without the first entry of the pointer; an untracked pointer changes nothing |
| SecureMemory.SecureAllocator.Alloc | crypticengine/src/secure_memory.c:99-129 | the allocator after an allocation, for every answer of the system; size 0 is refused |
| SecureMemory.SecureAllocator.Free | crypticengine/src/secure_memory.c:131-145 | the allocator after a free |
| SecureMemory.SecureAllocator.EmergencyWipe | crypticengine/src/secure_memory.c:159-183 | every tracked block is live when it is freed, and none is left |
| SecureMemory.StepKeepsInv | crypticengine/src/secure_memory.c:99-183 | every call keeps each tracked block live, recorded with its size, and tracked once |
| SecureMemory.StepLive | crypticengine/src/secure_memory.c:99-183 | an allocated block is live with its size whether or not it is tracked, a freed one is not, a wipe ends just the tracked ones, and what is not tracked leaves the tracker alone |
| SecureMemory.RunKeepsInv | crypticengine/src/secure_memory.c:99-183 | so does every run |
| SecureMemory.StepKeepsComplete | crypticengine/src/secure_memory.c:99-183 | with node allocation succeeding, one call keeps the list equal to the live allocations |
| SecureMemory.TrackerComplete | crypticengine/src/secure_memory.c:37-183 | with node allocation succeeding, the list is exactly the live allocations after any run, and a wipe then leaves nothing live |
| SecureMemory.StepBytes | crypticengine/src/secure_memory.c:44-70 | one call keeps the byte total congruent to the sum of sizes plus the drift |
| SecureMemory.ByteTotal | crypticengine/src/secure_memory.c:37-73 | after any run the byte total is the sum of the tracked sizes just when the mismatched frees cancel modulo 2^64 |
| SecureMemory.MatchingFrees | crypticengine/src/secure_memory.c:131-145 | frees with the recorded size cause no drift |
| Containers.Find | crypticengine/src/hidden_container.c:62-68 | the first entry of the name, or none |
| Containers.ShortNames | crypticengine/src/hidden_container.c:305-308 | for names of at most 60 characters nothing is cut, so different names have different mappers and paths |
| Containers.OpenKeepsInv | crypticengine/src/hidden_container.c:275-387 | an open keeps names distinct, entries OPEN, and mappers and mounts exactly those of the entries |
| Containers.FailedOpen | crypticengine/src/hidden_container.c:349-369 | a failed open leaves the entries, the mappers and the mounts as they were |
| Containers.OpenSucceeds | crypticengine/src/hidden_container.c:275-387 | an open succeeds just when the name is open already, or there is room, the files are there, the password is right, the mapper is free and the mount works; then the container is the last entry, its mapper open and its path mounted |
| Containers.CloseKeepsInv | crypticengine/src/hidden_container.c:389-428 | so does a close; it succeeds just when the name is tracked |
| Containers.CloseRemoves | crypticengine/src/hidden_container.c:389-428 | a close takes out the entry of the name, its mapper and its mount, and keeps the others in order |
| Containers.ContainerTable.FindContainer | crypticengine/src/hidden_container.c:62-68 | the loop finds that entry |
| Containers.ContainerTable.OpenContainer | crypticengine/src/hidden_container.c:275-387 | the table, the mappers and the mounts after an open, for every answer of the system |
| Containers.ContainerTable.CloseContainer | crypticengine/src/hidden_container.c:389-428 | the same after a close |
| Containers.ContainerTable.CreateContainer | crypticengine/src/hidden_container.c:104-273 | the files after a create, for every pattern of failing calls; the mapper it opens is closed again, and the table is as other threads left it, whose opens fail just when they need that mapper |
| Containers.ContainerTable.OthersDuring | crypticengine/src/hidden_container.c:210-273 | opens and closes of other threads while the new mapper is open act on the table as without it, but for the refused opens |
| Containers.RefusedStep | crypticengine/src/hidden_container.c:210-273 | one such operation keeps the invariant and leaves the extra mapper alone |
| Containers.FailedCreate | crypticengine/src/hidden_container.c:122-250 | a failed create leaves the files as they were just when the fill left nothing behind and, from the formatting on, no header lay there before |
| Containers.CreateSucceeds | crypticengine/src/hidden_container.c:104-250 | a create succeeds just when size and name are in order, the vault is not there, every call works and the mapper is free; then the vault and its header are there and nothing else changed |
| Containers.ContainerTable.Others | crypticengine/src/hidden_container.c:275-428 | any operations of other threads, one lock region after the other |
| Containers.ContainerTable.CopyNames | crypticengine/src/hidden_container.c:490-499 | the names are copied in order |
| Containers.RunEntries | crypticengine/src/hidden_container.c:275-428 | in any run only opened containers come to the table |
| Containers.RemainsAfterClose | crypticengine/src/hidden_container.c:502-504 | one turn of the loop takes one more copied name away |
| Containers.ContainerTable.CloseAll | crypticengine/src/hidden_container.c:490-505 | whatever other threads do between the lock regions, at the end only containers are tracked that others opened after the names were copied; if they open none, nothing is tracked, mapped or mounted |
| Containers.CloseAllEmpties | crypticengine/src/hidden_container.c:490-505 | closing all that is tracked empties the three sets |
| Containers.RunKeepsInv | crypticengine/src/hidden_container.c:104-505 | over every run of create, open, close and close_all with names of at most 60 characters the tracked containers are the open mappers and the mounted paths |
| Containers.OpenThenClose | crypticengine/src/hidden_container.c:308-412 | opening and closing brings the mappers back just when the name has at most 60 characters |
| Bytes.FromLEOfLE | crypticengine/src/key_storage.c:243-247 | an integer written in its width reads back when it fits |
| Bytes.LEOfFromLE | crypticengine/src/key_storage.c:272-286 | and every string of bytes is the form of the number it reads as |
| Bytes.LEAt | crypticengine/src/key_storage.c:243-247 | the lowest byte comes first |
| KeyStore.HeadOfEntry | crypticengine/src/key_storage.c:243-249 | the header of a written entry is read back field by field |
| KeyStore.DecodeOfEncode | crypticengine/src/key_storage.c:243-250 | decoding undoes encoding for any list of entries and goes on with what follows |
| KeyStore.EntryLayout | crypticengine/src/key_storage.c:238-250 | where each field of an entry stands |
| KeyStore.ScanIsLookup | crypticengine/src/key_storage.c:270-344 | the seek-skipping scan equals decoding the whole file and looking the name up, whatever the bytes |
| KeyStore.ScanStable | crypticengine/src/key_storage.c:270-344 | a name that is found keeps its answer whatever bytes are appended |
| KeyStoreCalls.ReadHeader | crypticengine/src/key_storage.c:272-291 | the reads give the header, or fail when the bytes run out or the name is too long |
| KeyStoreCalls.ReadFixed | crypticengine/src/key_storage.c:284-291 | the fields of fixed width |
| KeyStoreCalls.FindEntry | crypticengine/src/key_storage.c:270-344 | the loop stops at the first header of the name |
| KeyStoreCalls.Open | crypticengine/src/key_storage.c:304-339 | from the sealed key to the key; the buffers are freed on every exit |
| KeyStoreCalls.Retrieve | crypticengine/src/key_storage.c:260-349 | for every pattern of failing calls: the answer is the file's answer for the name, the heap is as at entry, and the secure allocator too except for the key's block, tracked with 16 bytes more than the caller is told |
| KeyStoreCalls.Fields8 | crypticengine/src/key_storage.c:237-250 | the writes produce the entry, with the name cut to its length modulo 2^16 |
| KeyStoreCalls.SealKey | crypticengine/src/key_storage.c:190-224 | the wrapping key is freed on every exit |
| KeyStoreCalls.Store | crypticengine/src/key_storage.c:178-258 | for every pattern of failing calls all memory is given back; a store succeeds just when the password is verified and every call before the writes works, and then appends what reached the disk, or replaces the file when appending failed |
| KeyStoreCalls.AnswerOfEntries | crypticengine/src/key_storage.c:260-349 | a file of puts answers with the earliest put of the name, as far as the names before it are short |
| KeyStoreCalls.RunIsEncoding | crypticengine/src/key_storage.c:226-250 | after a run of whole stores the file is the encoding of the successful ones in order |
| KeyStoreCalls.RetrieveIsEarliest | crypticengine/src/key_storage.c:178-349 | after any run of stores, failed ones included, a retrieval gives the key of the earliest successful store of the name |
| KeyStoreCalls.StoredIsFound | crypticengine/src/key_storage.c:238-276 | a stored key is the one retrieved just when its name and all names stored before it have fewer than 64 bytes as the file counts them |
| KeyStoreCalls.OtherPassword | crypticengine/src/key_storage.c:300-338 | whatever password is given for a name that is found, the answer is what it decrypts of the text encrypted under the password of the store |
| KeyStoreCalls.RunKeepsAnswer | crypticengine/src/key_storage.c:226-250 | a name that can be retrieved keeps its key through any run of appending stores, whole, torn or failed |
| KeyStoreCalls.TornIsNothing | crypticengine/src/key_storage.c:243-250 | a strict prefix of an entry holds no complete entry |
| KeyStoreCalls.TornStore | crypticengine/src/key_storage.c:243-257 | a store returns success whatever was written; the new name is found just when all bytes were |
| KeyStoreCalls.CreateForgets | crypticengine/src/key_storage.c:227-234 | when appending fails and creating works, every other name is lost, however much is then written |
| KeyStoreCalls.ReadInfo | crypticengine/src/key_storage.c:370-391 | one turn of the listing |
| KeyStoreCalls.List | crypticengine/src/key_storage.c:361-398 | the array holds what the listing function says, at most 128 entries |
| KeyStoreCalls.ListOfEntries | crypticengine/src/key_storage.c:361-398 | the listing of well-formed entries is the metadata of the first of them |
| KeyStoreCalls.FirstInfosAt | crypticengine/src/key_storage.c:369-394 | entry by entry, in store order, and as many as there are or as fit |
| KeyStoreCalls.ListAfterRun | crypticengine/src/key_storage.c:178-398 | after any run of whole stores the listing is the metadata of the first 128 successful ones, in order, up to the first whose name has 64 bytes or more in the file; keys within 56 bytes of 4 GiB, whose seek would wrap around, are excluded |
| KeyStoreCalls.ListedPut | crypticengine/src/key_storage.c:361-394 | for each of these the name as the file has it, the kind, the time and the length of the sealed key |
| KeyStoreCalls.TornIsListed | crypticengine/src/key_storage.c:243-398 | a torn entry is listed as soon as its header has reached the disk, although it cannot be retrieved |
| RetrievedKeys.ReceivedThenFreed | crypticengine/src/key_storage.c:311-341 | a key block that is tracked with the size of the sealed key and freed with the length the caller was told leaves the list and the live blocks as they were and the byte total off by 16 |
| RetrievedKeys.TrackedRetrieval | crypticengine/src/key_storage.c:260-346 | so does every successful retrieval |
| RetrievedKeys.TotalAfterKeys | crypticengine/src/key_storage.c:311-341 | after any run in which k retrieved keys were freed so and everything else with the recorded size, the byte total is exact just when 16k is a multiple of 2^64 |
| MasterKey.Verify | crypticengine/src/key_storage.c:123-155 | succeeds just when the stored line accepts the password |
| MasterKey.Setup | crypticengine/src/key_storage.c:69-121 | refuses short passwords and an existing master key; otherwise the file is the hash and a newline |
| MasterKey.Change | crypticengine/src/key_storage.c:157-176 | the old password is checked first; a change that fails after the old hash is removed leaves no master key, and one that cannot remove it leaves the old one |
| MasterKey.SetUpAccepts | crypticengine/src/key_storage.c:106-150 | a hash file that was written whole accepts its password, and others just when the hash does |
| MasterKey.OddHashFiles | crypticengine/src/key_storage.c:123-150 | a missing or empty file accepts nothing, and what a short write left of a hash is taken for the hash |
| MasterKey.EmergencyWipe | crypticengine/src/key_storage.c:400-433 | the files after the wipe, for every pattern of failing calls; the memory is given back |
| MasterKey.WipedHoldsNothing | crypticengine/src/key_storage.c:400-433 | when the master key could be removed no password is accepted, and when the keystore could be removed no name is found |
| MasterKey.WipedKeys | crypticengine/src/key_storage.c:400-417 | what is left of the keystore: nothing if it was removed, noise if it could only be overwritten, all of it if neither worked, though success is reported |
| MasterKey.WipedMaster | crypticengine/src/key_storage.c:419-428 | what is left of the master key's file in each case; other files stay |
| NxeFormat.WithFlag | crypticengine/src/nxe_builder.c:75-90 | setting a flag keeps the others and the 32-bit range |
| NxeFormat.DecodeOfEncode | crypticengine/include/nxe_format.h:75-119 | the 256-byte header reads back field by field, whatever follows it |
| NxeFormat.EncodeOfDecode | crypticengine/include/nxe_format.h:75-119 | every 256 bytes are the encoding of the header they decode to |
| NxeFormat.HeaderFits | crypticengine/src/nxe_builder.c:69-175 | every built header fits its fields, and has exactly the flags of the caller and those of what was done |
| NxeFormat.BuiltFields | crypticengine/src/nxe_builder.c:69-175 | what a built file holds field by field: the hash, the permissions, the sizes, the salt and nonce of an encrypted file, the key and signature of a signed one, and zeros elsewhere |
| NxeFormat.LoadBuiltPayload | crypticengine/src/nxe_loader.c:129-214 | the payload of a built file passes the signature, the decryption and the hash |
| NxeFormat.LoadOfBuild | crypticengine/src/nxe_loader.c:93-232 | loading a built file runs exactly the original bytes just when the whole file is within the loader's limit |
| NxeFormat.LoadRunsExactly | crypticengine/src/nxe_loader.c:93-232 | a file runs just when its size, magic, version, offset, signature, password and hash are right, and then as what it holds |
| NxeFormat.LoadNeedsPassword | crypticengine/src/nxe_loader.c:145-150 | an encrypted file is refused without a password |
| NxeFormat.VerifiedBuild | crypticengine/src/nxe_loader.c:257-294 | nxe_verify accepts a built file just when it is within the limit |
| NxeFormat.VerifiedExactly | crypticengine/src/nxe_loader.c:257-294 | nxe_verify accepts a file just when the header is in order and a signed payload is there and genuine |
| NxeFormat.LoadedIsVerified | crypticengine/src/nxe_loader.c:93-294 | every file that loads is accepted by nxe_verify |
| NxeFormat.CheckIsExact | crypticengine/src/nxe_loader.c:120-127 | the 32-bit bounds check passes a payload beyond the file just when its announced size is within a header of 2^32 |
| NxeFiles.Build | crypticengine/src/nxe_builder.c:24-194 | for every pattern of failing calls all memory is given back; success writes the built file, a failed write removes the output |
| NxeFiles.BuildFrom | crypticengine/src/nxe_builder.c:69-194 | the same from the ELF in its buffer on |
| NxeFiles.SealPayload | crypticengine/src/nxe_builder.c:89-131 | the encrypting branch frees the key on every exit |
| NxeFiles.ReadFullFile | crypticengine/src/nxe_loader.c:38-69 | the whole file within the limit, or nothing and no block |
| NxeFiles.LoadAndExec | crypticengine/src/nxe_loader.c:93-232 | all memory is given back on every path, and what runs is what the file decodes to |
| NxeFiles.RunPayload | crypticengine/src/nxe_loader.c:129-232 | the same from the payload on |
| NxeFiles.OpenPayload | crypticengine/src/nxe_loader.c:145-187 | the decrypting branch frees the key on every exit |
| NxeFiles.Verify | crypticengine/src/nxe_loader.c:257-294 | the answer of nxe_verify, and its buffer freed |
| Szenc.DecryptedOfEncrypted | crypticengine/src/cryptic_engine.c:189-201 | every output has the minimum size and decrypts to the original bytes |
| Szenc.Layout | crypticengine/src/cryptic_engine.c:189-201 | an output file is the salt, the nonce and the encrypted text |
| Szenc.PlainPathOfOutput | crypticengine/src/cryptic_engine.c:305-329 | the output's name leads back to the original name just when that is not empty |
| Szenc.PlainPathDiffers | crypticengine/src/cryptic_engine.c:305-329 | decrypting never writes to the file it reads |
| Szenc.PlainPathIs | crypticengine/src/cryptic_engine.c:305-329 | a longer name loses its extension, and any other gets `.dec` |
| Szenc.EncryptFile | crypticengine/src/cryptic_engine.c:94-215 | for every pattern of failing calls all memory is given back and only the output file changes; inputs up to 1 GiB |
| Szenc.SealText | crypticengine/src/cryptic_engine.c:138-178 | key and plaintext are released on every exit |
| Szenc.DecryptFile | crypticengine/src/cryptic_engine.c:217-356 | the same for decryption, which writes the plaintext just when it authenticates |
| Szenc.OpenText | crypticengine/src/cryptic_engine.c:266-303 | key and ciphertext are released on every exit |
| Szenc.RoundTrip | crypticengine/src/cryptic_engine.c:94-356 | decrypting the output with the same password puts the original content back under the original name, whatever happened to other files in between |
| IntegrityText.HexReadsBack | crypticengine/src/integrity.c:41-44 | a hash printed in hexadecimal reads back |
| IntegrityText.HexAt | crypticengine/src/integrity.c:41-42 | each byte is two lower-case digits, the high one first |
| IntegrityText.LineReadsBack | crypticengine/src/integrity.c:124-132 | for every record with a full hash and a path of at most 511 characters without a newline that does not begin with white space, fgets takes exactly its line and sscanf finds its hash and the part of its path before the first white space |
| IntegrityText.LineLayout | crypticengine/src/integrity.c:44 | a line is 64 digits, two spaces, the path and a newline |
| Integrity.CheckAll | crypticengine/src/integrity.c:110-173 | the result slots, the count and the return value, line by line |
| Integrity.CheckFile | crypticengine/src/integrity.c:175-230 | the return value and the result for one path |
| Integrity.LookUp | crypticengine/src/integrity.c:192-216 | the hash of the first line for the path |
| Integrity.CheckRecord | crypticengine/src/integrity.c:132-168 | one recorded line is judged MISSING, ERROR, OK or MODIFIED, reported just when it is not OK, with the recorded hash and the one found |
| Integrity.OddLine | crypticengine/src/integrity.c:124-137 | comments, empty lines and lines without two words change nothing, and a line whose first word is not hexadecimal counts for nothing |
| Integrity.CheckAllFindings | crypticengine/src/integrity.c:110-173 | on records of paths without white space the check reports the first findings that there is room for, in the order of the database, and returns how many are missing or modified |
| Integrity.ZeroReturned | crypticengine/src/integrity.c:110-173 | 0 is returned though a recorded file is not OK just when there are findings and the first of them, as many as there are slots, are all unreadable files |
| Integrity.ZeroWithRoom | crypticengine/src/integrity.c:110-173 | with a slot for every record, that is just when a file is unreadable and nothing is missing or modified |
| Integrity.ZeroThoughUnreadable | crypticengine/src/integrity.c:153-157 | an unreadable file is reported and 0 returned |
| Integrity.ZeroThoughModified | crypticengine/src/integrity.c:124-157 | an unreadable file takes the only slot, and 0 is returned though another file is modified |
| Integrity.ZeroWithoutSlots | crypticengine/src/integrity.c:124 | without slots 0 is returned though a file is modified |
| Integrity.FindInDb | crypticengine/src/integrity.c:199-215 | a path is looked up among the records, whose paths have no white space |
| Integrity.FileCheckJudges | crypticengine/src/integrity.c:175-230 | the check of one recorded file gives the status that the check of all gives it |
| Integrity.FileCheckReturns | crypticengine/src/integrity.c:175-230 | the check of one file returns 0 for OK, 1 for a file that is missing, not recorded or modified, and -1 for one that cannot be read or without a database |
| Integrity.UnrecordedIsNew | crypticengine/src/integrity.c:192-221 | a readable file is NEW just when no record is read as its path |
| Integrity.ChecksAgree | crypticengine/src/integrity.c:110-230 | with enough slots and no white space in recorded paths the check of all files reports exactly the recorded files that the check of each finds not OK, in order and with the same status |
| Integrity.ChecksReadBack | crypticengine/src/integrity.c:124-132 | both checks take a database for that of the records with their paths cut at the first white space |
| Integrity.CheckPrinted | crypticengine/src/integrity.c:110-173 | so the findings of the check of all files are those of the cut records |
| Integrity.SilentExactly | crypticengine/src/integrity.c:110-173 | the check of all files reports nothing and returns 0 just when it has no slot or every record is OK with its path cut at the first white space |
| Integrity.SpacedIsNew | crypticengine/src/integrity.c:175-230 | whatever the database, the check of one file gives a readable file whose path has white space the status NEW |
| Integrity.ChecksAgreeExactly | crypticengine/src/integrity.c:110-230 | with enough slots the two checks agree just when no recorded path has white space |
| Integrity.SpacedIsMissing | crypticengine/src/integrity.c:132-168 | a recorded and unchanged file whose path has white space is reported MISSING under the name before it, if no file has that name, and 1 returned |
| Integrity.SpacedMissing | crypticengine/src/integrity.c:132-168 | `/etc/a b` is such a file |
| IntegrityScan.HashAndStore | crypticengine/src/integrity.c:36-46 | a readable file gives one line, an unreadable one none |
| IntegrityScan.ScanDirectory | crypticengine/src/integrity.c:48-76 | the recursive scan appends the records of the tree and counts them |
| IntegrityScan.InitDatabase | crypticengine/src/integrity.c:86-108 | the database is the two comments and the records of the watched directories |
| IntegrityScan.RecordedIsContained | crypticengine/src/integrity.c:55-72 | when all full paths fit in 511 characters, a path is recorded just when it is that of a readable regular file below the directory |
| IntegrityScan.RecordsDistinct | crypticengine/src/integrity.c:55-72 | when all full paths fit, no path is recorded twice |
| IntegrityScan.CutNamesCollide | crypticengine/src/integrity.c:58-60 | two readable files whose full paths are cut to the same 511 characters are recorded under one path |
| IntegrityScan.RecordsCurrent | crypticengine/src/integrity.c:36-46 | every record has an absolute path of at most 511 characters and holds the file's hash |
| IntegrityScan.WatchedApart | crypticengine/src/integrity.c:80-84 | no path lies below two of the watched directories |
| IntegrityScan.DatabaseIsExact | crypticengine/src/integrity.c:80-108 | when all full paths fit in 511 characters, the database records every readable regular file below the watched directories, white space in names or not, nothing else, and each once |
| IntegrityScan.BuiltIsSilent | crypticengine/src/integrity.c:86-173 | when no recorded path holds a newline, the check after building reports nothing and returns 0 just when it has no slot or what stands before the first white space of every recorded path names a file with the recorded hash |
| IntegrityScan.UnchangedIsSilent | crypticengine/src/integrity.c:86-173 | checking an unchanged file system reports nothing and returns 0 when no recorded path holds white space |
| IntegrityScan.BuiltChecksAgree | crypticengine/src/integrity.c:86-230 | when no recorded path holds a newline, after any change to the disk and with enough slots the two checks agree on a built database just when no recorded path holds white space |

## Left out

- Builtin commands: a lone builtin's handler is called with the command's words; its effects are not modelled.
- Lexer.Tokenize: `malloc` and `strdup` are taken to succeed, and the token vector's own block is not counted.
- Lexer.CopyWord: `isspace` is that of the C locale, on characters that are not negative.
- Expansion.ExpandVariables: what happens after the buffer is overrun; the precondition excludes just those tokens.
- ShellLine.RunLine: what happens after the freeing loop reads past the array; lines with sixteen separators or more are excluded.
- ShellLine.FreePipeline: the same; a count beyond the commands stored is excluded.
- Pipes.ExecutePipeline: waiting, exit statuses and background jobs; builtins inside a pipeline; failing `dup2`.
- CText.AtoiOfDecimal: numbers beyond the range of an int.
- Messages.ExtractFieldReadsBack: `malloc` failure in `extract_field`, which gives NULL.
- CryptoCommands.CommandReadsBack: messages cut by the socket or by the 4096-byte buffer of the commands other than `encrypt`.
- CryptoCommands.ResolvePath: bytes that stay in the static buffer after a longer path.
- SessionText.ParseList: the three bytes of the dash that stands for a missing name.
- Sessions.SessionTable.CreateLocked: cgroups, the tmpfs path, the leaked stack, and overflow of the id counter.
- Sessions.SessionTable.Destroy: kill, waitpid and umount, which do not influence the table.
- Sessions.DestroyAll: calls before `session_init`, when there is nothing to destroy, and `session_shutdown`, which clears the initialised flag afterwards.
- SecureMemory.SecureAllocator.Alloc: failing `mprotect` and the physical erasure of memory.
- Containers.ContainerTable.OpenContainer: the fork of `cryptsetup` is taken to succeed, and teardown commands to work.
- Containers.ContainerTable.CreateContainer: its second fork is taken to succeed, two creates do not overlap, and `container_destroy` is left out.
- Containers.ContainerTable.CloseAll: a close_all of another thread stands as the closes it makes.
- NxeFiles.BuildFrom: `unlink` is taken to succeed when failed output is removed, there and in `Szenc` and `Containers`.
- KeyStoreCalls.Store: a torn write leaves a prefix of the entry; a hole in the middle is not modelled.
- KeyStoreCalls.Retrieve: the master password's check is an outcome here; `MasterKey.Verify` says what decides it.
- KeyStoreCalls.List: the slot past the count may keep a half-read entry, which the model leaves as it was.
- MasterKey.SetUpAccepts: a hash file written in part, whose acceptance depends on the hash function.
- NxeFiles.Build: the command line tool around it, and the warning for inputs that are not ELF.
- NxeFiles.LoadAndExec: the model stops at a read past the file's buffer; `execve` and what follows the memfd write.
- NxeFiles.Verify: the same for a payload shorter than announced, which only signed files have read.
- Szenc.EncryptFile: wiping the plaintext buffer, which the model's heap has no content for.
- IntegrityScan.BuiltIsSilent: recorded paths with a newline, whose rest is read as a line of its own; they are excluded.
- KeyStoreCalls.ListAfterRun: keys so long that the seek over the entry wraps around at 4 GiB; they are excluded.
- IntegrityScan.ScanDirectory: where a path is cut to 511 characters, `lstat` looks at the cut path; the model goes by the entry.
- Integrity.CheckAll: the system log, and a negative number of slots, which acts like none.
- Master keys and stored keys: changing the master key does not re-encrypt stored keys, and nothing is stated across it.
- Locking: `session_get_info`, `container_list` and the statistics functions only copy under the lock.
- libsodium: Argon2id, XChaCha20-Poly1305, Ed25519 and BLAKE2b are abstract functions with laws.
- Stubs: `keystore_delete`, `integrity_update_file`, `scan_existing_containers`, `cmd_alias`, `session_exec`.
- Outside the model: sockets, threads as such, signal handlers, namespaces, folder locking with fscrypt, secure
  delete, inotify monitoring, readline, prompts, help and status output, PAM, scripts, themes and configuration.
