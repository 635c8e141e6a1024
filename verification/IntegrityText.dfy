/** The line-based integrity database of crypticengine/src/integrity.c, as it is printed and read back. */
module IntegrityText {
  import opened Bytes
  import opened CText
  import opened Wrappers

  const INTEGRITY_HASH_LEN: nat := 32
  const LINE_SIZE: nat := 1024
  const HEX_WIDTH: nat := 64
  const PATH_WIDTH: nat := 511

  // ---- Hexadecimal ----

  function HexDigit(d: nat): char
    requires d < 16
  {
    if d < 10 then (48 + d) as char else (87 + d) as char
  }

  /** crypto_bin_to_hex. */
  function Hex(bs: seq<byte>): (s: string)
    ensures |s| == 2 * |bs|
  {
    if bs == [] then "" else [HexDigit(bs[0] / 16), HexDigit(bs[0] % 16)] + Hex(bs[1..])
  }

  function HexValue(c: char): Option<nat> {
    if '0' <= c <= '9' then Some(c as nat - 48)
    else if 'a' <= c <= 'f' then Some(c as nat - 87)
    else if 'A' <= c <= 'F' then Some(c as nat - 55)
    else None
  }

  predicate HexPair(s: string) {
    |s| >= 2 && HexValue(s[0]).Some? && HexValue(s[1]).Some?
  }

  /** The bytes that sodium_hex2bin writes: the pairs of digits up to the first that is not one. */
  function HexBytes(s: string): (bs: seq<byte>)
    ensures 2 * |bs| <= |s|
  {
    if !HexPair(s) then [] else [16 * HexValue(s[0]).value + HexValue(s[1]).value] + HexBytes(s[2..])
  }

  /** It succeeds when that is the whole string. */
  predicate IsHex(s: string) {
    s == "" || (HexPair(s) && IsHex(s[2..]))
  }

  lemma {:induction false} HexReadsBack(bs: seq<byte>)
    ensures IsHex(Hex(bs)) && HexBytes(Hex(bs)) == bs
  {
    hide HexDigit, HexValue;
    if bs != [] {
      var s := Hex(bs);
      DigitReadsBack(bs[0] / 16);
      DigitReadsBack(bs[0] % 16);
      assert s[2..] == Hex(bs[1..]) && s[0] == HexDigit(bs[0] / 16) && s[1] == HexDigit(bs[0] % 16);
      HexReadsBack(bs[1..]);
      TwoDigits(bs[0]);
      assert [bs[0]] + bs[1..] == bs;
    }
  }

  lemma TwoDigits(b: byte)
    ensures 16 * (b / 16) + b % 16 == b
  {
  }

  /** Two lower-case digits for a byte, the high one first, by their codes. */
  lemma {:induction false} HexAt(bs: seq<byte>, i: nat)
    requires i < |bs|
    ensures var hi, lo := Hex(bs)[2 * i] as int, Hex(bs)[2 * i + 1] as int;
            && bs[i] == 16 * (if hi <= 57 then hi - 48 else hi - 87) + (if lo <= 57 then lo - 48 else lo - 87)
            && (48 <= hi <= 57 || 97 <= hi <= 102) && (48 <= lo <= 57 || 97 <= lo <= 102)
  {
    if i > 0 {
      HexAt(bs[1..], i - 1);
      assert bs[1..][i - 1] == bs[i];
    }
  }

  lemma DigitReadsBack(d: nat)
    requires d < 16
    ensures HexValue(HexDigit(d)) == Some(d) && !IsSpace(HexDigit(d)) && HexDigit(d) != '#'
  {
  }

  // ---- Lines and words ----

  predicate NoSpace(s: string) {
    forall i | 0 <= i < |s| :: !IsSpace(s[i])
  }

  lemma {:induction false} HexNoSpace(bs: seq<byte>)
    ensures NoSpace(Hex(bs)) && (bs != [] ==> Hex(bs)[0] != '#')
  {
    if bs != [] {
      DigitReadsBack(bs[0] / 16);
      DigitReadsBack(bs[0] % 16);
      HexNoSpace(bs[1..]);
    }
  }

  /** How many characters a %s conversion of a given width takes. */
  function WordLen(s: string, width: nat): (n: nat)
    ensures n <= |s| && n <= width
    decreases |s|
  {
    if s == "" || width == 0 || IsSpace(s[0]) then 0 else 1 + WordLen(s[1..], width - 1)
  }

  datatype Words = Words(hex: string, path: string)

  /** sscanf with "%64s %511s"; None when it does not convert both. */
  function Scan(line: string): (w: Option<Words>)
    ensures w.Some? ==> |w.value.hex| <= HEX_WIDTH && |w.value.path| <= PATH_WIDTH
  {
    var a := SkipSpaces(line);
    var n := WordLen(a, HEX_WIDTH);
    var b := SkipSpaces(a[n..]);
    var k := WordLen(b, PATH_WIDTH);
    if n == 0 || k == 0 then None else Some(Words(a[..n], b[..k]))
  }

  /** What stands before the first white space. */
  function FirstWord(s: string): (w: string)
    ensures |w| <= |s|
  {
    if s == "" || IsSpace(s[0]) then "" else [s[0]] + FirstWord(s[1..])
  }

  lemma {:induction false} FirstWordIs(s: string)
    ensures NoSpace(FirstWord(s)) && s[..|FirstWord(s)|] == FirstWord(s)
    ensures |FirstWord(s)| < |s| ==> IsSpace(s[|FirstWord(s)|])
    ensures FirstWord(s) == s <==> NoSpace(s)
  {
    if s != "" && !IsSpace(s[0]) {
      FirstWordIs(s[1..]);
      var n := |FirstWord(s[1..])|;
      assert s[..n + 1] == [s[0]] + s[1..][..n];
      assert [s[0]] + s[1..] == s;
    }
  }

  lemma {:induction false} FirstWordOf(a: string, c: char, rest: string)
    requires NoSpace(a) && IsSpace(c)
    ensures FirstWord(a + ([c] + rest)) == a
  {
    if a != "" {
      assert (a + ([c] + rest))[1..] == a[1..] + ([c] + rest);
      FirstWordOf(a[1..], c, rest);
    }
  }

  lemma {:induction false} WordLenIs(a: string, c: char, rest: string, width: nat)
    requires NoSpace(a) && IsSpace(c) && |a| <= width
    ensures WordLen(a + ([c] + rest), width) == |a|
  {
    if a != "" {
      assert (a + ([c] + rest))[1..] == a[1..] + ([c] + rest);
      WordLenIs(a[1..], c, rest, width - 1);
    }
  }

  // ---- The database ----

  datatype Record = Record(hash: seq<byte>, path: string)

  /** A record that fgets takes in one line: a full hash, and a path that fits, holds no newline and does not
      begin with white space. */
  ghost predicate Printable(r: Record) {
    && |r.hash| == INTEGRITY_HASH_LEN && 0 < |r.path| <= PATH_WIDTH
    && '\n' !in r.path && !IsSpace(r.path[0])
  }

  /** A record whose line reads back whole. */
  ghost predicate Clean(r: Record) {
    |r.hash| == INTEGRITY_HASH_LEN && 0 < |r.path| <= PATH_WIDTH && NoSpace(r.path)
  }

  /** The record that is read where `r` was printed: the path ends at its first white space. */
  function AsRead(r: Record): Record {
    Record(r.hash, FirstWord(r.path))
  }

  lemma AsReadIsClean(r: Record)
    requires Printable(r)
    ensures Clean(AsRead(r))
  {
    FirstWordIs(r.path);
  }

  lemma CleanIsPrintable(r: Record)
    requires Clean(r)
    ensures Printable(r) && AsRead(r) == r
  {
    FirstWordIs(r.path);
  }

  /** hash_and_store's fprintf. */
  function LineOf(r: Record): string {
    Hex(r.hash) + ("  " + (r.path + "\n"))
  }

  /** Sixty-four digits, two spaces, the path and a newline. */
  lemma LineLayout(r: Record)
    requires |r.hash| == 32
    ensures var s := LineOf(r);
            |s| == 67 + |r.path| && s[..64] == Hex(r.hash) && s[64..66] == "  " && s[66..|s| - 1] == r.path && s[|s| - 1] == '\n'
  {
    hide Hex;
  }

  function Body(rs: seq<Record>): string {
    if rs == [] then "" else LineOf(rs[0]) + Body(rs[1..])
  }

  const COMMENTS := "# SecureZ+ Integrity Database\n" + "# Format: blake2b_hash  filepath\n"

  function DbText(rs: seq<Record>): string {
    COMMENTS + Body(rs)
  }

  lemma {:induction false} BodyAppend(rs: seq<Record>, ts: seq<Record>)
    ensures Body(rs + ts) == Body(rs) + Body(ts)
  {
    if rs == [] {
      assert rs + ts == ts;
    } else {
      assert (rs + ts)[1..] == rs[1..] + ts;
      BodyAppend(rs[1..], ts);
      assert LineOf(rs[0]) + (Body(rs[1..]) + Body(ts)) == (LineOf(rs[0]) + Body(rs[1..])) + Body(ts);
    }
  }

  /** fgets takes exactly the line of a printable record, and sscanf finds its hash and the first word of its
      path. */
  lemma LineReadsBack(r: Record, rest: string)
    requires Printable(r)
    ensures var s := LineOf(r) + rest;
            var n := LineLen(s, '\n', LINE_SIZE - 1);
            s[..n] == LineOf(r) && s[n..] == rest && n > 0
    ensures Scan(LineOf(r)) == Some(Words(Hex(r.hash), FirstWord(r.path))) && LineOf(r)[0] !in {'#', '\n'}
  {
    HexNoSpace(r.hash);
    var a := Hex(r.hash) + ("  " + r.path);
    assert LineOf(r) == a + "\n" && LineOf(r) + rest == a + ("\n" + rest);
    assert '\n' !in a;
    LineLenIs(a, '\n', rest, LINE_SIZE - 1);
    ScanReadsBack(r);
  }

  lemma ScanReadsBack(r: Record)
    requires Printable(r) && NoSpace(Hex(r.hash))
    ensures Scan(LineOf(r)) == Some(Words(Hex(r.hash), FirstWord(r.path)))
  {
    var h, line := Hex(r.hash), LineOf(r);
    var tail := r.path + "\n";
    assert line == h + ([' '] + (" " + tail));
    assert SkipSpaces(line) == line;
    WordLenIs(h, ' ', " " + tail, HEX_WIDTH);
    assert line[|h|..] == "  " + tail && line[..|h|] == h;
    TwoSpaces(tail);
    WordOfTail(r.path);
  }

  lemma WordOfTail(path: string)
    requires |path| <= PATH_WIDTH
    ensures var tail := path + "\n";
            var n := WordLen(tail, PATH_WIDTH);
            n == |FirstWord(path)| && tail[..n] == FirstWord(path)
  {
    FirstWordIs(path);
    var w, tail := FirstWord(path), path + "\n";
    assert tail == w + ([tail[|w|]] + tail[|w| + 1..]);
    WordLenIs(w, tail[|w|], tail[|w| + 1..], PATH_WIDTH);
  }

  lemma OneSpace(s: string)
    ensures SkipSpaces([' '] + s) == SkipSpaces(s)
  {
    assert ([' '] + s)[1..] == s;
  }

  lemma TwoSpaces(s: string)
    requires s != "" && !IsSpace(s[0])
    ensures SkipSpaces("  " + s) == s
  {
    assert "  " + s == [' '] + ([' '] + s);
    OneSpace([' '] + s);
    OneSpace(s);
  }
}
