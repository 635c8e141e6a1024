/** crypticengine/src/integrity.c: checking files against the database. */
module Integrity {
  import opened Wrappers
  import opened Bytes
  import opened CText
  import opened IntegrityText
  import opened Seqs

  /** The file system as the checks see it: access, and crypto_hash_file, which fails on what cannot be read. */
  datatype Disk = Disk(present: string -> bool, hash: string -> Option<seq<byte>>)
  {
    /** What can be hashed exists, and hashes have their length. */
    ghost predicate Sound() {
      forall p: string :: hash(p).Some? ==> present(p) && |hash(p).value| == INTEGRITY_HASH_LEN
    }
  }

  datatype Status = OK | MODIFIED | MISSING | NEW | ERROR

  /** An IntegrityResult; its fields keep what was there until they are written. */
  datatype Slot = Slot(path: string, expected: seq<byte>, actual: seq<byte>, status: Status)

  /** Bytes written over the front of a buffer. */
  function Overlay(bs: seq<byte>, buffer: seq<byte>): seq<byte> {
    if |bs| <= |buffer| then bs + buffer[|bs|..] else bs
  }

  // ---- integrity_check_all ----

  datatype Checked = Checked(slot: Slot, reported: bool, mismatch: bool)

  /** The effect of one line on the result slot in use. */
  function CheckLine(disk: Disk, line: string, slot: Slot): Checked {
    if line != "" && line[0] in {'#', '\n'} then Checked(slot, false, false)
    else
      match Scan(line)
      case None => Checked(slot, false, false)
      case Some(w) =>
        var named := slot.(path := w.path, expected := Overlay(HexBytes(w.hex), slot.expected));
        if !IsHex(w.hex) then Checked(named, false, false)
        else if !disk.present(w.path) then Checked(named.(status := MISSING), true, true)
        else
          match disk.hash(w.path)
          case None => Checked(named.(status := ERROR), true, false)
          case Some(h) =>
            if named.expected != h then Checked(named.(actual := h, status := MODIFIED), true, true)
            else Checked(named.(actual := h, status := OK), false, false)
  }

  datatype Tally = Tally(slots: seq<Slot>, count: nat, mismatches: nat)

  function AddLine(disk: Disk, line: string, t: Tally): Tally
    requires t.count < |t.slots|
  {
    var c := CheckLine(disk, line, t.slots[t.count]);
    Tally(t.slots[t.count := c.slot], t.count + (if c.reported then 1 else 0), t.mismatches + (if c.mismatch then 1 else 0))
  }

  /** The whole check, line by line, until the text or the slots run out. */
  function Check(disk: Disk, text: string, t: Tally, max: nat): Tally
    requires t.count <= max <= |t.slots|
    decreases |text|
  {
    var n := LineLen(text, '\n', LINE_SIZE - 1);
    if text == "" || t.count == max then t
    else Check(disk, text[n..], AddLine(disk, text[..n], t), max)
  }

  function Checking(disk: Disk, text: string, slots: seq<Slot>, max: nat): Tally
    requires max <= |slots|
  {
    Check(disk, text, Tally(slots, 0, 0), max)
  }

  /** `db` is the content of the database, None when it cannot be opened. */
  method CheckAll(disk: Disk, db: Option<string>, results: array<Slot>, max: nat) returns (ret: int, count: nat)
    requires max <= results.Length
    modifies results
    ensures db.None? ==> ret == -1 && count == 0 && results[..] == old(results[..])
    ensures db.Some? ==> ret >= 0 && Tally(results[..], count, ret) == Checking(disk, db.value, old(results[..]), max)
  {
    hide CheckLine;
    count := 0;
    if db.None? {
      return -1, 0;
    }
    var rest, mismatches: nat := db.value, 0;
    ghost var all := Check(disk, db.value, Tally(results[..], 0, 0), max);
    while rest != "" && count < max
      invariant count <= max
      invariant Check(disk, rest, Tally(results[..], count, mismatches), max) == all
      decreases |rest|
    {
      ghost var t := Tally(results[..], count, mismatches);
      var n := LineLen(rest, '\n', LINE_SIZE - 1);
      var c := CheckLine(disk, rest[..n], results[count]);
      results[count] := c.slot;
      if c.reported {
        count := count + 1;
      }
      if c.mismatch {
        mismatches := mismatches + 1;
      }
      assert Tally(results[..], count, mismatches) == AddLine(disk, rest[..n], t);
      rest := rest[n..];
    }
    ret := mismatches;
  }

  // ---- integrity_check_file ----

  /** The hash in the first line for a path. */
  function FindHex(text: string, path: string): Option<string>
    decreases |text|
  {
    if text == "" then None
    else
      var n := LineLen(text, '\n', LINE_SIZE - 1);
      var w := Scan(text[..n]);
      if text[0] != '#' && w.Some? && w.value.path == path then Some(w.value.hex) else FindHex(text[n..], path)
  }

  datatype FileResult = FileResult(ret: int, slot: Slot)

  /** What integrity_check_file returns and leaves in its result. */
  function FileCheck(disk: Disk, db: Option<string>, path: string, slot: Slot): FileResult {
    var s := slot.(path := Truncate(path, PATH_WIDTH + 1));
    if !disk.present(path) then FileResult(1, s.(status := MISSING))
    else
      match disk.hash(path)
      case None => FileResult(-1, s.(status := ERROR))
      case Some(h) =>
        var a := s.(actual := h);
        if db.None? then FileResult(-1, a)
        else
          match FindHex(db.value, path)
          case None => FileResult(1, a.(status := NEW))
          case Some(hex) =>
            var e := a.(expected := Overlay(HexBytes(hex), a.expected));
            if e.expected == h then FileResult(0, e.(status := OK)) else FileResult(1, e.(status := MODIFIED))
  }

  /** What a single check returns: 0 for OK, 1 for a file that is missing, not recorded or modified, and -1 for one
      that cannot be read or when there is no database, which leaves the status as it was. */
  lemma FileCheckReturns(disk: Disk, db: Option<string>, path: string, slot: Slot)
    ensures var f := FileCheck(disk, db, path, slot);
            && f.slot.path == Truncate(path, 512)
            && (f.slot.status == MISSING && f.ret == 1 <== !disk.present(path))
            && (disk.present(path) && disk.hash(path).None? ==> f.slot.status == ERROR && f.ret == -1)
            && (disk.present(path) && disk.hash(path).Some? ==> f.slot.actual == disk.hash(path).value)
            && (disk.present(path) && disk.hash(path).Some? && db.None? ==> f.slot.status == slot.status && f.ret == -1)
            && (disk.present(path) && disk.hash(path).Some? && db.Some? ==>
                  f.slot.status in {OK, NEW, MODIFIED} && f.ret == if f.slot.status == OK then 0 else 1)
  {
    hide FindHex;
  }

  class ResultRef {
    var slot: Slot

    constructor (slot: Slot)
      ensures this.slot == slot
    {
      this.slot := slot;
    }
  }

  method CheckFile(disk: Disk, db: Option<string>, path: string, result: ResultRef) returns (ret: int)
    modifies result
    ensures FileResult(ret, result.slot) == FileCheck(disk, db, path, old(result.slot))
  {
    result.slot := result.slot.(path := Truncate(path, PATH_WIDTH + 1));
    if !disk.present(path) {
      result.slot := result.slot.(status := MISSING);
      return 1;
    }
    var hash := disk.hash(path);
    if hash.None? {
      result.slot := result.slot.(status := ERROR);
      return -1;
    }
    result.slot := result.slot.(actual := hash.value);
    if db.None? {
      return -1;
    }
    var hex := LookUp(db.value, path);
    if hex.None? {
      result.slot := result.slot.(status := NEW);
      return 1;
    }
    result.slot := result.slot.(expected := Overlay(HexBytes(hex.value), result.slot.expected));
    if result.slot.expected == hash.value {
      result.slot := result.slot.(status := OK);
      ret := 0;
    } else {
      result.slot := result.slot.(status := MODIFIED);
      ret := 1;
    }
  }

  method LookUp(text: string, path: string) returns (hex: Option<string>)
    ensures hex == FindHex(text, path)
  {
    var rest := text;
    while rest != ""
      invariant FindHex(rest, path) == FindHex(text, path)
      decreases |rest|
    {
      var n := LineLen(rest, '\n', LINE_SIZE - 1);
      var line := rest[..n];
      if line[0] != '#' {
        var w := Scan(line);
        if w.Some? && w.value.path == path {
          return Some(w.value.hex);
        }
      }
      rest := rest[n..];
    }
    hex := None;
  }

  // ---- What the checks mean on a database of records ----

  /** How a recorded file stands. */
  function Judge(disk: Disk, r: Record): Status {
    if !disk.present(r.path) then MISSING
    else match disk.hash(r.path) case None => ERROR case Some(h) => if r.hash == h then OK else MODIFIED
  }

  datatype Finding = Finding(path: string, status: Status)

  /** The recorded files that are not OK, in the order of the database. */
  function Findings(disk: Disk, rs: seq<Record>): seq<Finding> {
    if rs == [] then []
    else
      var s := Judge(disk, rs[0]);
      (if s == OK then [] else [Finding(rs[0].path, s)]) + Findings(disk, rs[1..])
  }

  /** The findings that are tampering; an unreadable file is not counted. */
  function Tampered(fs: seq<Finding>): nat {
    if fs == [] then 0 else (if fs[0].status in {MODIFIED, MISSING} then 1 else 0) + Tampered(fs[1..])
  }

  function Shown(slots: seq<Slot>): seq<Finding> {
    if slots == [] then [] else [Finding(slots[0].path, slots[0].status)] + Shown(slots[1..])
  }

  /** The result buffers have their length. */
  ghost predicate Sized(slots: seq<Slot>) {
    forall i | 0 <= i < |slots| :: |slots[i].expected| == INTEGRITY_HASH_LEN
  }

  lemma {:induction false} ShownAppend(a: seq<Slot>, s: Slot)
    ensures Shown(a + [s]) == Shown(a) + [Finding(s.path, s.status)]
  {
    if a == [] {
      assert a + [s] == [s];
    } else {
      assert (a + [s])[1..] == a[1..] + [s];
      ShownAppend(a[1..], s);
    }
  }

  /** Lines that are no records: comments, empty lines and lines without two words change nothing, and a line whose
      first word is not hexadecimal counts for nothing. */
  lemma OddLine(disk: Disk, line: string, slot: Slot)
    ensures var c := CheckLine(disk, line, slot);
            && (line != "" && (line[0] == '#' || line[0] == '\n') ==> c == Checked(slot, false, false))
            && (Scan(line).None? ==> c == Checked(slot, false, false))
            && (Scan(line).Some? && !IsHex(Scan(line).value.hex) ==>
                  !c.reported && !c.mismatch && c.slot.status == slot.status && c.slot.actual == slot.actual)
  {
    hide Scan, IsHex, HexBytes;
  }

  /** One recorded line. */
  lemma CheckRecord(disk: Disk, r: Record, slot: Slot)
    requires Clean(r) && |slot.expected| == INTEGRITY_HASH_LEN
    ensures var c := CheckLine(disk, LineOf(r), slot);
            && c.slot.path == r.path && |c.slot.expected| == INTEGRITY_HASH_LEN && c.slot.status == Judge(disk, r)
            && c.reported == (Judge(disk, r) != OK) && c.mismatch == (Judge(disk, r) in {MODIFIED, MISSING})
    ensures Judge(disk, r) == if !disk.present(r.path) then MISSING
                              else if disk.hash(r.path).None? then ERROR
                              else if disk.hash(r.path).value == r.hash then OK else MODIFIED
    ensures var s := CheckLine(disk, LineOf(r), slot).slot;
            && s.expected == r.hash
            && s.actual == if disk.present(r.path) && disk.hash(r.path).Some? then disk.hash(r.path).value else slot.actual
  {
    CleanIsPrintable(r);
    LineReadsBack(r, "");
    HexReadsBack(r.hash);
    assert Overlay(r.hash, slot.expected) == r.hash;
  }

  lemma AddRecord(disk: Disk, r: Record, t: Tally)
    requires Clean(r) && Sized(t.slots) && t.count < |t.slots|
    ensures var u := AddLine(disk, LineOf(r), t);
            && Sized(u.slots) && |u.slots| == |t.slots|
            && Shown(u.slots[..u.count]) == Shown(t.slots[..t.count]) + Findings(disk, [r])
            && u.count == t.count + |Findings(disk, [r])| && u.mismatches == t.mismatches + Tampered(Findings(disk, [r]))
  {
    hide CheckLine;
    CheckRecord(disk, r, t.slots[t.count]);
    var u := AddLine(disk, LineOf(r), t);
    OneFinding(disk, r);
    if Judge(disk, r) == OK {
      assert u.slots[..u.count] == t.slots[..t.count];
    } else {
      assert u.slots[..u.count] == t.slots[..t.count] + [u.slots[t.count]];
      ShownAppend(t.slots[..t.count], u.slots[t.count]);
    }
  }

  lemma OneFinding(disk: Disk, r: Record)
    ensures var s := Judge(disk, r);
            && Findings(disk, [r]) == (if s == OK then [] else [Finding(r.path, s)])
            && Tampered(Findings(disk, [r])) == (if s in {MODIFIED, MISSING} then 1 else 0)
  {
    assert [r][1..] == [];
  }

  lemma FirstOfSum<T>(a: seq<T>, b: seq<T>, n: nat)
    requires |a| <= n
    ensures Take(a + b, n) == a + Take(b, n - |a|)
  {
  }

  lemma {:induction false} TamperedOfSum(a: seq<Finding>, b: seq<Finding>)
    ensures Tampered(a + b) == Tampered(a) + Tampered(b)
  {
    if a == [] {
      assert a + b == b;
    } else {
      assert (a + b)[1..] == a[1..] + b;
      TamperedOfSum(a[1..], b);
    }
  }

  lemma FindingsStep(disk: Disk, rs: seq<Record>, n: nat)
    requires rs != [] && n > 0
    ensures var one := Findings(disk, [rs[0]]);
            && |one| <= 1 && Take(Findings(disk, rs), n) == one + Take(Findings(disk, rs[1..]), n - |one|)
            && Tampered(Take(Findings(disk, rs), n)) == Tampered(one) + Tampered(Take(Findings(disk, rs[1..]), n - |one|))
  {
    OneFinding(disk, rs[0]);
    var one := Findings(disk, [rs[0]]);
    FirstOfSum(one, Findings(disk, rs[1..]), n);
    TamperedOfSum(one, Take(Findings(disk, rs[1..]), n - |one|));
  }

  lemma CheckStep(disk: Disk, r: Record, rest: string, t: Tally, max: nat)
    requires Printable(r) && t.count < max <= |t.slots|
    ensures Check(disk, LineOf(r) + rest, t, max) == Check(disk, rest, AddLine(disk, LineOf(r), t), max)
  {
    hide CheckLine;
    LineReadsBack(r, rest);
  }

  /** From `t` to `u` the findings of the records were added, as long as there was room. */
  ghost predicate Added(disk: Disk, rs: seq<Record>, t: Tally, u: Tally, max: nat)
    requires t.count <= max <= |t.slots|
  {
    var fs := Take(Findings(disk, rs), max - t.count);
    && |u.slots| == |t.slots| && u.count == t.count + |fs| && u.count <= max && u.mismatches == t.mismatches + Tampered(fs)
    && Shown(u.slots[..u.count]) == Shown(t.slots[..t.count]) + fs
  }

  lemma AddedNothing(disk: Disk, rs: seq<Record>, t: Tally, max: nat)
    requires t.count <= max <= |t.slots| && (rs == [] || t.count == max)
    ensures Added(disk, rs, t, t, max)
  {
    assert Take(Findings(disk, rs), max - t.count) == [];
    assert Shown(t.slots[..t.count]) + [] == Shown(t.slots[..t.count]);
  }

  lemma AddedStep(disk: Disk, rs: seq<Record>, t: Tally, v: Tally, u: Tally, max: nat)
    requires rs != [] && Clean(rs[0]) && Sized(t.slots) && t.count < max <= |t.slots|
    requires v == AddLine(disk, LineOf(rs[0]), t) && v.count <= max && |v.slots| == |t.slots| && Added(disk, rs[1..], v, u, max)
    ensures Added(disk, rs, t, u, max)
  {
    hide AddLine, Shown, Findings, Tampered, Take, LineOf;
    AddRecord(disk, rs[0], t);
    FindingsStep(disk, rs, max - t.count);
    var shown := Shown(t.slots[..t.count]);
    var one := Findings(disk, [rs[0]]);
    var more := Take(Findings(disk, rs[1..]), max - t.count - |one|);
    assert (shown + one) + more == shown + (one + more);
  }

  /** A check over records adds their findings as long as there is room. */
  lemma {:induction false} CheckOfRecords(disk: Disk, rs: seq<Record>, t: Tally, max: nat)
    requires (forall i | 0 <= i < |rs| :: Clean(rs[i])) && Sized(t.slots) && t.count <= max <= |t.slots|
    ensures Added(disk, rs, t, Check(disk, Body(rs), t, max), max)
    decreases |rs|
  {
    hide Added;
    if rs == [] || t.count == max {
      AddedNothing(disk, rs, t, max);
    } else {
      CleanIsPrintable(rs[0]);
      CheckStep(disk, rs[0], Body(rs[1..]), t, max);
      AddRecord(disk, rs[0], t);
      var v := AddLine(disk, LineOf(rs[0]), t);
      CheckOfRecords(disk, rs[1..], v, max);
      AddedStep(disk, rs, t, v, Check(disk, Body(rs[1..]), v, max), max);
    }
  }

  lemma CheckComment(disk: Disk, a: string, rest: string, t: Tally, max: nat)
    requires a != "" && a[0] == '#' && '\n' !in a && |a| < LINE_SIZE - 1 && t.count <= max <= |t.slots|
    ensures Check(disk, a + ("\n" + rest), t, max) == Check(disk, rest, t, max)
  {
    if t.count < max {
      LineLenIs(a, '\n', rest, LINE_SIZE - 1);
      var s := a + ("\n" + rest);
      var n := |a| + 1;
      assert s[n..] == rest && s[..n][0] == '#';
      assert AddLine(disk, s[..n], t) == t;
    }
  }

  const COMMENT1 := "# SecureZ+ Integrity Database"
  const COMMENT2 := "# Format: blake2b_hash  filepath"

  lemma Comments(rest: string)
    ensures COMMENTS + rest == COMMENT1 + ("\n" + (COMMENT2 + ("\n" + rest)))
    ensures COMMENT1[0] == '#' && COMMENT2[0] == '#' && '\n' !in COMMENT1 && '\n' !in COMMENT2
  {
    TwoLines(COMMENT1, COMMENT2, rest);
    assert COMMENTS == (COMMENT1 + "\n") + (COMMENT2 + "\n");
  }

  lemma TwoLines(a: string, b: string, rest: string)
    ensures ((a + "\n") + (b + "\n")) + rest == a + ("\n" + (b + ("\n" + rest)))
  {
  }

  lemma CheckComments(disk: Disk, rest: string, t: Tally, max: nat)
    requires t.count <= max <= |t.slots|
    ensures Check(disk, COMMENTS + rest, t, max) == Check(disk, rest, t, max)
  {
    hide Check;
    Comments(rest);
    CheckComment(disk, COMMENT1, COMMENT2 + ("\n" + rest), t, max);
    CheckComment(disk, COMMENT2, rest, t, max);
  }

  /** integrity_check_all reports the first findings that there is room for, in the order of the database, and
      returns how many of them are tampering. */
  lemma CheckAllFindings(disk: Disk, rs: seq<Record>, slots: seq<Slot>, max: nat)
    requires (forall i | 0 <= i < |rs| :: Clean(rs[i])) && Sized(slots) && max <= |slots|
    ensures var u := Checking(disk, DbText(rs), slots, max);
            var fs := Take(Findings(disk, rs), max);
            |u.slots| == |slots| && u.count == |fs| <= max && Shown(u.slots[..u.count]) == fs && u.mismatches == Tampered(fs)
  {
    var t := Tally(slots, 0, 0);
    CheckComments(disk, Body(rs), t, max);
    CheckOfRecords(disk, rs, t, max);
    var fs := Take(Findings(disk, rs), max);
    assert [] + fs == fs;
  }

  /** No finding is tampering just when all of them are unreadable files. */
  lemma {:induction false} NoneTampered(fs: seq<Finding>)
    requires forall i | 0 <= i < |fs| :: fs[i].status in {MODIFIED, MISSING, ERROR}
    ensures Tampered(fs) == 0 <==> forall i | 0 <= i < |fs| :: fs[i].status == ERROR
  {
    if fs != [] {
      NoneTampered(fs[1..]);
      assert forall i | 0 < i < |fs| :: fs[i] == fs[1..][i - 1];
    }
  }

  lemma {:induction false} FindingKinds(disk: Disk, rs: seq<Record>)
    ensures forall i | 0 <= i < |Findings(disk, rs)| :: Findings(disk, rs)[i].status in {MODIFIED, MISSING, ERROR}
  {
    if rs != [] {
      FindingKinds(disk, rs[1..]);
    }
  }

  /** The documentation promises that 0 means all OK. It is returned though a recorded file is not OK just when
      there are findings and the first `max` of them are all unreadable files: unreadable files are not counted
      but use up the slots, and the check stops when there are no more. */
  lemma ZeroReturned(disk: Disk, rs: seq<Record>, slots: seq<Slot>, max: nat)
    requires (forall i | 0 <= i < |rs| :: Clean(rs[i])) && Sized(slots) && max <= |slots|
    ensures Checking(disk, DbText(rs), slots, max).mismatches == 0
            && (exists i :: 0 <= i < |rs| && Judge(disk, rs[i]) != OK)
            <==>
            Findings(disk, rs) != []
            && forall i | 0 <= i < |Findings(disk, rs)| && i < max :: Findings(disk, rs)[i].status == ERROR
  {
    hide Checking, DbText;
    CheckAllFindings(disk, rs, slots, max);
    FindingsEmpty(disk, rs);
    FindingKinds(disk, rs);
    NoneTampered(Take(Findings(disk, rs), max));
  }

  /** With a slot for every record, 0 is returned though something is reported just when there is an unreadable
      file and nothing else amiss. */
  lemma ZeroWithRoom(disk: Disk, rs: seq<Record>, slots: seq<Slot>, max: nat)
    requires (forall i | 0 <= i < |rs| :: Clean(rs[i])) && Sized(slots) && |rs| <= max <= |slots|
    ensures var u := Checking(disk, DbText(rs), slots, max);
            u.mismatches == 0 && u.count > 0 <==>
            (exists i :: 0 <= i < |rs| && Judge(disk, rs[i]) == ERROR)
            && forall i | 0 <= i < |rs| :: Judge(disk, rs[i]) in {OK, ERROR}
  {
    hide Checking, DbText;
    CheckAllFindings(disk, rs, slots, max);
    FindingsLength(disk, rs);
    assert Take(Findings(disk, rs), max) == Findings(disk, rs);
    TamperedZero(disk, rs);
    FindingsEmpty(disk, rs);
  }

  // ---- Checks that return 0 with something amiss ----

  function Hash32(b: byte): (h: seq<byte>)
    ensures |h| == INTEGRITY_HASH_LEN
  {
    seq(INTEGRITY_HASH_LEN, _ => b)
  }

  /** `/bin/a` cannot be read and `/bin/b` is not as recorded. */
  const ODD_DISK := Disk(_ => true, p => if p == "/bin/b" then Some(Hash32(1)) else None)
  const UNREADABLE := Record(Hash32(0), "/bin/a")
  const ALTERED := Record(Hash32(0), "/bin/b")

  lemma OddRecords()
    ensures Clean(UNREADABLE) && Clean(ALTERED)
    ensures Judge(ODD_DISK, UNREADABLE) == ERROR && Judge(ODD_DISK, ALTERED) == MODIFIED
    ensures Findings(ODD_DISK, [UNREADABLE]) == [Finding("/bin/a", ERROR)]
    ensures Findings(ODD_DISK, [ALTERED]) == [Finding("/bin/b", MODIFIED)]
    ensures Findings(ODD_DISK, [UNREADABLE, ALTERED]) == [Finding("/bin/a", ERROR), Finding("/bin/b", MODIFIED)]
  {
    assert Hash32(0)[0] != Hash32(1)[0];
    assert [UNREADABLE, ALTERED][1..] == [ALTERED];
    OneFinding(ODD_DISK, UNREADABLE);
    OneFinding(ODD_DISK, ALTERED);
  }

  /** An unreadable file is reported, and 0 returned. */
  lemma ZeroThoughUnreadable(slot: Slot)
    requires |slot.expected| == INTEGRITY_HASH_LEN
    ensures var u := Checking(ODD_DISK, DbText([UNREADABLE]), [slot], 1);
            u.count == 1 && u.mismatches == 0
  {
    hide Checking, DbText;
    OddRecords();
    CheckAllFindings(ODD_DISK, [UNREADABLE], [slot], 1);
  }

  /** An unreadable file takes the only slot, and 0 is returned though a file is modified. */
  lemma ZeroThoughModified(slot: Slot)
    requires |slot.expected| == INTEGRITY_HASH_LEN
    ensures var u := Checking(ODD_DISK, DbText([UNREADABLE, ALTERED]), [slot], 1);
            u.count == 1 && u.mismatches == 0
    ensures Judge(ODD_DISK, ALTERED) == MODIFIED
  {
    hide Checking, DbText;
    OddRecords();
    CheckAllFindings(ODD_DISK, [UNREADABLE, ALTERED], [slot], 1);
    assert [Finding("/bin/a", ERROR), Finding("/bin/b", MODIFIED)][..1] == [Finding("/bin/a", ERROR)];
  }

  /** Without slots nothing is looked at. */
  lemma ZeroWithoutSlots(slots: seq<Slot>)
    requires Sized(slots)
    ensures var u := Checking(ODD_DISK, DbText([ALTERED]), slots, 0);
            u.count == 0 && u.mismatches == 0
    ensures Judge(ODD_DISK, ALTERED) == MODIFIED
  {
    hide Checking, DbText;
    OddRecords();
    CheckAllFindings(ODD_DISK, [ALTERED], slots, 0);
  }

  lemma {:induction false} TamperedZero(disk: Disk, rs: seq<Record>)
    ensures Tampered(Findings(disk, rs)) == 0 <==> forall i | 0 <= i < |rs| :: Judge(disk, rs[i]) in {OK, ERROR}
  {
    if rs != [] {
      var one := Findings(disk, [rs[0]]);
      OneFinding(disk, rs[0]);
      TamperedOfSum(one, Findings(disk, rs[1..]));
      TamperedZero(disk, rs[1..]);
      assert forall i | 0 < i < |rs| :: rs[i] == rs[1..][i - 1];
    }
  }

  lemma {:induction false} FindingsEmpty(disk: Disk, rs: seq<Record>)
    ensures Findings(disk, rs) == [] <==> forall i | 0 <= i < |rs| :: Judge(disk, rs[i]) == OK
  {
    if rs != [] {
      FindingsEmpty(disk, rs[1..]);
      assert forall i | 0 < i < |rs| :: rs[i] == rs[1..][i - 1];
    }
  }

  // ---- The two checks agree ----

  function FirstRecord(rs: seq<Record>, path: string): Option<Record> {
    if rs == [] then None else if rs[0].path == path then Some(rs[0]) else FirstRecord(rs[1..], path)
  }

  lemma FindStep(r: Record, rest: string, path: string)
    requires Printable(r)
    ensures FindHex(LineOf(r) + rest, path) == if FirstWord(r.path) == path then Some(Hex(r.hash)) else FindHex(rest, path)
  {
    LineReadsBack(r, rest);
    assert (LineOf(r) + rest)[0] == LineOf(r)[0];
  }

  lemma {:induction false} FindOfRecords(rs: seq<Record>, path: string)
    requires forall i | 0 <= i < |rs| :: Clean(rs[i])
    ensures FindHex(Body(rs), path) ==
            match FirstRecord(rs, path) case None => None case Some(r) => Some(Hex(r.hash))
  {
    hide Scan;
    if rs != [] {
      CleanIsPrintable(rs[0]);
      FindStep(rs[0], Body(rs[1..]), path);
      FindOfRecords(rs[1..], path);
    }
  }

  lemma FindComment(a: string, rest: string, path: string)
    requires a != "" && a[0] == '#' && '\n' !in a && |a| < LINE_SIZE - 1
    ensures FindHex(a + ("\n" + rest), path) == FindHex(rest, path)
  {
    LineLenIs(a, '\n', rest, LINE_SIZE - 1);
    assert (a + ("\n" + rest))[|a| + 1..] == rest;
  }

  lemma FindPastComments(body: string, path: string)
    ensures FindHex(COMMENTS + body, path) == FindHex(body, path)
  {
    hide FindHex;
    Comments(body);
    FindComment(COMMENT1, COMMENT2 + ("\n" + body), path);
    FindComment(COMMENT2, body, path);
  }

  lemma FindInDb(rs: seq<Record>, path: string)
    requires forall i | 0 <= i < |rs| :: Clean(rs[i])
    ensures FindHex(DbText(rs), path) ==
            match FirstRecord(rs, path) case None => None case Some(r) => Some(Hex(r.hash))
  {
    hide FindHex;
    FindPastComments(Body(rs), path);
    FindOfRecords(rs, path);
  }

  /** Records of the same path hold the same hash. */
  ghost predicate Consistent(rs: seq<Record>) {
    forall i, j | 0 <= i < |rs| && 0 <= j < |rs| && rs[i].path == rs[j].path :: rs[i].hash == rs[j].hash
  }

  lemma {:induction false} FirstRecordIs(rs: seq<Record>, k: nat)
    requires Consistent(rs) && k < |rs|
    ensures FirstRecord(rs, rs[k].path) == Some(rs[k])
  {
    if k > 0 {
      assert rs[1..][k - 1] == rs[k];
      FirstRecordIs(rs[1..], k - 1);
    }
  }

  /** The check of one recorded file finds what the check of all files finds for it. */
  lemma FileCheckJudges(disk: Disk, rs: seq<Record>, k: nat, slot: Slot)
    requires (forall i | 0 <= i < |rs| :: Clean(rs[i])) && Consistent(rs) && k < |rs|
    requires |slot.expected| == INTEGRITY_HASH_LEN
    ensures var f := FileCheck(disk, Some(DbText(rs)), rs[k].path, slot);
            && f.slot.path == rs[k].path && f.slot.status == Judge(disk, rs[k])
            && f.ret == (match f.slot.status case OK => 0 case ERROR => -1 case _ => 1)
            && (f.slot.status == OK || f.slot.status == MODIFIED ==> f.slot.expected == rs[k].hash)
  {
    FindInDb(rs, rs[k].path);
    FirstRecordIs(rs, k);
    HexReadsBack(rs[k].hash);
    assert Overlay(rs[k].hash, slot.expected) == rs[k].hash;
  }

  lemma {:induction false} NotRecorded(rs: seq<Record>, path: string)
    requires forall i | 0 <= i < |rs| :: rs[i].path != path
    ensures FirstRecord(rs, path) == None
  {
    if rs != [] {
      NotRecorded(rs[1..], path);
    }
  }

  lemma {:induction false} IsRecorded(rs: seq<Record>, path: string)
    requires exists i :: 0 <= i < |rs| && rs[i].path == path
    ensures FirstRecord(rs, path).Some?
  {
    if rs[0].path != path {
      var i :| 0 <= i < |rs| && rs[i].path == path;
      assert rs[1..][i - 1].path == path;
      IsRecorded(rs[1..], path);
    }
  }

  /** The recorded files that the check of single files finds not OK. */
  function FoundSingly(disk: Disk, db: string, rs: seq<Record>, slot: Slot): seq<Finding> {
    if rs == [] then []
    else
      var s := FileCheck(disk, Some(db), rs[0].path, slot).slot.status;
      (if s == OK then [] else [Finding(rs[0].path, s)]) + FoundSingly(disk, db, rs[1..], slot)
  }

  lemma {:induction false} SinglyIsFindings(disk: Disk, rs: seq<Record>, from: nat, slot: Slot)
    requires (forall i | 0 <= i < |rs| :: Clean(rs[i])) && Consistent(rs) && from <= |rs|
    requires |slot.expected| == INTEGRITY_HASH_LEN
    ensures FoundSingly(disk, DbText(rs), rs[from..], slot) == Findings(disk, rs[from..])
    decreases |rs| - from
  {
    hide FileCheck;
    if from < |rs| {
      FileCheckJudges(disk, rs, from, slot);
      assert rs[from..][1..] == rs[from + 1..] && rs[from..][0] == rs[from];
      SinglyIsFindings(disk, rs, from + 1, slot);
    }
  }

  /** With enough slots, checking all files reports exactly the recorded files that checking each one finds not
      OK, in the order of the database and with the same status. */
  lemma ChecksAgree(disk: Disk, rs: seq<Record>, slots: seq<Slot>, max: nat, slot: Slot)
    requires (forall i | 0 <= i < |rs| :: Clean(rs[i])) && Consistent(rs)
    requires Sized(slots) && |rs| <= max <= |slots| && |slot.expected| == INTEGRITY_HASH_LEN
    ensures var u := Checking(disk, DbText(rs), slots, max);
            |u.slots| == |slots| && u.count <= max && Shown(u.slots[..u.count]) == FoundSingly(disk, DbText(rs), rs, slot)
  {
    hide Checking;
    hide FoundSingly;
    CheckAllFindings(disk, rs, slots, max);
    FindingsLength(disk, rs);
    assert rs[0..] == rs;
    SinglyIsFindings(disk, rs, 0, slot);
  }

  lemma {:induction false} FindingsLength(disk: Disk, rs: seq<Record>)
    ensures |Findings(disk, rs)| <= |rs|
  {
    if rs != [] {
      FindingsLength(disk, rs[1..]);
    }
  }

  // ---- Paths with white space ----

  /** The records as the checks read them. */
  function ReadBack(rs: seq<Record>): (cs: seq<Record>)
    ensures |cs| == |rs|
  {
    if rs == [] then [] else [AsRead(rs[0])] + ReadBack(rs[1..])
  }

  lemma {:induction false} ReadBackAt(rs: seq<Record>, k: nat)
    requires k < |rs|
    ensures ReadBack(rs)[k] == AsRead(rs[k])
  {
    if k > 0 {
      ReadBackAt(rs[1..], k - 1);
    }
  }

  lemma ReadBackIsClean(rs: seq<Record>)
    requires forall i | 0 <= i < |rs| :: Printable(rs[i])
    ensures forall i | 0 <= i < |rs| :: Clean(ReadBack(rs)[i])
  {
    forall i | 0 <= i < |rs| ensures Clean(ReadBack(rs)[i]) {
      ReadBackAt(rs, i);
      AsReadIsClean(rs[i]);
    }
  }

  lemma ReadBackOfClean(rs: seq<Record>)
    requires forall i | 0 <= i < |rs| :: Clean(rs[i])
    ensures ReadBack(rs) == rs
  {
    forall i | 0 <= i < |rs| ensures ReadBack(rs)[i] == rs[i] {
      ReadBackAt(rs, i);
      CleanIsPrintable(rs[i]);
    }
  }

  lemma SameLine(disk: Disk, r: Record, slot: Slot)
    requires Printable(r)
    ensures Printable(AsRead(r)) && CheckLine(disk, LineOf(r), slot) == CheckLine(disk, LineOf(AsRead(r)), slot)
  {
    AsReadIsClean(r);
    CleanIsPrintable(AsRead(r));
    LineReadsBack(r, "");
    LineReadsBack(AsRead(r), "");
  }

  lemma BodyReadBack(rs: seq<Record>)
    requires rs != []
    ensures Body(ReadBack(rs)) == LineOf(AsRead(rs[0])) + Body(ReadBack(rs[1..]))
  {
    hide LineOf;
    assert ReadBack(rs)[1..] == ReadBack(rs[1..]);
  }

  lemma {:induction false} CheckReadBack(disk: Disk, rs: seq<Record>, t: Tally, max: nat)
    requires (forall i | 0 <= i < |rs| :: Printable(rs[i])) && t.count <= max <= |t.slots|
    ensures Check(disk, Body(rs), t, max) == Check(disk, Body(ReadBack(rs)), t, max)
    decreases |rs|
  {
    hide CheckLine, LineOf, Printable, AsRead, ReadBack;
    if rs == [] || t.count == max {
      CheckStops(disk, Body(rs), Body(ReadBack(rs)), t, max);
    } else {
      var r := AsRead(rs[0]);
      SameLine(disk, rs[0], t.slots[t.count]);
      var u := AddLine(disk, LineOf(r), t);
      hide Check, AddLine;
      BodyReadBack(rs);
      CheckStep(disk, rs[0], Body(rs[1..]), t, max);
      CheckStep(disk, r, Body(ReadBack(rs[1..])), t, max);
      CheckReadBack(disk, rs[1..], u, max);
    }
  }

  lemma CheckStops(disk: Disk, a: string, b: string, t: Tally, max: nat)
    requires t.count <= max <= |t.slots| && (a == b == "" || t.count == max)
    ensures Check(disk, a, t, max) == Check(disk, b, t, max)
  {
  }

  lemma {:induction false} FindReadBack(rs: seq<Record>, path: string)
    requires forall i | 0 <= i < |rs| :: Printable(rs[i])
    ensures FindHex(Body(rs), path) == FindHex(Body(ReadBack(rs)), path)
  {
    hide Scan, LineOf;
    if rs != [] {
      var r, cs := AsRead(rs[0]), ReadBack(rs[1..]);
      BodyReadBack(rs);
      AsReadIsClean(rs[0]);
      CleanIsPrintable(r);
      FindStep(rs[0], Body(rs[1..]), path);
      FindStep(r, Body(cs), path);
      FindReadBack(rs[1..], path);
    }
  }

  /** Both checks take a database of printable records for the database of the records with their paths cut at
      the first white space. */
  lemma ChecksReadBack(disk: Disk, rs: seq<Record>, slots: seq<Slot>, max: nat, path: string, slot: Slot)
    requires (forall i | 0 <= i < |rs| :: Printable(rs[i])) && max <= |slots|
    ensures Checking(disk, DbText(rs), slots, max) == Checking(disk, DbText(ReadBack(rs)), slots, max)
    ensures FileCheck(disk, Some(DbText(rs)), path, slot) == FileCheck(disk, Some(DbText(ReadBack(rs))), path, slot)
  {
    hide DbText, FindHex, Check, Printable, ReadBack;
    AllReadBack(disk, rs, Tally(slots, 0, 0), max);
    SingleReadBack(rs, path);
  }

  lemma AllReadBack(disk: Disk, rs: seq<Record>, t: Tally, max: nat)
    requires (forall i | 0 <= i < |rs| :: Printable(rs[i])) && t.count <= max <= |t.slots|
    ensures Check(disk, DbText(rs), t, max) == Check(disk, DbText(ReadBack(rs)), t, max)
  {
    hide Check, Body, Printable, ReadBack;
    CheckComments(disk, Body(rs), t, max);
    CheckComments(disk, Body(ReadBack(rs)), t, max);
    CheckReadBack(disk, rs, t, max);
  }

  lemma SingleReadBack(rs: seq<Record>, path: string)
    requires forall i | 0 <= i < |rs| :: Printable(rs[i])
    ensures FindHex(DbText(rs), path) == FindHex(DbText(ReadBack(rs)), path)
  {
    hide FindHex, Body, Printable, ReadBack;
    FindPastComments(Body(rs), path);
    FindPastComments(Body(ReadBack(rs)), path);
    FindReadBack(rs, path);
  }

  /** The findings are those of the records as they are read. */
  lemma CheckPrinted(disk: Disk, rs: seq<Record>, slots: seq<Slot>, max: nat)
    requires (forall i | 0 <= i < |rs| :: Printable(rs[i])) && Sized(slots) && max <= |slots|
    ensures var u := Checking(disk, DbText(rs), slots, max);
            var fs := Take(Findings(disk, ReadBack(rs)), max);
            |u.slots| == |slots| && u.count == |fs| <= max && Shown(u.slots[..u.count]) == fs && u.mismatches == Tampered(fs)
  {
    hide Checking, DbText, FileCheck, ReadBack, Printable;
    ReadBackIsClean(rs);
    ChecksReadBack(disk, rs, slots, max, "", Slot("", [], [], OK));
    CheckAllFindings(disk, ReadBack(rs), slots, max);
  }

  /** The check of all files is silent just when there is no slot or every record as it is read is OK. */
  lemma SilentExactly(disk: Disk, rs: seq<Record>, slots: seq<Slot>, max: nat)
    requires (forall i | 0 <= i < |rs| :: Printable(rs[i])) && Sized(slots) && max <= |slots|
    ensures var u := Checking(disk, DbText(rs), slots, max);
            u.count == 0 && u.mismatches == 0 <==>
            max == 0 || forall i | 0 <= i < |rs| :: Judge(disk, AsRead(rs[i])) == OK
  {
    hide Checking, DbText, FileCheck, Judge;
    var cs := ReadBack(rs);
    CheckPrinted(disk, rs, slots, max);
    FindingsEmpty(disk, cs);
    forall i | 0 <= i < |rs| ensures cs[i] == AsRead(rs[i]) {
      ReadBackAt(rs, i);
    }
  }

  /** A file that can be read is NEW just when no record is read as its path. */
  lemma UnrecordedIsNew(disk: Disk, rs: seq<Record>, path: string, slot: Slot)
    requires (forall i | 0 <= i < |rs| :: Printable(rs[i])) && |slot.expected| == INTEGRITY_HASH_LEN
    requires disk.present(path) && disk.hash(path).Some?
    ensures FileCheck(disk, Some(DbText(rs)), path, slot).slot.status == NEW <==>
            forall i | 0 <= i < |rs| :: FirstWord(rs[i].path) != path
  {
    hide DbText, FindHex, Printable, FirstWord;
    var cs := ReadBack(rs);
    SingleReadBack(rs, path);
    ReadBackIsClean(rs);
    FindInDb(cs, path);
    forall i | 0 <= i < |rs| ensures cs[i].path == FirstWord(rs[i].path) {
      ReadBackAt(rs, i);
    }
    if forall i | 0 <= i < |rs| :: cs[i].path != path {
      NotRecorded(cs, path);
    } else {
      IsRecorded(cs, path);
    }
  }

  /** No database whatever has a line that is read as a path with white space. */
  lemma {:induction false} SpacedNotFound(text: string, path: string)
    requires !NoSpace(path)
    ensures FindHex(text, path) == None
    decreases |text|
  {
    hide Scan;
    if text != "" {
      var n := LineLen(text, '\n', LINE_SIZE - 1);
      ScannedHasNoSpace(text[..n]);
      SpacedNotFound(text[n..], path);
    }
  }

  lemma ScannedHasNoSpace(line: string)
    ensures Scan(line).Some? ==> NoSpace(Scan(line).value.path)
  {
    var a := SkipSpaces(line);
    var b := SkipSpaces(a[WordLen(a, HEX_WIDTH)..]);
    WordHasNoSpace(b, PATH_WIDTH);
  }

  lemma {:induction false} WordHasNoSpace(s: string, width: nat)
    ensures NoSpace(s[..WordLen(s, width)])
    decreases |s|
  {
    if s != "" && width > 0 && !IsSpace(s[0]) {
      WordHasNoSpace(s[1..], width - 1);
      var n := WordLen(s[1..], width - 1);
      assert s[..n + 1] == [s[0]] + s[1..][..n];
    }
  }

  /** The check of one file never finds a path with white space recorded: the file is NEW if it can be read. */
  lemma SpacedIsNew(disk: Disk, db: string, path: string, slot: Slot)
    requires !NoSpace(path)
    ensures FileCheck(disk, Some(db), path, slot).slot.status ==
            if !disk.present(path) then MISSING else if disk.hash(path).None? then ERROR else NEW
  {
    hide FindHex;
    SpacedNotFound(db, path);
  }

  ghost predicate Mentions(fs: seq<Finding>, path: string) {
    exists i :: 0 <= i < |fs| && fs[i].path == path
  }

  lemma {:induction false} FindingsHaveNoSpace(disk: Disk, rs: seq<Record>, path: string)
    requires (forall i | 0 <= i < |rs| :: Clean(rs[i])) && !NoSpace(path)
    ensures !Mentions(Findings(disk, rs), path)
  {
    if rs != [] {
      FindingsHaveNoSpace(disk, rs[1..], path);
      OneFinding(disk, rs[0]);
      MentionsOfSum(Findings(disk, [rs[0]]), Findings(disk, rs[1..]), path);
    }
  }

  lemma MentionsOfSum(a: seq<Finding>, b: seq<Finding>, path: string)
    ensures Mentions(a + b, path) <==> Mentions(a, path) || Mentions(b, path)
  {
    if Mentions(a, path) {
      var i :| 0 <= i < |a| && a[i].path == path;
      assert (a + b)[i].path == path;
    }
    if Mentions(b, path) {
      var i :| 0 <= i < |b| && b[i].path == path;
      assert (a + b)[|a| + i].path == path;
    }
  }

  lemma {:induction false} SinglyMentionsSpaced(disk: Disk, db: string, rs: seq<Record>, k: nat, slot: Slot)
    requires k < |rs| && !NoSpace(rs[k].path)
    ensures Mentions(FoundSingly(disk, db, rs, slot), rs[k].path)
  {
    hide FileCheck, NoSpace;
    var s := FileCheck(disk, Some(db), rs[0].path, slot).slot.status;
    var one := if s == OK then [] else [Finding(rs[0].path, s)];
    if k == 0 {
      SpacedIsNew(disk, db, rs[0].path, slot);
      assert one[0].path == rs[0].path;
    } else {
      assert rs[1..][k - 1] == rs[k];
      SinglyMentionsSpaced(disk, db, rs[1..], k - 1, slot);
    }
    MentionsOfSum(one, FoundSingly(disk, db, rs[1..], slot), rs[k].path);
  }

  /** With enough slots the two checks agree just when no recorded path has white space. */
  lemma ChecksAgreeExactly(disk: Disk, rs: seq<Record>, slots: seq<Slot>, max: nat, slot: Slot)
    requires (forall i | 0 <= i < |rs| :: Printable(rs[i])) && Consistent(rs)
    requires Sized(slots) && |rs| <= max <= |slots| && |slot.expected| == INTEGRITY_HASH_LEN
    ensures var u := Checking(disk, DbText(rs), slots, max);
            && |u.slots| == |slots| && u.count <= max
            && (Shown(u.slots[..u.count]) == FoundSingly(disk, DbText(rs), rs, slot) <==>
                forall i | 0 <= i < |rs| :: NoSpace(rs[i].path))
  {
    hide Checking, FoundSingly, Shown, DbText, Mentions, NoSpace, FileCheck, Findings;
    if forall i | 0 <= i < |rs| :: NoSpace(rs[i].path) {
      ChecksAgree(disk, rs, slots, max, slot);
    } else {
      var k :| 0 <= k < |rs| && !NoSpace(rs[k].path);
      SinglyMentionsSpaced(disk, DbText(rs), rs, k, slot);
      var cs := ReadBack(rs);
      ReadBackIsClean(rs);
      CheckPrinted(disk, rs, slots, max);
      FindingsLength(disk, cs);
      assert Take(Findings(disk, cs), max) == Findings(disk, cs);
      FindingsHaveNoSpace(disk, cs, rs[k].path);
    }
  }

  /** The only record is of a file whose path holds white space, and no file has the name before it: one check
      reports that name MISSING, and the other the file NEW, though it is as recorded. */
  lemma SpacedIsMissing(disk: Disk, r: Record, slot: Slot)
    requires Printable(r) && !NoSpace(r.path) && disk.Sound() && disk.hash(r.path) == Some(r.hash)
    requires !disk.present(FirstWord(r.path)) && |slot.expected| == INTEGRITY_HASH_LEN
    ensures var u := Checking(disk, DbText([r]), [slot], 1);
            |u.slots| == 1 && u.count == 1 && u.mismatches == 1 && Shown(u.slots[..1]) == [Finding(FirstWord(r.path), MISSING)]
    ensures FileCheck(disk, Some(DbText([r])), r.path, slot).slot.status == NEW
  {
    hide Checking, DbText, FileCheck, Printable, NoSpace, FirstWord, Shown, Findings, Tampered;
    SpacedIsNew(disk, DbText([r]), r.path, slot);
    ReadBackAt([r], 0);
    assert ReadBack([r]) == [AsRead(r)];
    CheckPrinted(disk, [r], [slot], 1);
    OneFinding(disk, AsRead(r));
    assert [Finding(FirstWord(r.path), MISSING)][..1] == [Finding(FirstWord(r.path), MISSING)];
  }

  /** Nothing but `/etc/a b` is there. */
  const SPACED := "/etc/a" + ([' '] + "b")
  const SPACED_DISK := Disk(p => p == SPACED, p => if p == SPACED then Some(Hash32(0)) else None)

  lemma SpacedMissing(slot: Slot)
    requires |slot.expected| == INTEGRITY_HASH_LEN
    ensures SPACED_DISK.Sound() && SPACED_DISK.hash(SPACED) == Some(Hash32(0))
    ensures var u := Checking(SPACED_DISK, DbText([Record(Hash32(0), SPACED)]), [slot], 1);
            |u.slots| == 1 && u.count == 1 && u.mismatches == 1 && Shown(u.slots[..1]) == [Finding("/etc/a", MISSING)]
  {
    hide Checking, DbText, FileCheck, Printable, Shown, FirstWord;
    var r := Record(Hash32(0), SPACED);
    SpacedPrints();
    SpacedIsMissing(SPACED_DISK, r, slot);
  }

  lemma SpacedPrints()
    ensures Printable(Record(Hash32(0), SPACED)) && !NoSpace(SPACED) && FirstWord(SPACED) == "/etc/a"
  {
    hide FirstWord;
    FirstWordOf("/etc/a", ' ', "b");
    assert IsSpace(SPACED[6]);
  }
}
