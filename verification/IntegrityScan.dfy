/** crypticengine/src/integrity.c: building the database from the watched directories. */
module IntegrityScan {
  import opened Wrappers
  import opened CText
  import opened IntegrityText
  import opened Integrity
  import opened Seqs

  // ---- Directory trees ----

  /** What lstat says of an entry; `open` tells whether opendir works. A link, a device or an entry that lstat
      does not find is Other. */
  datatype Tree = Dir(open: bool, entries: seq<Entry>) | Regular | Other
  datatype Entry = Entry(name: string, node: Tree)

  predicate Dots(name: string) {
    name == "." || name == ".."
  }

  /** full_path, cut to its buffer. */
  function FullPath(dir: string, name: string): string {
    Truncate(dir + ("/" + name), PATH_WIDTH + 1)
  }

  /** What one entry adds to the database. */
  function EntryRecords(disk: Disk, dir: string, e: Entry): seq<Record>
    decreases e
  {
    if Dots(e.name) then []
    else
      var full := FullPath(dir, e.name);
      match e.node
      case Other => []
      case Regular => (match disk.hash(full) case None => [] case Some(h) => [Record(h, full)])
      case Dir(open, entries) => if open then Records(disk, full, entries) else []
  }

  /** What a scan of the entries of a directory adds. */
  function Records(disk: Disk, dir: string, es: seq<Entry>): seq<Record>
    decreases es
  {
    if es == [] then [] else EntryRecords(disk, dir, es[0]) + Records(disk, dir, es[1..])
  }

  // ---- The scan ----

  /** The FILE the database is written to, and the count of files. */
  class Database {
    var text: string
    var count: nat

    constructor ()
      ensures text == "" && count == 0
    {
      text, count := "", 0;
    }

    method Print(s: string)
      modifies `text
      ensures text == old(text) + s
    {
      text := text + s;
    }
  }

  /** hash_and_store: 0, or -1 when the file cannot be read. */
  method HashAndStore(d: Database, disk: Disk, path: string) returns (ret: int)
    modifies d`text
    ensures ret == if disk.hash(path).Some? then 0 else -1
    ensures d.text == old(d.text) + if ret == 0 then LineOf(Record(disk.hash(path).value, path)) else ""
  {
    var hash := disk.hash(path);
    if hash.None? {
      return -1;
    }
    d.Print(Hex(hash.value) + ("  " + (path + "\n")));
    ret := 0;
  }

  /** scan_directory_recursive: every record goes into the database and is counted. */
  method ScanDirectory(d: Database, disk: Disk, dir: string, node: Tree) returns (ret: int)
    requires node.Dir?
    modifies d
    ensures ret == if node.open then 0 else -1
    ensures var rs := if node.open then Records(disk, dir, node.entries) else [];
            d.text == old(d.text) + Body(rs) && d.count == old(d.count) + |rs|
    decreases node
  {
    hide Records, Body;
    if !node.open {
      NoRecords(disk, dir, d.text);
      return -1;
    }
    var es := node.entries;
    ghost var text, count := d.text + Body(Records(disk, dir, es)), d.count + |Records(disk, dir, es)|;
    var i := 0;
    assert es[0..] == es;
    while i < |es|
      invariant 0 <= i <= |es|
      invariant d.text + Body(Records(disk, dir, es[i..])) == text
      invariant d.count + |Records(disk, dir, es[i..])| == count
    {
      RecordsStep(disk, dir, es, i, d.text);
      ScanEntry(d, disk, dir, es[i]);
      i := i + 1;
    }
    assert es[i..] == [];
    NoRecords(disk, dir, d.text);
    ret := 0;
  }

  lemma NoRecords(disk: Disk, dir: string, text: string)
    ensures Records(disk, dir, []) == [] && text + Body([]) == text
  {
  }

  lemma RecordsStep(disk: Disk, dir: string, es: seq<Entry>, i: nat, text: string)
    requires i < |es|
    ensures var rs, more := EntryRecords(disk, dir, es[i]), Records(disk, dir, es[i + 1..]);
            && |Records(disk, dir, es[i..])| == |rs| + |more|
            && text + Body(Records(disk, dir, es[i..])) == (text + Body(rs)) + Body(more)
  {
    hide Body, EntryRecords;
    var rs, more := EntryRecords(disk, dir, es[i]), Records(disk, dir, es[i + 1..]);
    assert es[i..][0] == es[i] && es[i..][1..] == es[i + 1..];
    BodyAppend(rs, more);
    Assoc(text, Body(rs), Body(more));
  }

  /** One turn of the loop over the entries. */
  method ScanEntry(d: Database, disk: Disk, dir: string, e: Entry)
    modifies d
    ensures d.text == old(d.text) + Body(EntryRecords(disk, dir, e))
    ensures d.count == old(d.count) + |EntryRecords(disk, dir, e)|
    decreases e
  {
    if Dots(e.name) {
      return;
    }
    var full := FullPath(dir, e.name);
    if e.node.Dir? {
      var _ := ScanDirectory(d, disk, full, e.node);
    } else if e.node.Regular? {
      var stored := HashAndStore(d, disk, full);
      if stored == 0 {
        d.count := d.count + 1;
      }
      assert stored == 0 ==> Body([Record(disk.hash(full).value, full)]) == LineOf(Record(disk.hash(full).value, full));
    }
  }

  const WATCHED := ["/bin", "/sbin", "/usr/bin", "/usr/sbin", "/etc", "/boot"]

  /** What opendir gives for each watched directory. */
  ghost predicate Roots(trees: seq<Tree>) {
    |trees| == |WATCHED| && forall i | 0 <= i < |trees| :: trees[i].Dir?
  }

  function RootRecords(disk: Disk, dir: string, node: Tree): seq<Record> {
    if node.Dir? && node.open then Records(disk, dir, node.entries) else []
  }

  function AllRecords(disk: Disk, dirs: seq<string>, trees: seq<Tree>): seq<Record>
    requires |dirs| == |trees|
  {
    if dirs == [] then [] else RootRecords(disk, dirs[0], trees[0]) + AllRecords(disk, dirs[1..], trees[1..])
  }

  /** integrity_init_database, when the file can be created: the comments and every record. */
  method InitDatabase(disk: Disk, trees: seq<Tree>) returns (db: Database)
    requires Roots(trees)
    ensures db.text == DbText(AllRecords(disk, WATCHED, trees))
    ensures db.count == |AllRecords(disk, WATCHED, trees)|
  {
    hide AllRecords, Body;
    db := new Database();
    db.Print("# SecureZ+ Integrity Database\n");
    db.Print("# Format: blake2b_hash  filepath\n");
    ghost var all := AllRecords(disk, WATCHED, trees);
    var i := 0;
    assert WATCHED[0..] == WATCHED && trees[0..] == trees;
    while i < |WATCHED|
      invariant 0 <= i <= |WATCHED|
      invariant db.text + Body(AllRecords(disk, WATCHED[i..], trees[i..])) == COMMENTS + Body(all)
      invariant db.count + |AllRecords(disk, WATCHED[i..], trees[i..])| == |all|
    {
      AllStep(disk, WATCHED, trees, i, db.text);
      var _ := ScanDirectory(db, disk, WATCHED[i], trees[i]);
      i := i + 1;
    }
    AllDone(disk, WATCHED[i..], trees[i..], db.text);
  }

  lemma AllDone(disk: Disk, dirs: seq<string>, trees: seq<Tree>, text: string)
    requires |dirs| == |trees| == 0
    ensures AllRecords(disk, dirs, trees) == [] && text + Body([]) == text
  {
  }

  lemma AllStep(disk: Disk, dirs: seq<string>, trees: seq<Tree>, i: nat, text: string)
    requires |dirs| == |trees| && i < |dirs|
    ensures var rs, more := RootRecords(disk, dirs[i], trees[i]), AllRecords(disk, dirs[i + 1..], trees[i + 1..]);
            && |AllRecords(disk, dirs[i..], trees[i..])| == |rs| + |more|
            && text + Body(AllRecords(disk, dirs[i..], trees[i..])) == (text + Body(rs)) + Body(more)
  {
    hide Body, RootRecords;
    var rs, more := RootRecords(disk, dirs[i], trees[i]), AllRecords(disk, dirs[i + 1..], trees[i + 1..]);
    assert dirs[i..][0] == dirs[i] && dirs[i..][1..] == dirs[i + 1..];
    assert trees[i..][0] == trees[i] && trees[i..][1..] == trees[i + 1..];
    BodyAppend(rs, more);
    Assoc(text, Body(rs), Body(more));
  }

  // ---- Names ----

  predicate NoSlash(s: string) {
    forall i | 0 <= i < |s| :: s[i] != '/'
  }

  /** Names as a directory has them, and full paths that fit their buffer. */
  ghost predicate Plain(dir: string, es: seq<Entry>)
    decreases es
  {
    es != [] ==> PlainEntry(dir, es[0]) && Plain(dir, es[1..]) && forall i | 0 < i < |es| :: es[i].name != es[0].name
  }

  ghost predicate PlainEntry(dir: string, e: Entry)
    decreases e
  {
    && e.name != "" && NoSlash(e.name) && |dir| + 1 + |e.name| <= PATH_WIDTH
    && (e.node.Dir? ==> Plain(dir + ("/" + e.name), e.node.entries))
  }

  /** The regular files below a directory, by their paths. */
  predicate Contains(dir: string, es: seq<Entry>, p: string)
    decreases es
  {
    es != [] && (EntryContains(dir, es[0], p) || Contains(dir, es[1..], p))
  }

  predicate EntryContains(dir: string, e: Entry, p: string)
    decreases e
  {
    && e.name != "." && e.name != ".."
    && match e.node
       case Other => false
       case Regular => p == dir + ("/" + e.name)
       case Dir(open, entries) => open && Contains(dir + ("/" + e.name), entries, p)
  }

  ghost predicate Recorded(rs: seq<Record>, p: string) {
    exists i :: 0 <= i < |rs| && rs[i].path == p
  }

  lemma RecordedOfSum(a: seq<Record>, b: seq<Record>, p: string)
    ensures Recorded(a + b, p) <==> Recorded(a, p) || Recorded(b, p)
  {
    if Recorded(a, p) {
      var i :| 0 <= i < |a| && a[i].path == p;
      assert (a + b)[i].path == p;
    }
    if Recorded(b, p) {
      var i :| 0 <= i < |b| && b[i].path == p;
      assert (a + b)[|a| + i].path == p;
    }
  }

  /** A path is recorded just when it is that of a regular file below the directory that can be read. */
  lemma {:induction false} RecordedIsContained(disk: Disk, dir: string, es: seq<Entry>, p: string)
    requires Plain(dir, es)
    ensures Recorded(Records(disk, dir, es), p) <==> Contains(dir, es, p) && disk.hash(p).Some?
    decreases es
  {
    if es != [] {
      EntryRecordedIsContained(disk, dir, es[0], p);
      RecordedIsContained(disk, dir, es[1..], p);
      RecordedOfSum(EntryRecords(disk, dir, es[0]), Records(disk, dir, es[1..]), p);
    }
  }

  lemma {:induction false} EntryRecordedIsContained(disk: Disk, dir: string, e: Entry, p: string)
    requires PlainEntry(dir, e)
    ensures Recorded(EntryRecords(disk, dir, e), p) <==> EntryContains(dir, e, p) && disk.hash(p).Some?
    decreases e
  {
    var full := dir + ("/" + e.name);
    assert FullPath(dir, e.name) == full;
    match e.node
    case Other =>
    case Regular =>
      if disk.hash(full).Some? && !Dots(e.name) {
        assert EntryRecords(disk, dir, e)[0].path == full;
      }
    case Dir(open, entries) =>
      RecordedIsContained(disk, full, entries, p);
  }

  // ---- Every record once ----

  /** The characters up to the next slash. */
  function Segment(s: string): string {
    if s == "" || s[0] == '/' then "" else [s[0]] + Segment(s[1..])
  }

  lemma {:induction false} SegmentIs(a: string, b: string)
    requires NoSlash(a) && (b == "" || b[0] == '/')
    ensures Segment(a + b) == a
  {
    if a == "" {
      assert a + b == b;
    } else {
      assert (a + b)[1..] == a[1..] + b;
      SegmentIs(a[1..], b);
    }
  }

  /** The path goes through the entry `name` of the directory. */
  predicate Under(dir: string, name: string, p: string) {
    |p| > |dir| && p[..|dir|] == dir && p[|dir|] == '/' && Segment(p[|dir| + 1..]) == name
  }

  lemma UnderIs(dir: string, name: string, p: string, b: string)
    requires NoSlash(name) && (b == "" || b[0] == '/') && p == dir + ("/" + name) + b
    ensures Under(dir, name, p)
  {
    SegmentIs(name, b);
    assert p[|dir| + 1..] == name + b;
  }

  /** What an entry adds lies under it. */
  lemma {:induction false} EntryUnder(disk: Disk, dir: string, e: Entry, k: nat)
    requires PlainEntry(dir, e) && k < |EntryRecords(disk, dir, e)|
    ensures Under(dir, e.name, EntryRecords(disk, dir, e)[k].path)
    decreases e
  {
    var full := dir + ("/" + e.name);
    assert FullPath(dir, e.name) == full;
    var p := EntryRecords(disk, dir, e)[k].path;
    if e.node.Regular? {
      assert p == full + "";
      UnderIs(dir, e.name, p, "");
    } else if e.node.Dir? {
      var _ := RecordsUnder(disk, full, e.node.entries, k);
      assert p[..|full|] == full && p[|full|] == '/';
      assert p == full + p[|full|..];
      UnderIs(dir, e.name, p, p[|full|..]);
    }
  }

  /** What a directory adds lies under one of its entries, which is returned. */
  lemma {:induction false} RecordsUnder(disk: Disk, dir: string, es: seq<Entry>, k: nat) returns (i: nat)
    requires Plain(dir, es) && k < |Records(disk, dir, es)|
    ensures i < |es| && Under(dir, es[i].name, Records(disk, dir, es)[k].path)
    decreases es
  {
    var n := |EntryRecords(disk, dir, es[0])|;
    if k < n {
      EntryUnder(disk, dir, es[0], k);
      i := 0;
    } else {
      i := RecordsUnder(disk, dir, es[1..], k - n);
      i := i + 1;
    }
  }

  ghost predicate Distinct(rs: seq<Record>) {
    forall i, j | 0 <= i < j < |rs| :: rs[i].path != rs[j].path
  }

  lemma DistinctOfSum(a: seq<Record>, b: seq<Record>)
    requires Distinct(a) && Distinct(b)
    requires forall i, j | 0 <= i < |a| && 0 <= j < |b| :: a[i].path != b[j].path
    ensures Distinct(a + b)
  {
  }

  /** No path is recorded twice. */
  lemma {:induction false} RecordsDistinct(disk: Disk, dir: string, es: seq<Entry>)
    requires Plain(dir, es)
    ensures Distinct(Records(disk, dir, es))
    decreases es
  {
    if es != [] {
      var a, b := EntryRecords(disk, dir, es[0]), Records(disk, dir, es[1..]);
      EntryDistinct(disk, dir, es[0]);
      RecordsDistinct(disk, dir, es[1..]);
      forall i, j | 0 <= i < |a| && 0 <= j < |b| ensures a[i].path != b[j].path {
        EntryUnder(disk, dir, es[0], i);
        var k := RecordsUnder(disk, dir, es[1..], j);
        assert es[1..][k].name == es[k + 1].name != es[0].name;
      }
      DistinctOfSum(a, b);
    }
  }

  lemma {:induction false} EntryDistinct(disk: Disk, dir: string, e: Entry)
    requires PlainEntry(dir, e)
    ensures Distinct(EntryRecords(disk, dir, e))
    decreases e
  {
    assert FullPath(dir, e.name) == dir + ("/" + e.name);
    if e.node.Dir? {
      RecordsDistinct(disk, dir + ("/" + e.name), e.node.entries);
    }
  }

  /** Names that are cut to the same path are recorded under it twice. */
  lemma CutNamesCollide(disk: Disk, dir: string, a: string, b: string)
    requires !Dots(a) && !Dots(b) && FullPath(dir, a) == FullPath(dir, b) && disk.hash(FullPath(dir, a)).Some?
    ensures !Distinct(Records(disk, dir, [Entry(a, Regular), Entry(b, Regular)]))
  {
    var es := [Entry(a, Regular), Entry(b, Regular)];
    assert es[1..] == [es[1]] && [es[1]][1..] == [];
    var rs := Records(disk, dir, es);
    assert Records(disk, dir, es[1..]) == EntryRecords(disk, dir, es[1]) + Records(disk, dir, []);
    assert rs == EntryRecords(disk, dir, es[0]) + Records(disk, dir, es[1..]);
    assert rs[0].path == rs[1].path;
  }

  // ---- Every record current ----

  predicate Absolute(path: string) {
    path != "" && path[0] == '/'
  }

  /** The record of a file as it is on the disk now. */
  ghost predicate Current(disk: Disk, r: Record) {
    && |r.hash| == INTEGRITY_HASH_LEN && |r.path| <= PATH_WIDTH && Absolute(r.path)
    && disk.hash(r.path) == Some(r.hash)
  }

  lemma {:induction false} RecordsCurrent(disk: Disk, dir: string, es: seq<Entry>, k: nat)
    requires disk.Sound() && Absolute(dir) && k < |Records(disk, dir, es)|
    ensures Current(disk, Records(disk, dir, es)[k])
    decreases es
  {
    var n := |EntryRecords(disk, dir, es[0])|;
    if k < n {
      EntryCurrent(disk, dir, es[0], k);
    } else {
      RecordsCurrent(disk, dir, es[1..], k - n);
    }
  }

  lemma {:induction false} EntryCurrent(disk: Disk, dir: string, e: Entry, k: nat)
    requires disk.Sound() && Absolute(dir) && k < |EntryRecords(disk, dir, e)|
    ensures Current(disk, EntryRecords(disk, dir, e)[k])
    decreases e
  {
    var full := FullPath(dir, e.name);
    assert Absolute(full);
    if e.node.Dir? {
      RecordsCurrent(disk, full, e.node.entries, k);
    }
  }

  // ---- The watched directories ----

  predicate DifferAt(a: string, b: string, k: nat) {
    k < |a| && k < |b| && a[k] != b[k]
  }

  /** Two strings that differ before either ends, so that nothing begins with both. */
  ghost predicate Apart(a: string, b: string) {
    exists k: nat :: DifferAt(a, b, k)
  }

  lemma ApartMeans(a: string, b: string, p: string, q: string)
    requires Apart(a, b) && |a| <= |p| && |b| <= |q| && p[..|a|] == a && q[..|b|] == b
    ensures p != q
  {
    var k: nat :| DifferAt(a, b, k);
    assert p[..|a|][k] != q[..|b|][k];
  }

  ghost predicate AllApart(dirs: seq<string>) {
    && (forall i | 0 <= i < |dirs| :: Absolute(dirs[i]))
    && (forall i, j | 0 <= i < j < |dirs| :: Apart(dirs[i] + "/", dirs[j] + "/"))
  }

  ghost predicate PlainRoots(dirs: seq<string>, trees: seq<Tree>) {
    |dirs| == |trees| && forall i | 0 <= i < |trees| :: trees[i].Dir? && trees[i].open ==> Plain(dirs[i], trees[i].entries)
  }

  /** A readable regular file below one of the directories. */
  ghost predicate Watched(disk: Disk, dirs: seq<string>, trees: seq<Tree>, p: string)
    requires |dirs| == |trees|
  {
    && disk.hash(p).Some?
    && exists i :: 0 <= i < |dirs| && trees[i].Dir? && trees[i].open && Contains(dirs[i], trees[i].entries, p)
  }

  lemma RootUnder(disk: Disk, dir: string, node: Tree, k: nat)
    requires (node.Dir? && node.open ==> Plain(dir, node.entries)) && k < |RootRecords(disk, dir, node)|
    ensures var p := RootRecords(disk, dir, node)[k].path;
            |p| > |dir| && p[..|dir| + 1] == dir + "/"
  {
    var i := RecordsUnder(disk, dir, node.entries, k);
    var p := Records(disk, dir, node.entries)[k].path;
    assert p[..|dir| + 1] == p[..|dir|] + [p[|dir|]];
  }

  /** Every record comes from one of the directories. */
  lemma {:induction false} AllUnder(disk: Disk, dirs: seq<string>, trees: seq<Tree>, k: nat) returns (i: nat)
    requires PlainRoots(dirs, trees) && k < |AllRecords(disk, dirs, trees)|
    ensures i < |dirs|
    ensures var p := AllRecords(disk, dirs, trees)[k].path;
            |p| > |dirs[i]| && p[..|dirs[i]| + 1] == dirs[i] + "/"
  {
    var n := |RootRecords(disk, dirs[0], trees[0])|;
    if k < n {
      RootUnder(disk, dirs[0], trees[0], k);
      i := 0;
    } else {
      i := AllUnder(disk, dirs[1..], trees[1..], k - n);
      i := i + 1;
    }
  }

  lemma {:induction false} AllDistinct(disk: Disk, dirs: seq<string>, trees: seq<Tree>)
    requires PlainRoots(dirs, trees) && AllApart(dirs)
    ensures Distinct(AllRecords(disk, dirs, trees))
  {
    if dirs != [] {
      var a, b := RootRecords(disk, dirs[0], trees[0]), AllRecords(disk, dirs[1..], trees[1..]);
      if trees[0].Dir? && trees[0].open {
        RecordsDistinct(disk, dirs[0], trees[0].entries);
      }
      AllDistinct(disk, dirs[1..], trees[1..]);
      forall i, j | 0 <= i < |a| && 0 <= j < |b| ensures a[i].path != b[j].path {
        RootUnder(disk, dirs[0], trees[0], i);
        var k := AllUnder(disk, dirs[1..], trees[1..], j);
        assert dirs[1..][k] == dirs[k + 1];
        ApartMeans(dirs[0] + "/", dirs[k + 1] + "/", a[i].path, b[j].path);
      }
      DistinctOfSum(a, b);
    }
  }

  lemma {:induction false} AllCurrent(disk: Disk, dirs: seq<string>, trees: seq<Tree>, k: nat)
    requires disk.Sound() && |dirs| == |trees| && AllApart(dirs) && k < |AllRecords(disk, dirs, trees)|
    ensures Current(disk, AllRecords(disk, dirs, trees)[k])
  {
    var n := |RootRecords(disk, dirs[0], trees[0])|;
    if k < n {
      RecordsCurrent(disk, dirs[0], trees[0].entries, k);
    } else {
      AllCurrent(disk, dirs[1..], trees[1..], k - n);
    }
  }

  lemma {:induction false} AllRecorded(disk: Disk, dirs: seq<string>, trees: seq<Tree>, p: string)
    requires PlainRoots(dirs, trees)
    ensures Recorded(AllRecords(disk, dirs, trees), p) <==> Watched(disk, dirs, trees, p)
  {
    if dirs != [] {
      var root := RootRecords(disk, dirs[0], trees[0]);
      RootRecorded(disk, dirs[0], trees[0], p);
      AllRecorded(disk, dirs[1..], trees[1..], p);
      RecordedOfSum(root, AllRecords(disk, dirs[1..], trees[1..]), p);
      WatchedStep(disk, dirs, trees, p);
    }
  }

  lemma RootRecorded(disk: Disk, dir: string, node: Tree, p: string)
    requires node.Dir? && node.open ==> Plain(dir, node.entries)
    ensures Recorded(RootRecords(disk, dir, node), p) <==>
            node.Dir? && node.open && Contains(dir, node.entries, p) && disk.hash(p).Some?
  {
    if node.Dir? && node.open {
      RecordedIsContained(disk, dir, node.entries, p);
    }
  }

  lemma WatchedStep(disk: Disk, dirs: seq<string>, trees: seq<Tree>, p: string)
    requires |dirs| == |trees| && dirs != []
    ensures Watched(disk, dirs, trees, p) <==>
            Watched(disk, dirs[1..], trees[1..], p)
            || (disk.hash(p).Some? && trees[0].Dir? && trees[0].open && Contains(dirs[0], trees[0].entries, p))
  {
    if Watched(disk, dirs[1..], trees[1..], p) {
      var i :| 0 <= i < |dirs[1..]| && trees[1..][i].Dir? && trees[1..][i].open
               && Contains(dirs[1..][i], trees[1..][i].entries, p);
      assert trees[i + 1] == trees[1..][i] && dirs[i + 1] == dirs[1..][i];
    }
    if Watched(disk, dirs, trees, p) {
      var i :| 0 <= i < |dirs| && trees[i].Dir? && trees[i].open && Contains(dirs[i], trees[i].entries, p);
      assert i > 0 ==> trees[i] == trees[1..][i - 1] && dirs[i] == dirs[1..][i - 1];
    }
  }

  lemma WatchedApart()
    ensures AllApart(WATCHED)
  {
    forall i, j | 0 <= i < j < |WATCHED| ensures Apart(WATCHED[i] + "/", WATCHED[j] + "/") {
      var k := if i == 0 && j == 5 then 2 else if i == 2 && j == 3 then 5 else 1;
      assert DifferAt(WATCHED[i] + "/", WATCHED[j] + "/", k);
    }
  }

  /** The database records every readable regular file below the watched directories, nothing else, and each
      of them once, with its hash. */
  lemma DatabaseIsExact(disk: Disk, trees: seq<Tree>)
    requires disk.Sound() && Roots(trees) && PlainRoots(WATCHED, trees)
    ensures var rs := AllRecords(disk, WATCHED, trees);
            && Distinct(rs)
            && (forall i | 0 <= i < |rs| :: Current(disk, rs[i]))
            && (forall p :: Recorded(rs, p) <==> Watched(disk, WATCHED, trees, p))
  {
    WatchedApart();
    var rs := AllRecords(disk, WATCHED, trees);
    AllDistinct(disk, WATCHED, trees);
    forall i | 0 <= i < |rs| ensures Current(disk, rs[i]) {
      AllCurrent(disk, WATCHED, trees, i);
    }
    forall p ensures Recorded(rs, p) <==> Watched(disk, WATCHED, trees, p) {
      AllRecorded(disk, WATCHED, trees, p);
    }
  }

  // ---- Checking a built database ----

  /** No recorded path holds a newline, which would end its line in the database. */
  ghost predicate OneLined(rs: seq<Record>) {
    forall i | 0 <= i < |rs| :: '\n' !in rs[i].path
  }

  /** No recorded path holds white space. */
  ghost predicate Spaceless(rs: seq<Record>) {
    forall i | 0 <= i < |rs| :: NoSpace(rs[i].path)
  }

  lemma WordsOfSpaceless(rs: seq<Record>)
    requires Spaceless(rs)
    ensures OneLined(rs) && forall i | 0 <= i < |rs| :: FirstWord(rs[i].path) == rs[i].path
  {
    forall i | 0 <= i < |rs| ensures '\n' !in rs[i].path && FirstWord(rs[i].path) == rs[i].path {
      FirstWordIs(rs[i].path);
    }
  }

  /** The records of a built database are printable, if no path holds a newline, and current. */
  lemma BuiltRecords(disk: Disk, trees: seq<Tree>) returns (rs: seq<Record>)
    requires disk.Sound() && Roots(trees) && OneLined(AllRecords(disk, WATCHED, trees))
    ensures rs == AllRecords(disk, WATCHED, trees) && Consistent(rs)
    ensures forall i | 0 <= i < |rs| :: Printable(rs[i]) && disk.hash(rs[i].path) == Some(rs[i].hash)
  {
    hide AllRecords;
    WatchedApart();
    rs := AllRecords(disk, WATCHED, trees);
    forall i | 0 <= i < |rs| ensures Printable(rs[i]) && disk.hash(rs[i].path) == Some(rs[i].hash) {
      AllCurrent(disk, WATCHED, trees, i);
    }
  }

  /** The check after building is silent just when it has no slot, or what stands in every recorded path before
      its first white space names a file with the recorded hash. */
  lemma BuiltIsSilent(disk: Disk, trees: seq<Tree>, slots: seq<Slot>, max: nat)
    requires disk.Sound() && Roots(trees) && OneLined(AllRecords(disk, WATCHED, trees))
    requires Sized(slots) && max <= |slots|
    ensures var rs := AllRecords(disk, WATCHED, trees);
            var u := Checking(disk, DbText(rs), slots, max);
            u.count == 0 && u.mismatches == 0 <==>
            max == 0 || forall i | 0 <= i < |rs| :: disk.hash(FirstWord(rs[i].path)) == Some(rs[i].hash)
  {
    hide Checking, DbText, AllRecords, Printable, FirstWord;
    var rs := BuiltRecords(disk, trees);
    SilentExactly(disk, rs, slots, max);
    forall i | 0 <= i < |rs|
      ensures Judge(disk, AsRead(rs[i])) == OK <==> disk.hash(FirstWord(rs[i].path)) == Some(rs[i].hash)
    {
      JudgedOk(disk, AsRead(rs[i]));
    }
  }

  lemma JudgedOk(disk: Disk, r: Record)
    requires disk.Sound()
    ensures Judge(disk, r) == OK <==> disk.hash(r.path) == Some(r.hash)
  {
  }

  /** So it is silent when no recorded path holds white space. */
  lemma UnchangedIsSilent(disk: Disk, trees: seq<Tree>, slots: seq<Slot>, max: nat)
    requires disk.Sound() && Roots(trees) && Sized(slots) && max <= |slots|
    requires Spaceless(AllRecords(disk, WATCHED, trees))
    ensures var u := Checking(disk, DbText(AllRecords(disk, WATCHED, trees)), slots, max);
            u.count == 0 && u.mismatches == 0
  {
    hide Checking, DbText, AllRecords, FirstWord;
    WordsOfSpaceless(AllRecords(disk, WATCHED, trees));
    var _ := BuiltRecords(disk, trees);
    BuiltIsSilent(disk, trees, slots, max);
  }

  /** After any change to the disk the two checks agree on a built database just when no recorded path holds
      white space. */
  lemma BuiltChecksAgree(disk: Disk, later: Disk, trees: seq<Tree>, slots: seq<Slot>, max: nat, slot: Slot)
    requires disk.Sound() && Roots(trees) && OneLined(AllRecords(disk, WATCHED, trees)) && Sized(slots)
    requires |AllRecords(disk, WATCHED, trees)| <= max <= |slots| && |slot.expected| == INTEGRITY_HASH_LEN
    ensures var rs := AllRecords(disk, WATCHED, trees);
            var u := Checking(later, DbText(rs), slots, max);
            && |u.slots| == |slots| && u.count <= max
            && (Shown(u.slots[..u.count]) == FoundSingly(later, DbText(rs), rs, slot) <==>
                Spaceless(rs))
  {
    hide Checking, DbText, FoundSingly, Shown, AllRecords, Printable, NoSpace;
    var rs := BuiltRecords(disk, trees);
    ChecksAgreeExactly(later, rs, slots, max, slot);
  }
}
