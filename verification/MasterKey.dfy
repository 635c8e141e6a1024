/** crypticengine/src/key_storage.c: the master key's hash file, and the emergency wipe. */
module MasterKey {
  import opened Bytes
  import opened CText
  import opened Crypto
  import opened Host
  import opened KeyStore
  import opened KeyStoreCalls
  import opened Seqs
  import opened Wrappers

  const MASTER_PATH := "/etc/securez/master.key"
  const PWHASH_STRBYTES: nat := 128
  const MASTER_MIN: nat := 16
  const NEWLINE: byte := 10

  /** crypto_pwhash_str, with the salt it draws, and crypto_pwhash_str_verify. */
  datatype Hasher = Hasher(hash: (string, Bytestring) -> Bytestring, verify: (Bytestring, string) -> bool)
  {
    /** Hash strings are C strings of one line that fit their buffer, and verify what was hashed. */
    ghost predicate Lawful() {
      forall pw, salt :: verify(hash(pw, salt), pw) && |hash(pw, salt)| < PWHASH_STRBYTES
        && NulFree(hash(pw, salt)) && OneLine(hash(pw, salt))
    }
  }

  predicate OneLine(bs: Bytestring) {
    NEWLINE !in bs
  }

  /** The line that fgets takes into a buffer with room for `room` bytes. */
  function Line(bs: Bytestring, room: nat): Bytestring {
    bs[..LineLen(bs, NEWLINE, room)]
  }

  /** The hash string as it is read from the content of the file. */
  function StoredHash(content: Bytestring): Bytestring {
    StripLast(CStr(Line(content, PWHASH_STRBYTES - 1), 0), NEWLINE)
  }

  /** The master key that the files hold accepts the password. */
  predicate Accepts(h: Hasher, files: map<string, Bytestring>, pw: string) {
    && MASTER_PATH in files && files[MASTER_PATH] != []
    && h.verify(StoredHash(files[MASTER_PATH]), pw)
  }

  /** keystore_master_verify. */
  method Verify(m: Machine, h: Hasher, pw: string, opens: bool) returns (ok: bool)
    ensures ok <==> opens && Accepts(h, m.files, pw)
  {
    if !opens || MASTER_PATH !in m.files || m.files[MASTER_PATH] == [] {
      return false;
    }
    var stored := CStr(Line(m.files[MASTER_PATH], PWHASH_STRBYTES - 1), 0);
    var len := |stored|;
    if len > 0 && stored[len - 1] == NEWLINE {
      stored := stored[..len - 1];
    }
    ok := h.verify(stored, pw);
  }

  /** `written` is how many bytes reach the disk, which nothing checks. */
  datatype SetupCalls = SetupCalls(hashed: bool, create: bool, written: nat)

  /** keystore_master_setup. */
  method Setup(m: Machine, h: Hasher, pw: string, salt: Bytestring, calls: SetupCalls) returns (ok: bool)
    modifies m`files
    ensures ok <==> |pw| >= MASTER_MIN && MASTER_PATH !in old(m.files) && calls.hashed && calls.create
    ensures m.files == if ok then old(m.files)[MASTER_PATH := Take(h.hash(pw, salt) + [NEWLINE], calls.written)]
                       else old(m.files)
  {
    if |pw| < MASTER_MIN || MASTER_PATH in m.files || !calls.hashed || !calls.create {
      return false;
    }
    m.WriteFile(MASTER_PATH, Take(h.hash(pw, salt) + [NEWLINE], calls.written));
    ok := true;
  }

  /** keystore_master_change. A change that fails after the old hash is removed leaves no master key; if it is not
      removed, the change fails and the old one stays. */
  method Change(m: Machine, h: Hasher, oldPw: string, newPw: string, salt: Bytestring, opens: bool, unlinks: bool,
                calls: SetupCalls)
    returns (ok: bool)
    modifies m`files
    ensures ok ==> m.files == old(m.files)[MASTER_PATH := Take(h.hash(newPw, salt) + [NEWLINE], calls.written)]
    ensures var removes := opens && Accepts(h, old(m.files), oldPw) && |newPw| >= MASTER_MIN && unlinks;
            && (ok <==> removes && calls.hashed && calls.create)
            && (!ok ==> m.files == if removes then old(m.files) - {MASTER_PATH} else old(m.files))
  {
    var verified := Verify(m, h, oldPw, opens);
    if !verified || |newPw| < MASTER_MIN {
      return false;
    }
    ghost var before := m.files;
    if unlinks {
      m.Unlink(MASTER_PATH);
    }
    ok := Setup(m, h, newPw, salt, calls);
    assert ok ==> m.files == before[MASTER_PATH := Take(h.hash(newPw, salt) + [NEWLINE], calls.written)];
  }

  lemma StoredOfHash(bs: Bytestring)
    requires OneLine(bs) && NulFree(bs) && |bs| < PWHASH_STRBYTES
    ensures StoredHash(bs + [NEWLINE]) == bs
  {
    var line := Line(bs + [NEWLINE], PWHASH_STRBYTES - 1);
    PlusNothing([NEWLINE]);
    LineLenIs(bs, NEWLINE, [], PWHASH_STRBYTES - 1);
    assert line == if |bs| < PWHASH_STRBYTES - 1 then bs + [NEWLINE] else bs;
    CStrWhole(line, 0);
    Split(bs, [NEWLINE]);
  }

  /** After a set-up or a change that wrote its line, the file accepts exactly what the hash accepts: the
      password itself, and others only if the hash does. */
  lemma SetUpAccepts(h: Hasher, files: map<string, Bytestring>, pw: string, salt: Bytestring, written: nat, tried: string)
    requires h.Lawful() && written > |h.hash(pw, salt)|
    ensures var after := files[MASTER_PATH := Take(h.hash(pw, salt) + [NEWLINE], written)];
            Accepts(h, after, pw) && (Accepts(h, after, tried) <==> h.verify(h.hash(pw, salt), tried))
  {
    var bs := h.hash(pw, salt);
    StoredOfHash(bs);
    hide StoredHash;
    assert Take(bs + [NEWLINE], written) == bs + [NEWLINE];
  }

  /** A missing or empty file accepts nothing; what a short write left of a hash is taken for the hash. */
  lemma OddHashFiles(h: Hasher, files: map<string, Bytestring>, part: Bytestring, pw: string)
    ensures MASTER_PATH !in files || files[MASTER_PATH] == [] ==> !Accepts(h, files, pw)
    ensures part != [] && OneLine(part) && NulFree(part) && |part| < PWHASH_STRBYTES ==>
              (Accepts(h, files[MASTER_PATH := part], pw) <==> h.verify(part, pw))
  {
    if part != [] && OneLine(part) && NulFree(part) && |part| < PWHASH_STRBYTES {
      PartialLine(part);
      hide StoredHash;
    }
  }

  lemma PartialLine(part: Bytestring)
    requires OneLine(part) && NulFree(part) && |part| < PWHASH_STRBYTES
    ensures StoredHash(part) == part
  {
    LineLenNone(part, NEWLINE, [], PWHASH_STRBYTES - 1);
    PlusNothing(part);
    CStrWhole(part, 0);
  }

  // ---- The emergency wipe ----

  /** The outcomes of the wipe's calls; `noise` and `masterNoise` are the random bytes. */
  datatype WipeCalls = WipeCalls(opens: bool, buffer: bool, noise: Bytestring, unlinks: bool,
                                 masterOpens: bool, masterNoise: Bytestring, masterUnlinks: bool)

  /** A file after bytes are written over its front, and then perhaps removed. */
  function Erased(files: map<string, Bytestring>, path: string, noise: Bytestring, writes: bool, unlinks: bool)
    : map<string, Bytestring>
    requires path in files
  {
    if unlinks then files - {path}
    else if writes then files[path := noise + Drop(files[path], |noise|)]
    else files
  }

  /** The files after the wipe: an empty keystore is left alone. */
  function Wiped(files: map<string, Bytestring>, calls: WipeCalls): map<string, Bytestring> {
    var kept :=
      if KEYSTORE_PATH in files && files[KEYSTORE_PATH] != [] then
        Erased(files, KEYSTORE_PATH, calls.noise, calls.opens && calls.buffer, calls.unlinks)
      else files;
    if MASTER_PATH in kept then Erased(kept, MASTER_PATH, calls.masterNoise, calls.masterOpens, calls.masterUnlinks) else kept
  }

  method Erase(m: Machine, path: string, noise: Bytestring, writes: bool, unlinks: bool)
    requires path in m.files
    modifies m`files
    ensures m.files == Erased(old(m.files), path, noise, writes, unlinks)
  {
    ghost var files := m.files;
    if writes {
      m.WriteFile(path, noise + Drop(m.files[path], |noise|));
    }
    if unlinks {
      m.Unlink(path);
      assert m.files == files - {path};
    }
  }

  /** keystore_emergency_wipe. */
  method EmergencyWipe(m: Machine, calls: WipeCalls)
    requires m.Valid()
    modifies m
    ensures m.Valid() && m.heap == old(m.heap) && m.secure == old(m.secure)
    ensures m.files == Wiped(old(m.files), calls)
  {
    hide Erased;
    if KEYSTORE_PATH in m.files && m.files[KEYSTORE_PATH] != [] {
      var writes := false;
      if calls.opens {
        var random := m.Malloc(|m.files[KEYSTORE_PATH]|, calls.buffer);
        if random.Some? {
          writes := true;
          m.Free(random.value);
        }
      }
      Erase(m, KEYSTORE_PATH, calls.noise, writes, calls.unlinks);
    }
    if MASTER_PATH in m.files {
      Erase(m, MASTER_PATH, calls.masterNoise, calls.masterOpens, calls.masterUnlinks);
    }
  }

  /** When the files could be removed, no password is accepted and no key can be read. */
  lemma WipedHoldsNothing(h: Hasher, c: Suite, files: map<string, Bytestring>, calls: WipeCalls, name: Bytestring, pw: string)
    ensures calls.masterUnlinks ==> !Accepts(h, Wiped(files, calls), pw)
    ensures calls.unlinks ==> Answer(c, KeyFile(Wiped(files, calls)), name, pw) == None
  {
    if calls.unlinks {
      assert KeyFile(Wiped(files, calls)) == [];
    }
  }

  /** What is left of the master key's file: nothing if it could be removed, 256 bytes of noise over its front if it
      could only be opened, and all of it otherwise. Other files stay. */
  lemma WipedMaster(files: map<string, Bytestring>, calls: WipeCalls, path: string)
    requires |calls.masterNoise| == 256
    ensures var after := Wiped(files, calls);
            && (MASTER_PATH in after <==> MASTER_PATH in files && !calls.masterUnlinks)
            && (MASTER_PATH in after ==>
                  after[MASTER_PATH] == if calls.masterOpens then calls.masterNoise + Drop(files[MASTER_PATH], 256)
                                        else files[MASTER_PATH])
            && (path != MASTER_PATH && path != KEYSTORE_PATH ==>
                  (path in after <==> path in files) && (path in after ==> after[path] == files[path]))
  {
  }

  /** What is left of the keystore: nothing if it could be removed, noise if it could only be overwritten, and all of
      it if neither worked, though the wipe reports success in every case. */
  lemma WipedKeys(files: map<string, Bytestring>, calls: WipeCalls)
    requires |calls.noise| == |KeyFile(files)|
    ensures var after := KeyFile(Wiped(files, calls));
            && (calls.unlinks ==> after == [])
            && (!calls.unlinks ==> after == if calls.opens && calls.buffer then calls.noise else KeyFile(files))
  {
  }
}
