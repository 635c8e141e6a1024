/** crypticengine/src/nxe_builder.c and nxe_loader.c, step by step, with every call that can fail. */
module NxeFiles {
  import opened Wrappers
  import opened Bytes
  import opened Crypto
  import opened Host
  import opened NxeFormat

  // ---- Building ----

  datatype BuildCalls = BuildCalls(opens: bool, buffer: bool, read: bool, hashed: bool, key: bool, derived: bool,
                                   payload: bool, encrypted: bool, signed: bool, create: bool,
                                   headerWritten: bool, payloadWritten: bool)

  const NO_HEADER := Header(Zeros(4), 0, 0, Zeros(SIG_LEN), Zeros(PK_LEN), Zeros(HASH_LEN), 0, 0, 0,
                            Zeros(NONCE_LEN), Zeros(SALT_LEN), Zeros(RESERVED_LEN))

  /** nxe_build. Whatever fails, all memory is given back; a failed write removes the output. */
  method Build(m: Machine, c: Suite, elfPath: string, nxePath: string, o: Order, calls: BuildCalls)
    returns (ok: bool)
    requires m.Valid()
    modifies m
    ensures m.Valid() && m.heap == old(m.heap) && m.secure == old(m.secure)
    ensures var payload := (o.password.Some? ==> calls.key && calls.derived && calls.encrypted) && calls.payload
                           && (o.keys.Some? ==> calls.signed);
            var ready := calls.opens && calls.buffer && calls.read && calls.hashed && payload && calls.create
                         && elfPath in old(m.files) && 0 < |old(m.files)[elfPath]| <= FILE_MAX;
            && (ok <==> ready && calls.headerWritten && calls.payloadWritten)
            && (ok ==> m.files == old(m.files)[nxePath := BuiltFile(c, o, old(m.files)[elfPath])])
            && (!ok ==> m.files == if ready then old(m.files) - {nxePath} else old(m.files))
  {
    if !calls.opens || elfPath !in m.files || |m.files[elfPath]| == 0 || |m.files[elfPath]| > FILE_MAX {
      return false;
    }
    var elf := m.files[elfPath];
    var elfData := m.Malloc(|elf|, calls.buffer);
    if elfData.None? {
      return false;
    }
    if !calls.read || !calls.hashed {
      m.Free(elfData.value);
      return false;
    }
    ok := BuildFrom(m, c, nxePath, o, elf, elfData.value, calls);
  }

  /** From the ELF in its block to the output file. */
  method BuildFrom(m: Machine, c: Suite, nxePath: string, o: Order, elf: Bytestring, elfData: nat, calls: BuildCalls)
    returns (ok: bool)
    requires m.Valid() && elfData in m.heap
    modifies m
    ensures m.Valid() && m.heap == old(m.heap) - {elfData} && m.secure == old(m.secure)
    ensures var payload := (o.password.Some? ==> calls.key && calls.derived && calls.encrypted) && calls.payload
                           && (o.keys.Some? ==> calls.signed);
            var ready := payload && calls.create;
            && (ok <==> ready && calls.headerWritten && calls.payloadWritten)
            && (ok ==> m.files == old(m.files)[nxePath := BuiltFile(c, o, elf)])
            && (!ok ==> m.files == if ready then old(m.files) - {nxePath} else old(m.files))
  {
    var hdr := NO_HEADER.(magic := MAGIC, version := VERSION_1_0);
    hdr := hdr.(flags := With(o.flags, RAM_ONLY), permissions := o.permissions);
    hdr := hdr.(offset := HEADER_LEN, hash := c.hash(elf));
    if o.password.Some? {
      hdr := hdr.(flags := With(hdr.flags, ENCRYPTED), salt := o.salt, nonce := o.nonce);
    }
    var payload, block := MakePayload(m, c, o.password, hdr, elf, elfData, calls);
    if payload.None? {
      return false;
    }
    hdr := hdr.(size := |payload.value|);
    if o.keys.Some? {
      hdr := hdr.(flags := With(hdr.flags, SIGNED), pubkey := o.keys.value.public);
      if !calls.signed {
        m.Free(block.value);
        m.Free(elfData);
        return false;
      }
      hdr := hdr.(signature := c.sign(o.keys.value.secret, payload.value));
    }
    m.Free(elfData);
    assert payload.value == PayloadOf(c, o, elf) && hdr == HeaderOf(c, o, elf);
    ok := WriteOut(m, nxePath, EncodeHeader(hdr) + payload.value, block.value, calls);
  }

  /** The payload and its block, or a failure that freed the ELF's block. */
  method MakePayload(m: Machine, c: Suite, password: Option<string>, hdr: Header, elf: Bytestring, elfData: nat,
                     calls: BuildCalls)
    returns (payload: Option<Bytestring>, block: Option<nat>)
    requires m.Valid() && elfData in m.heap
    modifies m`heap, m`secure, m`next
    ensures m.Valid() && m.secure == old(m.secure)
    ensures payload == if !calls.payload || (password.Some? && !(calls.key && calls.derived && calls.encrypted)) then None
                       else if password.None? then Some(elf)
                       else Some(c.encrypt(c.derive(password.value, hdr.salt), hdr.nonce, elf))
    ensures payload.None? ==> m.heap == old(m.heap) - {elfData}
    ensures payload.Some? ==> block.Some? && block.value !in old(m.heap)
                              && m.heap.Keys == old(m.heap.Keys) + {block.value}
                              && m.heap - {block.value} == old(m.heap)
  {
    if password.Some? {
      payload, block := SealPayload(m, c, password.value, hdr, elf, elfData, calls);
      return;
    }
    payload := None;
    block := m.Malloc(|elf|, calls.payload);
    if block.None? {
      m.Free(elfData);
      return;
    }
    payload := Some(elf);
  }

  /** The encrypting branch. On failure the ELF's block is freed, on success the payload's is handed over. */
  method SealPayload(m: Machine, c: Suite, password: string, hdr: Header, elf: Bytestring, elfData: nat, calls: BuildCalls)
    returns (payload: Option<Bytestring>, block: Option<nat>)
    requires m.Valid() && elfData in m.heap
    modifies m`heap, m`secure, m`next
    ensures m.Valid() && m.secure == old(m.secure)
    ensures payload == if calls.key && calls.derived && calls.payload && calls.encrypted
                       then Some(c.encrypt(c.derive(password, hdr.salt), hdr.nonce, elf)) else None
    ensures payload.None? ==> m.heap == old(m.heap) - {elfData}
    ensures payload.Some? ==> block.Some? && block.value !in old(m.heap)
                              && m.heap == old(m.heap)[block.value := |elf| + MAC_LEN]
  {
    payload, block := None, None;
    var key := m.SecureAlloc(KEY_LEN, calls.key);
    if key.None? {
      m.Free(elfData);
      return;
    }
    if !calls.derived {
      m.SecureFree(key.value, KEY_LEN);
      m.Free(elfData);
      return;
    }
    block := m.Malloc(|elf| + MAC_LEN, calls.payload);
    if block.None? {
      m.SecureFree(key.value, KEY_LEN);
      m.Free(elfData);
      return;
    }
    if !calls.encrypted {
      m.SecureFree(key.value, KEY_LEN);
      m.Free(block.value);
      m.Free(elfData);
      return;
    }
    payload := Some(c.encrypt(c.derive(password, hdr.salt), hdr.nonce, elf));
    m.SecureFree(key.value, KEY_LEN);
  }

  method WriteOut(m: Machine, path: string, bytes: Bytestring, block: nat, calls: BuildCalls) returns (ok: bool)
    requires m.Valid() && block in m.heap
    modifies m`heap, m`files
    ensures m.Valid() && m.heap == old(m.heap) - {block}
    ensures ok <==> calls.create && calls.headerWritten && calls.payloadWritten
    ensures m.files == if ok then old(m.files)[path := bytes]
                       else if calls.create then old(m.files) - {path} else old(m.files)
  {
    if !calls.create {
      m.Free(block);
      return false;
    }
    ok := calls.headerWritten && calls.payloadWritten;
    m.WriteFile(path, bytes);
    m.Free(block);
    if !ok {
      m.Unlink(path);
    }
  }

  // ---- Loading ----

  datatype LoadCalls = LoadCalls(opens: bool, buffer: bool, read: bool, key: bool, derived: bool, elfBuffer: bool,
                                 hashed: bool, memfd: bool, written: bool)

  const NOTHING_FAILS := LoadCalls(true, true, true, true, true, true, true, true, true)

  /** read_full_file: the block is handed over on success. */
  method ReadFullFile(m: Machine, path: string, calls: LoadCalls) returns (data: Option<Bytestring>, block: Option<nat>)
    requires m.Valid()
    modifies m`heap, m`next
    ensures m.Valid()
    ensures data == if calls.opens && path in m.files && |m.files[path]| <= FILE_MAX && calls.buffer && calls.read
                    then Some(m.files[path]) else None
    ensures data.None? ==> m.heap == old(m.heap)
    ensures data.Some? ==> block.Some? && block.value !in old(m.heap)
                           && m.heap == old(m.heap)[block.value := |data.value|]
  {
    data, block := None, None;
    if !calls.opens || path !in m.files || |m.files[path]| > FILE_MAX {
      return;
    }
    block := m.Malloc(|m.files[path]|, calls.buffer);
    if block.None? {
      return;
    }
    if !calls.read {
      m.Free(block.value);
      block := None;
      return;
    }
    data := Some(m.files[path]);
  }

  /** nxe_load_and_exec up to the memfd: memory is given back on every path, and nothing but the decoded ELF of
      the file runs. A read past the end of the buffer is where the model stops. */
  method LoadAndExec(m: Machine, c: Suite, path: string, password: Option<string>, calls: LoadCalls)
    returns (r: Loaded)
    requires m.Valid()
    modifies m`heap, m`secure, m`next
    ensures m.Valid() && m.heap == old(m.heap) && m.secure == old(m.secure)
    ensures r.Runs? ==>
              && calls.opens && path in m.files && calls.buffer && calls.read && calls.elfBuffer && calls.hashed
              && calls.memfd && calls.written && r == Load(c, m.files[path], password)
              && (HEADER_LEN <= |m.files[path]| && Has(DecodeHeader(m.files[path]).flags, ENCRYPTED) ==> calls.key && calls.derived)
    ensures calls == NOTHING_FAILS && path in m.files ==> r == Load(c, m.files[path], password)
  {
    hide DecodeHeader, LoadPayload;
    var data, block := ReadFullFile(m, path, calls);
    if data.None? {
      return Refused;
    }
    var file := data.value;
    if |file| < HEADER_LEN {
      m.Free(block.value);
      return Refused;
    }
    var hdr := DecodeHeader(file);
    if !ValidHeader(hdr) || Sum32(hdr.offset, hdr.size) > |file| {
      m.Free(block.value);
      return Refused;
    }
    if hdr.offset + hdr.size > |file| {
      m.Free(block.value);
      return PastEnd;
    }
    r := RunPayload(m, c, hdr, file[hdr.offset..hdr.offset + hdr.size], block.value, password, calls);
  }

  method RunPayload(m: Machine, c: Suite, hdr: Header, payload: Bytestring, fileData: nat, password: Option<string>,
                    calls: LoadCalls)
    returns (r: Loaded)
    requires m.Valid() && fileData in m.heap
    modifies m`heap, m`secure, m`next
    ensures m.Valid() && m.heap == old(m.heap) - {fileData} && m.secure == old(m.secure)
    ensures r.Runs? ==>
              && calls.elfBuffer && calls.hashed && calls.memfd && calls.written
              && (Has(hdr.flags, ENCRYPTED) ==> calls.key && calls.derived)
              && r == LoadPayload(c, hdr, payload, password)
    ensures calls == NOTHING_FAILS ==> r == LoadPayload(c, hdr, payload, password)
  {
    if Has(hdr.flags, SIGNED) && !c.verify(hdr.pubkey, payload, hdr.signature) {
      m.Free(fileData);
      return Refused;
    }
    var elf, block := None, None;
    if Has(hdr.flags, ENCRYPTED) {
      if password.None? {
        m.Free(fileData);
        return Refused;
      }
      elf, block := OpenPayload(m, c, hdr, payload, fileData, password.value, calls);
      if elf.None? {
        return Refused;
      }
    } else {
      block := m.Malloc(|payload|, calls.elfBuffer);
      if block.None? {
        m.Free(fileData);
        return Refused;
      }
      elf := Some(payload);
    }
    m.Free(fileData);
    if !calls.hashed || c.hash(elf.value) != hdr.hash || !calls.memfd || !calls.written {
      m.Free(block.value);
      return Refused;
    }
    m.Free(block.value);
    r := Runs(elf.value);
  }

  /** The decrypting branch. On failure the file's block is freed, on success the ELF's is handed over. */
  method OpenPayload(m: Machine, c: Suite, hdr: Header, payload: Bytestring, fileData: nat, password: string,
                     calls: LoadCalls)
    returns (elf: Option<Bytestring>, block: Option<nat>)
    requires m.Valid() && fileData in m.heap
    modifies m`heap, m`secure, m`next
    ensures m.Valid() && m.secure == old(m.secure)
    ensures elf == if calls.key && calls.derived && calls.elfBuffer
                   then c.decrypt(c.derive(password, hdr.salt), hdr.nonce, payload) else None
    ensures elf.None? ==> m.heap == old(m.heap) - {fileData}
    ensures elf.Some? ==> block.Some? && block.value !in old(m.heap)
                          && m.heap == old(m.heap)[block.value := |payload|]
  {
    elf, block := None, None;
    var key := m.SecureAlloc(KEY_LEN, calls.key);
    if key.None? {
      m.Free(fileData);
      return;
    }
    if !calls.derived {
      m.SecureFree(key.value, KEY_LEN);
      m.Free(fileData);
      return;
    }
    block := m.Malloc(|payload|, calls.elfBuffer);
    if block.None? {
      m.SecureFree(key.value, KEY_LEN);
      m.Free(fileData);
      return;
    }
    elf := c.decrypt(c.derive(password, hdr.salt), hdr.nonce, payload);
    m.SecureFree(key.value, KEY_LEN);
    if elf.None? {
      m.Free(block.value);
      m.Free(fileData);
    }
  }

  /** nxe_verify. */
  method Verify(m: Machine, c: Suite, path: string, calls: LoadCalls) returns (r: Loaded)
    requires m.Valid()
    modifies m`heap, m`next
    ensures m.Valid() && m.heap == old(m.heap)
    ensures r == if calls.opens && path in m.files && calls.buffer && calls.read then Verified(c, m.files[path])
                 else Refused
  {
    var data, block := ReadFullFile(m, path, calls);
    if data.None? {
      return Refused;
    }
    var file := data.value;
    if |file| < HEADER_LEN {
      m.Free(block.value);
      return Refused;
    }
    var hdr := DecodeHeader(file);
    if !ValidHeader(hdr) {
      m.Free(block.value);
      return Refused;
    }
    if Has(hdr.flags, SIGNED) {
      if hdr.offset + hdr.size > |file| {
        m.Free(block.value);
        return PastEnd;
      }
      if !c.verify(hdr.pubkey, file[hdr.offset..hdr.offset + hdr.size], hdr.signature) {
        m.Free(block.value);
        return Refused;
      }
    }
    m.Free(block.value);
    r := Runs([]);
  }
}
