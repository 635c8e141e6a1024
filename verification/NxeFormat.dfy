/** crypticengine/include/nxe_format.h, and what nxe_builder.c and nxe_loader.c make of a file in that format. */
module NxeFormat {
  import opened Wrappers
  import opened Bytes
  import opened Crypto

  const HEADER_LEN: nat := 256
  const VERSION_1_0: nat := 0x0001_0000
  const MAGIC: Bytestring := [0x4E, 0x58, 0x45, 1]
  const FILE_MAX: nat := 0x640_0000
  const RESERVED_LEN: nat := 64

  // ---- Flags ----

  const ENCRYPTED: nat := 1
  const SIGNED: nat := 2
  const RAM_ONLY: nat := 4
  const SANDBOXED: nat := 8

  /** `flag` is a power of two. */
  predicate Has(flags: nat, flag: nat)
    requires flag > 0
  {
    flags / flag % 2 == 1
  }

  /** The bitwise or with a flag. */
  function With(flags: nat, flag: nat): nat
    requires flag > 0
  {
    if Has(flags, flag) then flags else flags + flag
  }

  /** The flags of a number by its three low bits and the rest. */
  lemma LowBits(f: nat, q: nat, r: nat)
    requires r < 8 && f == 8 * q + r
    ensures Has(f, ENCRYPTED) <==> r in {1, 3, 5, 7}
    ensures Has(f, SIGNED) <==> r in {2, 3, 6, 7}
    ensures Has(f, RAM_ONLY) <==> r in {4, 5, 6, 7}
    ensures Has(f, SANDBOXED) <==> q % 2 == 1
  {
    Odd(4 * q, r);
    Halved(f, 4 * q, r);
    Odd(2 * q, r / 2);
    Halved(f / 2, 2 * q, r / 2);
    Odd(q, r / 4);
    assert f / 4 == f / 2 / 2 && f / 8 == q;
  }

  lemma Odd(h: nat, r: nat)
    ensures (2 * h + r) % 2 == r % 2
  {
  }

  lemma Halved(f: nat, h: nat, r: nat)
    requires f == 2 * h + r
    ensures f / 2 == h + r / 2
  {
  }

  /** Setting one of the low flags keeps the 32-bit range and every other flag. */
  lemma WithFlag(flags: nat, flag: nat)
    requires flags < UINT32 && flag in {ENCRYPTED, SIGNED, RAM_ONLY}
    ensures With(flags, flag) < UINT32 && Has(With(flags, flag), flag)
    ensures forall other | other in {ENCRYPTED, SIGNED, RAM_ONLY, SANDBOXED} && other != flag ::
              Has(With(flags, flag), other) == Has(flags, other)
  {
    hide Has;
    var q, r := flags / 8, flags % 8;
    LowBits(flags, q, r);
    if !Has(flags, flag) {
      LowBits(flags + flag, q, r + flag);
    }
  }

  // ---- The packed header ----

  datatype Header = Header(magic: Bytestring, version: nat, flags: nat, signature: Bytestring, pubkey: Bytestring,
                           hash: Bytestring, permissions: nat, offset: nat, size: nat, nonce: Bytestring,
                           salt: Bytestring, reserved: Bytestring)
  {
    /** Every field fits its place. */
    ghost predicate Fits() {
      && |magic| == 4 && |signature| == SIG_LEN && |pubkey| == PK_LEN && |hash| == HASH_LEN
      && |nonce| == NONCE_LEN && |salt| == SALT_LEN && |reserved| == RESERVED_LEN
      && version < UINT32 && flags < UINT32 && permissions < UINT32 && offset < UINT32 && size < UINT32
    }
  }

  function Zeros(n: nat): (z: Bytestring)
    ensures |z| == n
  {
    if n == 0 then [] else [0] + Zeros(n - 1)
  }

  function EncodeHeader(h: Header): Bytestring {
    h.magic + (LE(h.version, 4) + (LE(h.flags, 4) + (h.signature + (h.pubkey + (h.hash + (LE(h.permissions, 4)
      + (LE(h.offset, 4) + (LE(h.size, 4) + (h.nonce + (h.salt + h.reserved))))))))))
  }

  function DecodeHeader(bs: Bytestring): Header
    requires |bs| >= HEADER_LEN
  {
    Header(bs[..4], FromLE(bs[4..8]), FromLE(bs[8..12]), bs[12..76], bs[76..108], bs[108..140], FromLE(bs[140..144]),
           FromLE(bs[144..148]), FromLE(bs[148..152]), bs[152..176], bs[176..192], bs[192..256])
  }

  lemma FirstFields(a: Bytestring, b: Bytestring, c: Bytestring, d: Bytestring, e: Bytestring, f: Bytestring, t: Bytestring)
    requires |a| == 4 && |b| == 4 && |c| == 4 && |d| == 64 && |e| == 32 && |f| == 32
    ensures var x := a + (b + (c + (d + (e + (f + t)))));
            && |x| == 140 + |t| && x[140..] == t
            && x[..4] == a && x[4..8] == b && x[8..12] == c && x[12..76] == d && x[76..108] == e && x[108..140] == f
  {
  }

  lemma LastFields(g: Bytestring, h: Bytestring, i: Bytestring, j: Bytestring, k: Bytestring, l: Bytestring, s: Bytestring)
    requires |g| == 4 && |h| == 4 && |i| == 4 && |j| == 24 && |k| == 16 && |l| == 64
    ensures var t := g + (h + (i + (j + (k + (l + s)))));
            && |t| == 116 + |s| && t[116..] == s
            && t[..4] == g && t[4..8] == h && t[8..12] == i && t[12..36] == j && t[36..52] == k && t[52..116] == l
  {
  }

  /** The same fields seen from the start of the header. */
  lemma Shifted(x: Bytestring, t: Bytestring)
    requires |x| >= 256 && x[140..] == t
    ensures x[140..144] == t[..4] && x[144..148] == t[4..8] && x[148..152] == t[8..12] && x[152..176] == t[12..36]
    ensures x[176..192] == t[36..52] && x[192..256] == t[52..116] && x[256..] == t[116..]
  {
  }

  lemma Regroup(h: Header, s: Bytestring)
    requires h.Fits()
    ensures EncodeHeader(h) + s == h.magic + (LE(h.version, 4) + (LE(h.flags, 4) + (h.signature + (h.pubkey + (h.hash
              + (LE(h.permissions, 4) + (LE(h.offset, 4) + (LE(h.size, 4) + (h.nonce + (h.salt + (h.reserved + s)))))))))))
  {
  }

  /** The 256-byte header reads back field by field, whatever follows it. */
  lemma DecodeOfEncode(h: Header, s: Bytestring)
    requires h.Fits()
    ensures |EncodeHeader(h) + s| == HEADER_LEN + |s| && (EncodeHeader(h) + s)[HEADER_LEN..] == s
    ensures DecodeHeader(EncodeHeader(h) + s) == h
  {
    Widths();
    FromLEOfLE(h.version, 4);
    FromLEOfLE(h.flags, 4);
    FromLEOfLE(h.permissions, 4);
    FromLEOfLE(h.offset, 4);
    FromLEOfLE(h.size, 4);
    Regroup(h, s);
    var t := LE(h.permissions, 4) + (LE(h.offset, 4) + (LE(h.size, 4) + (h.nonce + (h.salt + (h.reserved + s)))));
    FirstFields(h.magic, LE(h.version, 4), LE(h.flags, 4), h.signature, h.pubkey, h.hash, t);
    LastFields(LE(h.permissions, 4), LE(h.offset, 4), LE(h.size, 4), h.nonce, h.salt, h.reserved, s);
    Shifted(EncodeHeader(h) + s, t);
  }

  lemma Cut(bs: Bytestring, i: nat, j: nat)
    requires i <= j <= |bs|
    ensures bs[i..] == bs[i..j] + bs[j..]
  {
  }

  lemma Reassembled(bs: Bytestring)
    requires |bs| == HEADER_LEN
    ensures bs == bs[..4] + (bs[4..8] + (bs[8..12] + (bs[12..76] + (bs[76..108] + (bs[108..140] + (bs[140..144]
            + (bs[144..148] + (bs[148..152] + (bs[152..176] + (bs[176..192] + bs[192..256]))))))))))
  {
    assert bs[0..] == bs && bs[0..4] == bs[..4] && bs[192..] == bs[192..256];
    Cut(bs, 0, 4);
    Cut(bs, 4, 8);
    Cut(bs, 8, 12);
    Cut(bs, 12, 76);
    Cut(bs, 76, 108);
    Cut(bs, 108, 140);
    Cut(bs, 140, 144);
    Cut(bs, 144, 148);
    Cut(bs, 148, 152);
    Cut(bs, 152, 176);
    Cut(bs, 176, 192);
  }

  /** Every 256 bytes are the encoding of the header they decode to. */
  lemma EncodeOfDecode(bs: Bytestring)
    requires |bs| == HEADER_LEN
    ensures DecodeHeader(bs).Fits() && EncodeHeader(DecodeHeader(bs)) == bs
  {
    Widths();
    LEOfFromLE(bs[4..8]);
    LEOfFromLE(bs[8..12]);
    LEOfFromLE(bs[140..144]);
    LEOfFromLE(bs[144..148]);
    LEOfFromLE(bs[148..152]);
    Reassembled(bs);
  }

  // ---- What is built ----

  /** A key pair as the builder is given it. */
  datatype Keys = Keys(secret: Bytestring, public: Bytestring)

  /** What the builder is asked for; `salt` and `nonce` are the random bytes it draws. */
  datatype Order = Order(password: Option<string>, keys: Option<Keys>, permissions: nat, flags: nat,
                         salt: Bytestring, nonce: Bytestring)
  {
    ghost predicate Fits() {
      && |salt| == SALT_LEN && |nonce| == NONCE_LEN && permissions < UINT32 && flags < UINT32
      && (keys.Some? ==> |keys.value.public| == PK_LEN)
    }
  }

  function PayloadOf(c: Suite, o: Order, elf: Bytestring): Bytestring {
    match o.password case None => elf case Some(pw) => c.encrypt(c.derive(pw, o.salt), o.nonce, elf)
  }

  function FlagsOf(o: Order): nat {
    var f := With(o.flags, RAM_ONLY);
    var g := if o.password.Some? then With(f, ENCRYPTED) else f;
    if o.keys.Some? then With(g, SIGNED) else g
  }

  function HeaderOf(c: Suite, o: Order, elf: Bytestring): Header {
    var payload := PayloadOf(c, o, elf);
    Header(MAGIC, VERSION_1_0, FlagsOf(o),
           if o.keys.Some? then c.sign(o.keys.value.secret, payload) else Zeros(SIG_LEN),
           if o.keys.Some? then o.keys.value.public else Zeros(PK_LEN),
           c.hash(elf), o.permissions, HEADER_LEN, |payload|,
           if o.password.Some? then o.nonce else Zeros(NONCE_LEN),
           if o.password.Some? then o.salt else Zeros(SALT_LEN),
           Zeros(RESERVED_LEN))
  }

  function BuiltFile(c: Suite, o: Order, elf: Bytestring): Bytestring {
    EncodeHeader(HeaderOf(c, o, elf)) + PayloadOf(c, o, elf)
  }

  lemma HeaderFits(c: Suite, o: Order, elf: Bytestring)
    requires c.Lawful() && o.Fits() && |elf| <= FILE_MAX
    ensures HeaderOf(c, o, elf).Fits()
    ensures forall flag | flag in {ENCRYPTED, SIGNED, RAM_ONLY, SANDBOXED} :: Has(FlagsOf(o), flag) <==>
              Has(o.flags, flag) || flag == RAM_ONLY || (flag == ENCRYPTED && o.password.Some?) || (flag == SIGNED && o.keys.Some?)
  {
    WithFlag(o.flags, RAM_ONLY);
    var f := With(o.flags, RAM_ONLY);
    if o.password.Some? {
      WithFlag(f, ENCRYPTED);
    }
    var g := if o.password.Some? then With(f, ENCRYPTED) else f;
    if o.keys.Some? {
      WithFlag(g, SIGNED);
    }
    Widths();
  }

  // ---- What is loaded ----

  /** validate_header. */
  predicate ValidHeader(h: Header) {
    h.magic == MAGIC && h.version == VERSION_1_0 && h.offset == HEADER_LEN
  }

  /** `Runs` carries the bytes written to the memfd. `PastEnd` is a read past the end of the file's buffer. */
  datatype Loaded = Refused | PastEnd | Runs(elf: Bytestring)

  function LoadPayload(c: Suite, h: Header, payload: Bytestring, password: Option<string>): Loaded {
    if Has(h.flags, SIGNED) && !c.verify(h.pubkey, payload, h.signature) then Refused
    else
      var elf := if !Has(h.flags, ENCRYPTED) then Some(payload)
                 else if password.None? then None
                 else c.decrypt(c.derive(password.value, h.salt), h.nonce, payload);
      if elf.None? || c.hash(elf.value) != h.hash then Refused else Runs(elf.value)
  }

  /** nxe_load_and_exec up to the memfd, when no call fails. */
  function Load(c: Suite, file: Bytestring, password: Option<string>): Loaded {
    if |file| > FILE_MAX || |file| < HEADER_LEN then Refused
    else
      var h := DecodeHeader(file);
      if !ValidHeader(h) || Sum32(h.offset, h.size) > |file| then Refused
      else if h.offset + h.size > |file| then PastEnd
      else LoadPayload(c, h, file[h.offset..h.offset + h.size], password)
  }

  /** nxe_verify when no call fails; it looks at the payload of signed files only, and does not check that it
      is there. */
  function Verified(c: Suite, file: Bytestring): Loaded {
    if |file| > FILE_MAX || |file| < HEADER_LEN then Refused
    else
      var h := DecodeHeader(file);
      if !ValidHeader(h) then Refused
      else if !Has(h.flags, SIGNED) then Runs([])
      else if h.offset + h.size > |file| then PastEnd
      else if c.verify(h.pubkey, file[h.offset..h.offset + h.size], h.signature) then Runs([])
      else Refused
  }

  // ---- The round trip ----

  /** The caller's flags announce nothing that the builder does not do, and the keys are a pair. */
  ghost predicate Consistent(c: Suite, o: Order) {
    && (Has(o.flags, ENCRYPTED) ==> o.password.Some?)
    && (Has(o.flags, SIGNED) ==> o.keys.Some?)
    && (o.keys.Some? ==> o.keys.value.public == c.publicOf(o.keys.value.secret))
  }

  lemma LoadBuiltPayload(c: Suite, o: Order, elf: Bytestring, password: Option<string>)
    requires c.Lawful() && o.Fits() && Consistent(c, o) && |elf| <= FILE_MAX
    requires o.password.Some? ==> password == o.password
    ensures LoadPayload(c, HeaderOf(c, o, elf), PayloadOf(c, o, elf), password) == Runs(elf)
  {
    hide FlagsOf, EncodeHeader;
    BuiltFlags(c, o, elf);
  }

  lemma BuiltFlags(c: Suite, o: Order, elf: Bytestring)
    requires c.Lawful() && o.Fits() && Consistent(c, o) && |elf| <= FILE_MAX
    ensures Has(FlagsOf(o), ENCRYPTED) <==> o.password.Some?
    ensures Has(FlagsOf(o), SIGNED) <==> o.keys.Some?
  {
    hide FlagsOf, HeaderOf;
    HeaderFits(c, o, elf);
    assert ENCRYPTED in {ENCRYPTED, SIGNED, RAM_ONLY, SANDBOXED} && SIGNED in {ENCRYPTED, SIGNED, RAM_ONLY, SANDBOXED};
  }

  lemma BuiltParts(c: Suite, o: Order, elf: Bytestring)
    requires c.Lawful() && o.Fits() && |elf| <= FILE_MAX
    ensures var file := BuiltFile(c, o, elf);
            && |file| == HEADER_LEN + |PayloadOf(c, o, elf)| < UINT32 && DecodeHeader(file) == HeaderOf(c, o, elf)
            && file[HEADER_LEN..HEADER_LEN + |PayloadOf(c, o, elf)|] == PayloadOf(c, o, elf)
  {
    hide EncodeHeader, DecodeHeader, FlagsOf;
    HeaderFits(c, o, elf);
    DecodeOfEncode(HeaderOf(c, o, elf), PayloadOf(c, o, elf));
    var file := BuiltFile(c, o, elf);
    assert file[HEADER_LEN..|file|] == file[HEADER_LEN..];
  }

  /** Loading a built file with its password runs exactly the original bytes, just when the header and the MAC
      leave the file within the loader's limit, which bounds the ELF alone in the builder. */
  lemma LoadOfBuild(c: Suite, o: Order, elf: Bytestring, password: Option<string>)
    requires c.Lawful() && o.Fits() && Consistent(c, o) && |elf| <= FILE_MAX
    requires o.password.Some? ==> password == o.password
    ensures Load(c, BuiltFile(c, o, elf), password) ==
            if |elf| + HEADER_LEN + (if o.password.Some? then MAC_LEN else 0) <= FILE_MAX then Runs(elf) else Refused
  {
    hide BuiltFile, DecodeHeader, FlagsOf, EncodeHeader, LoadPayload;
    BuiltParts(c, o, elf);
    LoadBuiltPayload(c, o, elf, password);
  }

  /** Encrypted output is refused without a password. */
  lemma LoadNeedsPassword(c: Suite, o: Order, elf: Bytestring)
    requires c.Lawful() && o.Fits() && |elf| <= FILE_MAX && o.password.Some?
    ensures Load(c, BuiltFile(c, o, elf), None) == Refused
  {
    BuiltParts(c, o, elf);
    HeaderFits(c, o, elf);
    assert Has(FlagsOf(o), ENCRYPTED);
  }

  /** What a file must hold to run as `elf`: field by field, where the header has them. */
  ghost predicate Genuine(c: Suite, file: Bytestring, password: Option<string>, elf: Bytestring) {
    && HEADER_LEN <= |file| <= FILE_MAX
    && file[..4] == MAGIC && FromLE(file[4..8]) == VERSION_1_0 && FromLE(file[144..148]) == HEADER_LEN
    && var flags, size := FromLE(file[8..12]), FromLE(file[148..152]);
    && HEADER_LEN + size <= |file|
    && var payload := file[HEADER_LEN..HEADER_LEN + size];
    && (Has(flags, SIGNED) ==> c.verify(file[76..108], payload, file[12..76]))
    && (if Has(flags, ENCRYPTED) then
          password.Some? && c.decrypt(c.derive(password.value, file[176..192]), file[152..176], payload) == Some(elf)
        else payload == elf)
    && c.hash(elf) == file[108..140]
  }

  /** A file runs just when it is genuine, and then as what it holds: a bad magic, version, offset, size,
      signature, password or hash is refused. */
  lemma LoadRunsExactly(c: Suite, file: Bytestring, password: Option<string>, elf: Bytestring)
    ensures Load(c, file, password) == Runs(elf) <==> Genuine(c, file, password, elf)
  {
    if HEADER_LEN <= |file| <= FILE_MAX {
      var h := DecodeHeader(file);
      SizeFits(file);
      if h.size >= UINT32 - HEADER_LEN && ValidHeader(h) {
        CheckIsExact(c, file, password);
      }
    }
  }

  lemma VerifiedBuild(c: Suite, o: Order, elf: Bytestring)
    requires c.Lawful() && o.Fits() && Consistent(c, o) && |elf| <= FILE_MAX
    ensures Verified(c, BuiltFile(c, o, elf)).Runs? <==> |BuiltFile(c, o, elf)| <= FILE_MAX
  {
    hide BuiltFile, DecodeHeader, FlagsOf, PayloadOf, EncodeHeader;
    BuiltParts(c, o, elf);
    BuiltFlags(c, o, elf);
  }

  /** What nxe_verify accepts, field by field: the header, and of a signed file the signature of the payload. */
  lemma VerifiedExactly(c: Suite, file: Bytestring)
    ensures Verified(c, file).Runs? <==>
            && 256 <= |file| <= FILE_MAX
            && file[..4] == MAGIC && FromLE(file[4..8]) == VERSION_1_0 && FromLE(file[144..148]) == 256
            && (Has(FromLE(file[8..12]), SIGNED) ==>
                  var end := 256 + FromLE(file[148..152]);
                  end <= |file| && c.verify(file[76..108], file[256..end], file[12..76]))
    ensures Verified(c, file) == PastEnd <==>
            && 256 <= |file| <= FILE_MAX
            && file[..4] == MAGIC && FromLE(file[4..8]) == VERSION_1_0 && FromLE(file[144..148]) == 256
            && Has(FromLE(file[8..12]), SIGNED) && 256 + FromLE(file[148..152]) > |file|
  {
    hide FromLE;
  }

  /** Where the builder puts what it is given: the hash of the ELF and the permissions always, the salt and the
      nonce of an encrypted file, the public key and the signature of a signed one, and zeros for what is not
      there. */
  lemma BuiltFields(c: Suite, o: Order, elf: Bytestring)
    requires c.Lawful() && o.Fits() && |elf| <= FILE_MAX
    ensures var file := BuiltFile(c, o, elf);
            var payload := if o.password.Some? then c.encrypt(c.derive(o.password.value, o.salt), o.nonce, elf) else elf;
            && |file| == 256 + |payload| && file[256..] == payload
            && file[..4] == MAGIC && FromLE(file[4..8]) == VERSION_1_0 && file[108..140] == c.hash(elf)
            && FromLE(file[140..144]) == o.permissions && FromLE(file[144..148]) == 256
            && FromLE(file[148..152]) == |payload|
            && file[12..76] == (if o.keys.Some? then c.sign(o.keys.value.secret, payload) else Zeros(64))
            && file[76..108] == (if o.keys.Some? then o.keys.value.public else Zeros(32))
            && file[152..176] == (if o.password.Some? then o.nonce else Zeros(24))
            && file[176..192] == (if o.password.Some? then o.salt else Zeros(16)) && file[192..256] == Zeros(64)
  {
    hide FromLE, EncodeHeader, FlagsOf, Zeros;
    BuiltParts(c, o, elf);
    var file := BuiltFile(c, o, elf);
    assert file[HEADER_LEN..|file|] == file[HEADER_LEN..];
  }

  lemma {:induction false} ZerosAre(n: nat, i: nat)
    requires i < n
    ensures Zeros(n)[i] == 0
  {
    if i > 0 {
      ZerosAre(n - 1, i - 1);
    }
  }

  /** What loads verifies. */
  lemma LoadedIsVerified(c: Suite, file: Bytestring, password: Option<string>)
    requires Load(c, file, password).Runs?
    ensures Verified(c, file).Runs?
  {
    if |file| >= HEADER_LEN {
      SizeFits(file);
    }
  }

  lemma SizeFits(file: Bytestring)
    requires |file| >= HEADER_LEN
    ensures DecodeHeader(file).size < UINT32
  {
    Widths();
    LEOfFromLE(file[148..152]);
  }

  /** A payload that the file is too short for passes the 32-bit bounds check just when its announced size is within
      a header of 2^32. */
  lemma CheckIsExact(c: Suite, file: Bytestring, password: Option<string>)
    requires HEADER_LEN <= |file| <= FILE_MAX && ValidHeader(DecodeHeader(file))
    ensures Load(c, file, password) == PastEnd <==> DecodeHeader(file).size >= UINT32 - HEADER_LEN
    ensures HEADER_LEN + DecodeHeader(file).size > |file| ==> Load(c, file, password) in {Refused, PastEnd}
  {
    SizeFits(file);
  }
}
