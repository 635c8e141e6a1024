/** crypticengine/src/key_storage.c: the append-only keystore file. Names are C strings of bytes. */
module KeyStore {
  import opened Bytes
  import opened CText
  import opened Crypto
  import opened Seqs
  import opened Wrappers

  const NAME_MAX: nat := 64
  const MAX_KEYS: nat := 128
  const UINT16: nat := 0x1_0000

  // ---- The file format ----

  /** One entry; the name is as it stands in the file. */
  datatype Entry = Entry(name: Bytestring, kind: nat, time: nat, salt: Bytestring, nonce: Bytestring, body: Bytestring)

  /** The fields fit their width, and the name is short enough to be read back. */
  ghost predicate Fits(e: Entry) {
    && |e.name| < NAME_MAX && e.kind < UINT32 && e.time < Pow256(8)
    && |e.salt| == SALT_LEN && |e.nonce| == NONCE_LEN && |e.body| < UINT32
  }

  function Encode(e: Entry): Bytestring {
    LE(|e.name|, 2) + (e.name + (LE(e.kind, 4) + (LE(e.time, 8) + (LE(|e.body|, 4) + (e.salt + (e.nonce + e.body))))))
  }

  function EncodeAll(es: seq<Entry>): Bytestring {
    if es == [] then [] else Encode(es[0]) + EncodeAll(es[1..])
  }

  /** The fields that stand before the encrypted key. */
  datatype Fields = Fields(name: Bytestring, kind: nat, time: nat, bodyLen: nat, salt: Bytestring, nonce: Bytestring)

  /** What the reads up to the nonce find: the fields and the bytes after them. */
  datatype Head = NoHead | Head(fields: Fields, rest: Bytestring)

  /** A header is missing when the bytes run out or the name is too long. */
  function ReadHead(s: Bytestring): (h: Head)
    ensures h.Head? ==> |h.rest| < |s|
  {
    if |s| < 2 || FromLE(s[..2]) >= NAME_MAX then NoHead
    else
      var n := FromLE(s[..2]);
      if |s| < 2 + n + 56 then NoHead
      else
        var t := s[2 + n..];
        Head(Fields(s[2..2 + n], FromLE(t[..4]), FromLE(t[4..12]), FromLE(t[12..16]), t[16..32], t[32..56]), t[56..])
  }

  function EntryOf(h: Fields, body: Bytestring): Entry {
    Entry(h.name, h.kind, h.time, h.salt, h.nonce, body)
  }

  /** The first complete entries of a file. */
  function Decode(s: Bytestring): seq<Entry>
    decreases |s|
  {
    var h := ReadHead(s);
    if h.NoHead? || h.fields.bodyLen > |h.rest| then []
    else [EntryOf(h.fields, h.rest[..h.fields.bodyLen])] + Decode(h.rest[h.fields.bodyLen..])
  }

  ghost predicate NulFree(bs: Bytestring) {
    0 !in bs
  }

  function Lookup(es: seq<Entry>, name: Bytestring): Option<Entry> {
    if es == [] then None else if CStr(es[0].name, 0) == name then Some(es[0]) else Lookup(es[1..], name)
  }

  /** The first header with the name; a header with another name is skipped by its announced length. */
  function FirstHead(s: Bytestring, name: Bytestring): Head
    decreases |s|
  {
    var h := ReadHead(s);
    if h.NoHead? || CStr(h.fields.name, 0) == name then h else FirstHead(Drop(h.rest, h.fields.bodyLen), name)
  }

  /** What keystore_retrieve needs of an entry. */
  datatype Sealed = Sealed(salt: Bytestring, nonce: Bytestring, body: Bytestring)

  /** What the scan of keystore_retrieve finds: a body cut short is a failure. */
  function Scan(s: Bytestring, name: Bytestring): Option<Sealed> {
    var h := FirstHead(s, name);
    if h.NoHead? || h.fields.bodyLen > |h.rest| then None
    else Some(Sealed(h.fields.salt, h.fields.nonce, h.rest[..h.fields.bodyLen]))
  }

  function SealedOf(e: Option<Entry>): Option<Sealed> {
    match e case None => None case Some(x) => Some(Sealed(x.salt, x.nonce, x.body))
  }

  lemma ScanNothing(name: Bytestring)
    ensures Scan([], name) == None
  {
  }

  /** The scan that skips equals decoding the whole file and looking up, whatever the bytes. */
  lemma {:induction false} ScanIsLookup(s: Bytestring, name: Bytestring)
    ensures Scan(s, name) == SealedOf(Lookup(Decode(s), name))
    decreases |s|
  {
    var h := ReadHead(s);
    if h.Head? {
      var n := h.fields.bodyLen;
      if n <= |h.rest| {
        var e := EntryOf(h.fields, h.rest[..n]);
        assert ([e] + Decode(h.rest[n..]))[1..] == Decode(h.rest[n..]);
        ScanIsLookup(h.rest[n..], name);
      } else {
        ScanNothing(name);
      }
    }
  }

  /** An entry found is found whatever is appended: a further store, or a torn one. */
  lemma {:induction false} ScanStable(s: Bytestring, t: Bytestring, name: Bytestring)
    requires Scan(s, name).Some?
    ensures Scan(s + t, name) == Scan(s, name)
    decreases |s|
  {
    hide ReadHead, CStr;
    HeadStable(s, t);
    var h := ReadHead(s);
    var n := h.fields.bodyLen;
    if CStr(h.fields.name, 0) == name {
      SliceStable(h.rest, t, 0, n);
    } else {
      ScanNothing(name);
      DropStable(h.rest, t, n);
      ScanStable(Drop(h.rest, n), t, name);
    }
  }

  /** What follows a long enough string does not change its slices. */
  lemma SliceStable(a: Bytestring, b: Bytestring, i: nat, j: nat)
    requires i <= j <= |a|
    ensures (a + b)[i..j] == a[i..j] && (a + b)[j..] == a[j..] + b
  {
  }

  lemma DropStable(a: Bytestring, b: Bytestring, n: nat)
    requires n <= |a|
    ensures Drop(a + b, n) == Drop(a, n) + b
  {
  }

  lemma HeadStable(s: Bytestring, t: Bytestring)
    requires ReadHead(s).Head?
    ensures ReadHead(s + t) == ReadHead(s).(rest := ReadHead(s).rest + t)
  {
    hide FromLE;
    var n := FromLE(s[..2]);
    SliceStable(s, t, 0, 2);
    SliceStable(s, t, 2, 2 + n);
    var u := s[2 + n..];
    SliceStable(u, t, 0, 4);
    SliceStable(u, t, 4, 12);
    SliceStable(u, t, 12, 16);
    SliceStable(u, t, 16, 32);
    SliceStable(u, t, 32, 56);
    assert (s + t)[..2] == s[..2] && (u + t)[..4] == u[..4];
  }

  // ---- Round trips ----

  function FieldsOf(e: Entry): Fields {
    Fields(e.name, e.kind, e.time, |e.body|, e.salt, e.nonce)
  }

  lemma HeadOfEntry(e: Entry, s: Bytestring)
    requires Fits(e)
    ensures ReadHead(Encode(e) + s) == Head(FieldsOf(e), e.body + s)
  {
    hide LE, FromLE;
    var a := Encode(e) + s;
    var n := |e.name|;
    Widths();
    FromLEOfLE(n, 2);
    FromLEOfLE(e.kind, 4);
    FromLEOfLE(e.time, 8);
    FromLEOfLE(|e.body|, 4);
    assert a[..2] == LE(n, 2);
    assert a[2..2 + n] == e.name;
    var t := a[2 + n..];
    assert t == LE(e.kind, 4) + (LE(e.time, 8) + (LE(|e.body|, 4) + (e.salt + (e.nonce + e.body)))) + s;
    FieldsAt(LE(e.kind, 4), LE(e.time, 8), LE(|e.body|, 4), e.salt, e.nonce, e.body, s);
  }

  /** The fixed-width fields stand where they were written. */
  lemma FieldsAt(a: Bytestring, b: Bytestring, c: Bytestring, d: Bytestring, f: Bytestring, body: Bytestring, s: Bytestring)
    requires |a| == 4 && |b| == 8 && |c| == 4 && |d| == 16 && |f| == 24
    ensures var t := a + (b + (c + (d + (f + body)))) + s;
            t[..4] == a && t[4..12] == b && t[12..16] == c && t[16..32] == d && t[32..56] == f && t[56..] == body + s
  {
  }

  /** Where the fields of an entry stand. */
  lemma EntryLayout(e: Entry)
    requires |e.salt| == SALT_LEN && |e.nonce| == NONCE_LEN
    ensures var s, n := Encode(e), |e.name|;
            && |s| == 58 + n + |e.body|
            && s[..2] == LE(n, 2) && s[2..2 + n] == e.name && s[2 + n..6 + n] == LE(e.kind, 4)
            && s[6 + n..14 + n] == LE(e.time, 8) && s[14 + n..18 + n] == LE(|e.body|, 4)
            && s[18 + n..34 + n] == e.salt && s[34 + n..58 + n] == e.nonce && s[58 + n..] == e.body
  {
    hide LE;
    var s, n := Encode(e), |e.name|;
    FieldsAt(LE(e.kind, 4), LE(e.time, 8), LE(|e.body|, 4), e.salt, e.nonce, e.body, []);
    var fields := LE(e.kind, 4) + (LE(e.time, 8) + (LE(|e.body|, 4) + (e.salt + (e.nonce + e.body))));
    PlusNothing(fields);
    PlusNothing(e.body);
    assert s == LE(n, 2) + (e.name + fields);
    BehindName(LE(n, 2), e.name, fields);
  }

  lemma BehindName(a: Bytestring, name: Bytestring, t: Bytestring)
    requires |a| == 2 && |t| >= 56
    ensures var s, n := a + (name + t), |name|;
            && |s| == 2 + n + |t| && s[..2] == a && s[2..2 + n] == name
            && s[2 + n..6 + n] == t[..4] && s[6 + n..14 + n] == t[4..12] && s[14 + n..18 + n] == t[12..16]
            && s[18 + n..34 + n] == t[16..32] && s[34 + n..58 + n] == t[32..56] && s[58 + n..] == t[56..]
  {
  }

  lemma DecodeStep(e: Entry, s: Bytestring)
    requires Fits(e)
    ensures Decode(Encode(e) + s) == [e] + Decode(s)
  {
    HeadOfEntry(e, s);
    Split(e.body, s);
  }

  /** Decoding undoes encoding, and goes on with whatever follows. */
  lemma {:induction false} DecodeOfEncode(es: seq<Entry>, s: Bytestring)
    requires forall i | 0 <= i < |es| :: Fits(es[i])
    ensures Decode(EncodeAll(es) + s) == es + Decode(s)
  {
    if es == [] {
      assert [] + s == s && [] + Decode(s) == Decode(s);
    } else {
      var rest := es[1..];
      Assoc(Encode(es[0]), EncodeAll(rest), s);
      DecodeStep(es[0], EncodeAll(rest) + s);
      DecodeOfEncode(rest, s);
      Assoc([es[0]], rest, Decode(s));
      assert [es[0]] + rest == es;
    }
  }
}
