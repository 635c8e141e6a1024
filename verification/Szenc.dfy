/** crypticengine/src/cryptic_engine.c: encrypting a file to `.szenc` and back. */
module Szenc {
  import opened Wrappers
  import opened Crypto
  import opened Host

  const EXTENSION := ".szenc"
  const PLAIN_MAX: nat := 0x4000_0000
  const SZENC_HEADER_LEN: nat := SALT_LEN + NONCE_LEN

  // ---- The format and the names ----

  function Encrypted(c: Suite, pw: string, salt: Bytestring, nonce: Bytestring, plain: Bytestring): Bytestring {
    salt + (nonce + c.encrypt(c.derive(pw, salt), nonce, plain))
  }

  /** The decryption of a file's bytes. */
  function Decrypted(c: Suite, pw: string, file: Bytestring): Option<Bytestring> {
    if |file| < SZENC_HEADER_LEN + MAC_LEN then None
    else c.decrypt(c.derive(pw, file[..SALT_LEN]), file[SALT_LEN..SZENC_HEADER_LEN], file[SZENC_HEADER_LEN..])
  }

  /** What an output file holds: the salt, the nonce, and the text encrypted under the key derived from both. */
  lemma Layout(c: Suite, pw: string, salt: Bytestring, nonce: Bytestring, plain: Bytestring)
    requires |salt| == 16 && |nonce| == 24
    ensures var file := Encrypted(c, pw, salt, nonce, plain);
            && |file| >= 40 && file[..16] == salt && file[16..40] == nonce
            && file[40..] == c.encrypt(c.derive(pw, salt), nonce, plain)
  {
  }

  /** Where the plaintext goes: the extension is stripped from a longer name. */
  function PlainPath(path: string): string {
    if |path| > |EXTENSION| && path[|path| - |EXTENSION|..] == EXTENSION then path[..|path| - |EXTENSION|]
    else path + ".dec"
  }

  lemma DecryptedOfEncrypted(c: Suite, pw: string, salt: Bytestring, nonce: Bytestring, plain: Bytestring)
    requires c.Lawful() && |salt| == SALT_LEN && |nonce| == NONCE_LEN
    ensures Decrypted(c, pw, Encrypted(c, pw, salt, nonce, plain)) == Some(plain)
    ensures |Encrypted(c, pw, salt, nonce, plain)| == |plain| + SZENC_HEADER_LEN + MAC_LEN
  {
    var file := Encrypted(c, pw, salt, nonce, plain);
    var text := c.encrypt(c.derive(pw, salt), nonce, plain);
    assert file[..SALT_LEN] == salt && file[SALT_LEN..SZENC_HEADER_LEN] == nonce && file[SZENC_HEADER_LEN..] == text;
  }

  /** A longer name loses its extension, and any other gets one. */
  lemma PlainPathIs(path: string)
    ensures (exists base :: base != "" && path == base + ".szenc") ==> PlainPath(path) + ".szenc" == path
    ensures !(exists base :: base != "" && path == base + ".szenc") ==> PlainPath(path) == path + ".dec"
  {
    if base :| base != "" && path == base + ".szenc" {
      assert path[|base|..] == EXTENSION && path[..|base|] == base;
    } else if |path| > 6 {
      var base := path[..|path| - 6];
      assert base + path[|path| - 6..] == path;
    }
  }

  /** Decrypting the output goes back to the original name, unless that was empty. */
  lemma PlainPathOfOutput(path: string)
    ensures PlainPath(path + EXTENSION) == path <==> path != ""
  {
    var out := path + EXTENSION;
    assert out[|path|..] == EXTENSION && out[..|path|] == path;
  }

  /** Decrypting never writes to the file it reads. */
  lemma PlainPathDiffers(path: string)
    ensures PlainPath(path) != path
  {
    assert |PlainPath(path)| != |path|;
  }

  // ---- Encrypting ----

  datatype EncryptCalls = EncryptCalls(opens: bool, buffer: bool, read: bool, key: bool, derived: bool,
                                       cipherBuffer: bool, encrypted: bool, pathBuffer: bool, create: bool, written: bool)

  /** The files after a call that got as far as creating `out`, or not. */
  function Output(files: map<string, Bytestring>, out: string, bytes: Bytestring, created: bool, written: bool)
    : map<string, Bytestring>
  {
    if !created then files else if written then files[out := bytes] else files - {out}
  }

  /** cryptic_encrypt_file: memory is given back on every path. */
  method EncryptFile(m: Machine, c: Suite, path: string, pw: string, salt: Bytestring, nonce: Bytestring,
                     calls: EncryptCalls)
    returns (ok: bool)
    requires m.Valid()
    modifies m
    ensures m.Valid() && m.heap == old(m.heap) && m.secure == old(m.secure)
    ensures var prepared := calls.opens && calls.buffer && calls.read && calls.key && calls.derived && calls.cipherBuffer
                            && calls.encrypted && calls.pathBuffer;
            var ready := prepared && path in old(m.files) && |old(m.files)[path]| <= PLAIN_MAX && calls.create;
            && (ok <==> ready && calls.written)
            && (!ready ==> m.files == old(m.files))
            && (ready && !ok ==> m.files == old(m.files) - {path + ".szenc"})
            && (ok ==> m.files == old(m.files)[path + ".szenc" := Encrypted(c, pw, salt, nonce, old(m.files)[path])])
  {
    if !calls.opens || path !in m.files || |m.files[path]| > PLAIN_MAX {
      return false;
    }
    var plain := m.files[path];
    var plaintext := m.Malloc(|plain|, calls.buffer);
    if plaintext.None? {
      return false;
    }
    if !calls.read {
      m.Free(plaintext.value);
      return false;
    }
    assert m.heap - {plaintext.value} == old(m.heap);
    var ciphertext := SealText(m, |plain|, plaintext.value, calls);
    if ciphertext.None? {
      return false;
    }
    assert m.heap - {ciphertext.value} == old(m.heap) && ciphertext.value in m.heap;
    var text := c.encrypt(c.derive(pw, salt), nonce, plain);
    var outPath := m.Malloc(|path| + |EXTENSION| + 1, calls.pathBuffer);
    if outPath.None? {
      m.Free(ciphertext.value);
      return false;
    }
    ok := WriteOut(m, path + EXTENSION, salt + (nonce + text), outPath.value, ciphertext.value, calls.create, calls.written);
  }

  /** From the plaintext's block to the ciphertext's, with the key in between; on failure both are free. */
  method SealText(m: Machine, len: nat, plaintext: nat, calls: EncryptCalls) returns (ciphertext: Option<nat>)
    requires m.Valid() && plaintext in m.heap
    modifies m`heap, m`secure, m`next
    ensures m.Valid() && m.secure == old(m.secure)
    ensures ciphertext.Some? <==> calls.key && calls.derived && calls.cipherBuffer && calls.encrypted
    ensures ciphertext.None? ==> m.heap == old(m.heap) - {plaintext}
    ensures ciphertext.Some? ==> ciphertext.value !in old(m.heap)
                                 && m.heap == (old(m.heap) - {plaintext})[ciphertext.value := len + MAC_LEN]
  {
    var key := m.SecureAlloc(KEY_LEN, calls.key);
    if key.None? {
      m.Free(plaintext);
      return None;
    }
    if !calls.derived {
      m.SecureFree(key.value, KEY_LEN);
      m.Free(plaintext);
      return None;
    }
    ciphertext := m.Malloc(len + MAC_LEN, calls.cipherBuffer);
    if ciphertext.None? {
      m.SecureFree(key.value, KEY_LEN);
      m.Free(plaintext);
      return None;
    }
    m.SecureFree(key.value, KEY_LEN);
    m.Free(plaintext);
    if !calls.encrypted {
      m.Free(ciphertext.value);
      return None;
    }
  }

  /** The last part of both operations: the name's block and the data's are freed. */
  method WriteOut(m: Machine, path: string, bytes: Bytestring, name: nat, data: nat, create: bool, written: bool)
    returns (ok: bool)
    requires m.Valid() && name in m.heap && data in m.heap && name != data
    modifies m`heap, m`files
    ensures m.Valid() && m.heap == old(m.heap) - {name, data}
    ensures ok <==> create && written
    ensures m.files == Output(old(m.files), path, bytes, create, written)
  {
    if !create {
      m.Free(name);
      m.Free(data);
      return false;
    }
    m.WriteFile(path, bytes);
    m.Free(data);
    if !written {
      m.Unlink(path);
    }
    m.Free(name);
    ok := written;
  }

  // ---- Decrypting ----

  datatype DecryptCalls = DecryptCalls(opens: bool, read: bool, cipherBuffer: bool, bodyRead: bool, key: bool,
                                       derived: bool, plainBuffer: bool, pathBuffer: bool, create: bool, written: bool)

  /** cryptic_decrypt_file. */
  method DecryptFile(m: Machine, c: Suite, path: string, pw: string, calls: DecryptCalls) returns (ok: bool)
    requires m.Valid()
    modifies m
    ensures m.Valid() && m.heap == old(m.heap) && m.secure == old(m.secure)
    ensures var prepared := calls.opens && calls.read && calls.cipherBuffer && calls.bodyRead && calls.key && calls.derived
                            && calls.plainBuffer && calls.pathBuffer;
            var ready := prepared && path in old(m.files) && Decrypted(c, pw, old(m.files)[path]).Some? && calls.create;
            && (ok <==> ready && calls.written)
            && (!ready ==> m.files == old(m.files))
            && (ready && !ok ==> m.files == old(m.files) - {PlainPath(path)})
            && (ok ==> m.files == old(m.files)[PlainPath(path) := Decrypted(c, pw, old(m.files)[path]).value])
  {
    if !calls.opens || path !in m.files || |m.files[path]| < SZENC_HEADER_LEN + MAC_LEN || !calls.read {
      return false;
    }
    var file := m.files[path];
    var salt, nonce, text := file[..SALT_LEN], file[SALT_LEN..SZENC_HEADER_LEN], file[SZENC_HEADER_LEN..];
    var ciphertext := m.Malloc(|text|, calls.cipherBuffer);
    if ciphertext.None? {
      return false;
    }
    if !calls.bodyRead {
      m.Free(ciphertext.value);
      return false;
    }
    assert m.heap - {ciphertext.value} == old(m.heap);
    var plain, plaintext := OpenText(m, c, pw, salt, nonce, text, ciphertext.value, calls);
    if plain.None? {
      return false;
    }
    assert m.heap - {plaintext.value} == old(m.heap) && plaintext.value in m.heap;
    var outPath := m.Malloc(|PlainPath(path)| + 1, calls.pathBuffer);
    if outPath.None? {
      m.Free(plaintext.value);
      return false;
    }
    ok := WriteOut(m, PlainPath(path), plain.value, outPath.value, plaintext.value, calls.create, calls.written);
  }

  method OpenText(m: Machine, c: Suite, pw: string, salt: Bytestring, nonce: Bytestring, text: Bytestring, ciphertext: nat,
                  calls: DecryptCalls)
    returns (plain: Option<Bytestring>, plaintext: Option<nat>)
    requires m.Valid() && ciphertext in m.heap
    modifies m`heap, m`secure, m`next
    ensures m.Valid() && m.secure == old(m.secure)
    ensures plain == if calls.key && calls.derived && calls.plainBuffer then c.decrypt(c.derive(pw, salt), nonce, text) else None
    ensures plain.None? ==> m.heap == old(m.heap) - {ciphertext}
    ensures plain.Some? ==> plaintext.Some? && plaintext.value !in old(m.heap)
                            && m.heap == (old(m.heap) - {ciphertext})[plaintext.value := |text|]
  {
    plain, plaintext := None, None;
    var key := m.SecureAlloc(KEY_LEN, calls.key);
    if key.None? {
      m.Free(ciphertext);
      return;
    }
    if !calls.derived {
      m.SecureFree(key.value, KEY_LEN);
      m.Free(ciphertext);
      return;
    }
    plaintext := m.Malloc(|text|, calls.plainBuffer);
    if plaintext.None? {
      m.SecureFree(key.value, KEY_LEN);
      m.Free(ciphertext);
      return;
    }
    plain := c.decrypt(c.derive(pw, salt), nonce, text);
    m.SecureFree(key.value, KEY_LEN);
    m.Free(ciphertext);
    if plain.None? {
      m.Free(plaintext.value);
    }
  }

  // ---- There and back ----

  /** Whatever happens to the other files in between, the original one included, decrypting the output with
      the same password puts the original content back under the original name. */
  lemma RoundTrip(c: Suite, path: string, pw: string, salt: Bytestring, nonce: Bytestring,
                  before: map<string, Bytestring>, between: map<string, Bytestring>)
    requires c.Lawful() && |salt| == SALT_LEN && |nonce| == NONCE_LEN && path != "" && path in before
    requires var out := path + EXTENSION;
             out in between && between[out] ==
               Output(before, out, Encrypted(c, pw, salt, nonce, before[path]), true, true)[out]
    ensures var out := path + EXTENSION;
            && Decrypted(c, pw, between[out]) == Some(before[path])
            && Output(between, PlainPath(out), Decrypted(c, pw, between[out]).value, true, true) == between[path := before[path]]
  {
    DecryptedOfEncrypted(c, pw, salt, nonce, before[path]);
    PlainPathOfOutput(path);
  }
}
