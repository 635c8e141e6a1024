/** The resources that the crypto operations take and give back: malloc blocks, secure allocations (see
    SecureMemory) and files. Every call that can fail is told whether it does. */
module Host {
  import opened Wrappers
  import opened Bytes

  class Machine {
    var heap: map<nat, nat>
    var secure: map<nat, nat>
    var files: map<string, seq<byte>>
    var next: nat

    /** New blocks get new numbers. */
    ghost predicate Valid()
      reads this
    {
      (forall p | p in heap :: p < next) && (forall p | p in secure :: p < next)
    }

    constructor (files: map<string, seq<byte>>)
      ensures Valid() && heap == map[] && secure == map[] && this.files == files
    {
      heap, secure, next := map[], map[], 0;
      this.files := files;
    }

    method Malloc(size: nat, ok: bool) returns (p: Option<nat>)
      requires Valid()
      modifies `heap, `next
      ensures Valid()
      ensures ok ==> p == Some(old(next)) && next == old(next) + 1 && heap == old(heap)[old(next) := size]
      ensures !ok ==> p == None && next == old(next) && heap == old(heap)
    {
      if !ok {
        return None;
      }
      p := Some(next);
      heap := heap[next := size];
      next := next + 1;
    }

    /** A block is freed only while it is live, so never twice. */
    method Free(p: nat)
      requires Valid() && p in heap
      modifies `heap
      ensures Valid() && heap == old(heap) - {p}
    {
      heap := heap - {p};
    }

    /** secure_alloc refuses size zero. */
    method SecureAlloc(size: nat, ok: bool) returns (p: Option<nat>)
      requires Valid()
      modifies `secure, `next
      ensures Valid()
      ensures ok && size > 0 ==>
                p == Some(old(next)) && next == old(next) + 1 && secure == old(secure)[old(next) := size]
      ensures !(ok && size > 0) ==> p == None && next == old(next) && secure == old(secure)
    {
      if !ok || size == 0 {
        return None;
      }
      p := Some(next);
      secure := secure[next := size];
      next := next + 1;
    }

    /** secure_free, with the size the block was allocated with. */
    method SecureFree(p: nat, size: nat)
      requires Valid() && p in secure && secure[p] == size
      modifies `secure
      ensures Valid() && secure == old(secure) - {p}
    {
      secure := secure - {p};
    }

    method WriteFile(path: string, bytes: seq<byte>)
      modifies `files
      ensures files == old(files)[path := bytes]
    {
      files := files[path := bytes];
    }

    method Unlink(path: string)
      modifies `files
      ensures files == old(files) - {path}
    {
      files := files - {path};
    }
  }

  /** A FILE opened for reading: short reads and seeks past the end leave nothing to read. */
  class Reader {
    const data: seq<byte>
    var pos: nat

    constructor (data: seq<byte>)
      ensures Rest() == data
    {
      this.data, pos := data, 0;
    }

    function Rest(): seq<byte>
      reads this
    {
      if pos <= |data| then data[pos..] else []
    }

    method Read(n: nat) returns (r: Option<seq<byte>>)
      modifies this
      ensures n <= |old(Rest())| ==> r == Some(old(Rest())[..n]) && Rest() == old(Rest())[n..]
      ensures n > |old(Rest())| ==> r == None
    {
      var left := Rest();
      if n > |left| {
        return None;
      }
      r := Some(left[..n]);
      pos := pos + n;
    }

    /** fseek by SEEK_CUR. */
    method Skip(n: nat)
      modifies this
      ensures Rest() == if n <= |old(Rest())| then old(Rest())[n..] else []
    {
      pos := pos + n;
    }
  }
}
