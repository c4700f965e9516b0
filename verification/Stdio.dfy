/** The part of C's buffered file interface that xmount uses on its cache file. */
module Stdio {
  import opened Bytes

  /** The bytes after writing t at position at, growing the file when t reaches past its end. */
  function Written(s: seq<byte>, at: nat, t: seq<byte>): (r: seq<byte>)
    requires at <= |s|
    ensures |r| == if at + |t| <= |s| then |s| else at + |t|
  {
    s[..at] + t + if at + |t| <= |s| then s[at + |t|..] else []
  }

  /** A file opened for reading and writing, on a medium that holds at most `capacity` bytes of it. */
  class File {
    var data: seq<byte>
    var pos: nat
    const capacity: nat
    ghost var log: seq<seq<byte>>   // the contents after each write so far: what a crash may leave behind

    ghost predicate Valid()
      reads this
    {
      |data| <= capacity < U64
    }

    constructor (data: seq<byte>, capacity: nat)
      requires |data| <= capacity < U64
      ensures Valid() && this.data == data && this.pos == 0 && this.capacity == capacity
    {
      this.data, this.pos, this.capacity, this.log := data, 0, capacity, [];
    }

    /** fseeko(f, offset, SEEK_SET) */
    method Seek(offset: nat)
      modifies `pos
      ensures pos == offset
    {
      pos := offset;
    }

    /** fseeko(f, 0, SEEK_END); the result is what ftello then returns. */
    method SeekEnd() returns (size: nat)
      modifies `pos
      ensures pos == size == |data|
    {
      pos := |data|;
      size := pos;
    }

    /** fread(buf, n, 1, f): all n bytes or failure, and a request for 0 bytes reads no item. */
    method Read(n: nat) returns (ok: bool, buf: seq<byte>)
      modifies `pos
      ensures ok <==> n > 0 && old(pos) + n <= |data|
      ensures ok ==> pos == old(pos) + n && buf == data[old(pos)..old(pos) + n]
    {
      if n > 0 && pos + n <= |data| {
        ok, buf := true, data[pos..pos + n];
        pos := pos + n;
      } else {
        ok, buf := false, [];
      }
    }

    /** fwrite(buf, |buf|, 1, f): fails on an empty item, and on a full medium after storing what fits. */
    method Write(buf: seq<byte>) returns (ok: bool)
      requires Valid() && pos <= |data|
      modifies this
      ensures Valid() && pos <= |data|
      ensures ok <==> buf != [] && old(pos) + |buf| <= capacity
      ensures ok ==> data == Written(old(data), old(pos), buf) && pos == old(pos) + |buf|
      ensures !ok && buf == [] ==> data == old(data) && log == old(log)
      ensures buf != [] ==> log == old(log) + [data]
      ensures !ok && buf != [] ==> data == Written(old(data), old(pos), buf[..capacity - old(pos)])
    {
      if buf == [] {
        ok := false;
      } else if pos + |buf| <= capacity {
        data, pos, ok := Written(data, pos, buf), pos + |buf|, true;
        log := log + [data];
      } else {
        data, pos, ok := Written(data, pos, buf[..capacity - pos]), capacity, false;
        log := log + [data];
      }
    }
  }
}
