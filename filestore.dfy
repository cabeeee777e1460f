/**
 * An abstract model of the operating-system services the allocator relies on:
 * a store of named files, the table of open descriptors (each with its file
 * offset) and the live shared mappings.  Addresses are not modelled: a mapping
 * is identified by the file it shows and its length, and a store through a
 * shared mapping is a write to the file itself.
 */
module FileStore {

  newtype Byte = b: int | 0 <= b < 256

  /** Every failure of the modelled code is one error outcome. */
  datatype Result<T> = Success(value: T) | Failure

  /** A nullable pointer. */
  datatype Option<T> = None | Some(value: T)

  /** An open descriptor: the file it refers to and its current offset. */
  datatype Descriptor = Descriptor(path: string, offset: nat)

  /** A live shared mapping of the first `length` bytes of file `path`. */
  datatype Span = Span(path: string, length: nat)

  /**
   * The bytes of `buf` after `bytes` is written at offset `off`, as write(2)
   * or a store through a shared mapping does; a write that runs past the end
   * extends the file.
   */
  function Overwrite(buf: seq<Byte>, off: nat, bytes: seq<Byte>): (r: seq<Byte>)
    requires off <= |buf|
    ensures |r| == if off + |bytes| <= |buf| then |buf| else off + |bytes|
    ensures forall k :: 0 <= k < off ==> r[k] == buf[k]
    ensures forall k :: off <= k < off + |bytes| ==> r[k] == bytes[k - off]
    ensures forall k :: off + |bytes| <= k < |buf| ==> r[k] == buf[k]
  {
    if off + |bytes| <= |buf| then buf[..off] + bytes + buf[off + |bytes|..]
    else buf[..off] + bytes
  }

  /** The bytes of [a, b) below the written range are kept. */
  lemma OverwriteKeepsBelow(buf: seq<Byte>, off: nat, bytes: seq<Byte>, a: nat, b: nat)
    requires off <= |buf| && a <= b <= off
    ensures Overwrite(buf, off, bytes)[a..b] == buf[a..b]
  {
    var r := Overwrite(buf, off, bytes);
    assert forall k :: 0 <= k < b - a ==> r[a..b][k] == r[a + k];
  }

  /** The written range holds `bytes`. */
  lemma OverwriteWrites(buf: seq<Byte>, off: nat, bytes: seq<Byte>)
    requires off <= |buf|
    ensures Overwrite(buf, off, bytes)[off..off + |bytes|] == bytes
  {
    var w := Overwrite(buf, off, bytes)[off..off + |bytes|];
    assert forall k :: 0 <= k < |bytes| ==> w[k] == bytes[k];
  }

  /** The bytes of [a, b) above the written range are kept. */
  lemma OverwriteKeepsAbove(buf: seq<Byte>, off: nat, bytes: seq<Byte>, a: nat, b: nat)
    requires off <= |buf| && off + |bytes| <= a <= b <= |buf|
    ensures Overwrite(buf, off, bytes)[a..b] == buf[a..b]
  {
    var r := Overwrite(buf, off, bytes);
    assert forall k :: 0 <= k < b - a ==> r[a..b][k] == r[a + k];
  }

  /** The contents of `path`, or the empty file if it does not exist yet. */
  function Prior(files: map<string, seq<Byte>>, path: string): seq<Byte>
  {
    if path in files then files[path] else []
  }

  class FileSystem {
    var files: map<string, seq<Byte>>
    var fds: map<nat, Descriptor>
    var nextFd: nat
    var mappings: multiset<Span>

    /** Descriptors refer to existing files at an offset within them; mappings lie within their files. */
    ghost predicate Valid()
      reads this
    {
      (forall fd :: fd in fds ==>
        fd < nextFd && fds[fd].path in files && fds[fd].offset <= |files[fds[fd].path]|) &&
      (forall s :: s in mappings ==> s.path in files && s.length <= |files[s.path]|)
    }

    constructor (initial: map<string, seq<Byte>>)
      ensures Valid()
      ensures files == initial && fds == map[] && mappings == multiset{}
    {
      files := initial;
      fds := map[];
      nextFd := 0;
      mappings := multiset{};
    }

    /**
     * open(path, O_RDWR|O_CREAT|O_EXCL): fails when the file exists, or for
     * any other reason the environment decides (`succeeds` is false:
     * permissions, a missing directory, no descriptor left); otherwise
     * creates the file empty.
     */
    method CreateExclusive(path: string, succeeds: bool) returns (r: Result<nat>)
      requires Valid()
      modifies this
      ensures Valid()
      ensures r.Failure? <==> path in old(files) || !succeeds
      ensures r.Failure? ==> files == old(files) && fds == old(fds)
      ensures r.Success? ==>
        r.value !in old(fds) && files == old(files)[path := []] &&
        fds == old(fds)[r.value := Descriptor(path, 0)]
      ensures mappings == old(mappings)
    {
      if path in files || !succeeds {
        r := Failure;
      } else {
        r := Success(nextFd);
        files := files[path := []];
        fds := fds[nextFd := Descriptor(path, 0)];
        nextFd := nextFd + 1;
      }
    }

    /** open(path, O_RDWR): fails when the file does not exist, or when the environment refuses it. */
    method OpenExisting(path: string, succeeds: bool) returns (r: Result<nat>)
      requires Valid()
      modifies this
      ensures Valid()
      ensures r.Failure? <==> path !in old(files) || !succeeds
      ensures r.Failure? ==> fds == old(fds)
      ensures r.Success? ==> r.value !in old(fds) && fds == old(fds)[r.value := Descriptor(path, 0)]
      ensures files == old(files) && mappings == old(mappings)
    {
      if path in files && succeeds {
        r := Success(nextFd);
        fds := fds[nextFd := Descriptor(path, 0)];
        nextFd := nextFd + 1;
      } else {
        r := Failure;
      }
    }

    /** close(fd); closing a descriptor that is not open changes nothing. */
    method Close(fd: nat)
      requires Valid()
      modifies this
      ensures Valid()
      ensures fds == old(fds) - {fd}
      ensures files == old(files) && mappings == old(mappings)
    {
      fds := fds - {fd};
    }

    /** lseek(fd, 0, SEEK_END): moves the offset to the end and returns it. */
    method SeekEnd(fd: nat) returns (off: nat)
      requires Valid() && fd in fds
      modifies this
      ensures Valid()
      ensures fds == old(fds)[fd := Descriptor(old(fds[fd].path), off)]
      ensures off == |files[fds[fd].path]|
      ensures files == old(files) && mappings == old(mappings)
    {
      off := |files[fds[fd].path]|;
      fds := fds[fd := Descriptor(fds[fd].path, off)];
    }

    /** lseek(fd, 0, SEEK_SET). */
    method SeekStart(fd: nat)
      requires Valid() && fd in fds
      modifies this
      ensures Valid()
      ensures fds == old(fds)[fd := Descriptor(old(fds[fd].path), 0)]
      ensures files == old(files) && mappings == old(mappings)
    {
      fds := fds[fd := Descriptor(fds[fd].path, 0)];
    }

    /**
     * write(fd, buf, |buf|).  Whether the call succeeds is decided by the
     * environment (`succeeds`); a successful write is complete.
     */
    method Write(fd: nat, buf: seq<Byte>, succeeds: bool) returns (ok: bool)
      requires Valid() && fd in fds
      modifies this
      ensures Valid()
      ensures ok == succeeds
      ensures var d := old(fds[fd]);
        if ok then
          files == old(files)[d.path := Overwrite(old(files[d.path]), d.offset, buf)] &&
          fds == old(fds)[fd := Descriptor(d.path, d.offset + |buf|)]
        else
          files == old(files) && fds == old(fds)
      ensures mappings == old(mappings)
    {
      ok := succeeds;
      if ok {
        var d := fds[fd];
        var after := Overwrite(files[d.path], d.offset, buf);
        files := files[d.path := after];
        fds := fds[fd := Descriptor(d.path, d.offset + |buf|)];
      }
    }

    /** mmap(0, length, PROT_READ|PROT_WRITE, MAP_SHARED, fd, 0). */
    method Map(fd: nat, length: nat) returns (span: Span)
      requires Valid() && fd in fds && length <= |files[fds[fd].path]|
      modifies this
      ensures Valid()
      ensures span == Span(old(fds[fd].path), length)
      ensures mappings == old(mappings) + multiset{span}
      ensures files == old(files) && fds == old(fds)
    {
      span := Span(fds[fd].path, length);
      mappings := mappings + multiset{span};
    }

    /** munmap: removes one occurrence of the mapping; unmapping nothing is harmless. */
    method Unmap(span: Span)
      requires Valid()
      modifies this
      ensures Valid()
      ensures mappings == old(mappings) - multiset{span}
      ensures files == old(files) && fds == old(fds)
    {
      mappings := mappings - multiset{span};
    }

    /** A store of `bytes` at offset `off` through the live mapping `span`: it changes the file. */
    method Store(span: Span, off: nat, bytes: seq<Byte>)
      requires Valid() && span in mappings && off + |bytes| <= span.length
      modifies this
      ensures Valid()
      ensures files == old(files)[span.path := Overwrite(old(files[span.path]), off, bytes)]
      ensures |files[span.path]| == |old(files[span.path])|
      ensures fds == old(fds) && mappings == old(mappings)
    {
      files := files[span.path := Overwrite(files[span.path], off, bytes)];
    }
  }
}
