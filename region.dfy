/**
 * The untyped layer of the allocator: growing a file to a requested length
 * (resize), opening or creating it (open), and the two region classes,
 * memory<SIZE> (length fixed by the type) and alloc (length given at run
 * time), that map the file and remember the initialised boundary: the number
 * of leading bytes of the requested region that the file already held,
 * min(prior size, n), or the whole prior size when n == 0.
 */
module Persistent {
  import opened FileStore

  /** The boundary resize(fd, n) reports for a file of `prior` bytes: n == 0 means "the current size". */
  function Boundary(prior: nat, n: nat): (b: nat)
    ensures b <= prior
    ensures n == 0 ==> b == prior
    ensures n > 0 ==> b <= n && (b == prior || b == n)
  {
    var m := if n == 0 then prior else n;
    if prior < m then prior else m
  }

  /** The file length after resize(fd, n): grown to `n` when shorter, otherwise kept. */
  function GrownLength(prior: nat, n: nat): (len: nat)
    ensures prior <= len && n <= len
    ensures len == prior || len == n
  {
    if prior < n then n else prior
  }

  /**
   * `after` is `before` grown append-only by resize(fd, n).  The appended
   * bytes come from an uninitialised buffer, so nothing is said about them.
   */
  ghost predicate Resized(before: seq<Byte>, n: nat, after: seq<Byte>)
  {
    |after| == GrownLength(|before|, n) && after[..|before|] == before
  }

  /**
   * A file that resize(fd, n) has grown for n > 0 is long enough: resizing it
   * again for n writes nothing and reports every one of the n bytes as
   * initialised.
   */
  lemma ResizeAgainFindsAllInitialized(before: seq<Byte>, n: nat, after: seq<Byte>)
    requires n > 0 && Resized(before, n, after)
    ensures GrownLength(|after|, n) == |after|
    ensures Boundary(|after|, n) == n
  {
  }

  /**
   * open(file, n) fails: the system call that yields the descriptor is
   * refused, there is no file to open, or the write that grows it fails.
   */
  predicate OpenFails(files: map<string, seq<Byte>>, file: string, n: nat, openSucceeds: bool, writeSucceeds: bool)
  {
    !openSucceeds || (n == 0 && file !in files) || (|Prior(files, file)| < n && !writeSucceeds)
  }

  /**
   * The files after open(file, n): on success only `file` changed, grown by
   * resize; on failure a file that the exclusive create made stays, empty.
   */
  ghost predicate OpenedFiles(before: map<string, seq<Byte>>, file: string, n: nat, openSucceeds: bool,
                              succeeded: bool, after: map<string, seq<Byte>>)
  {
    if succeeded then
      file in after && after == before[file := after[file]] && Resized(Prior(before, file), n, after[file])
    else
      after == if n > 0 && openSucceeds then before[file := Prior(before, file)] else before
  }

  /**
   * resize(fd, n): seeks to the end, appends n - off uninitialised bytes when
   * the file is shorter than n > 0, seeks back to the start and returns the
   * initialised boundary min(off, n), or off when n == 0.
   */
  method Resize(fs: FileSystem, fd: nat, n: nat, writeSucceeds: bool) returns (r: Result<nat>)
    requires fs.Valid() && fd in fs.fds
    modifies fs
    ensures fs.Valid()
    ensures var path := old(fs.fds[fd].path);
      var before := old(fs.files[path]);
      && (r.Failure? <==> |before| < n && !writeSucceeds)
      && path in fs.files
      && fs.files == old(fs.files)[path := fs.files[path]]
      && (n <= |before| ==> fs.files == old(fs.files))
      && (r.Success? ==>
            && Resized(before, n, fs.files[path])
            && r.value == Boundary(|before|, n)
            && r.value <= |fs.files[path]|
            && fs.fds == old(fs.fds)[fd := Descriptor(path, 0)])
      && (r.Failure? ==>
            && fs.files == old(fs.files)
            && fs.fds == old(fs.fds)[fd := Descriptor(path, |before|)])
    ensures fs.mappings == old(fs.mappings)
  {
    var off := fs.SeekEnd(fd);
    var m := n;
    if m == 0 {
      m := off;
    } else if off < m {
      // new char[m - off]: the buffer is never initialised, so its bytes are arbitrary
      assert |seq(m - off, _ => 0 as Byte)| == m - off;
      var buf: seq<Byte> :| |buf| == m - off;
      var ok := fs.Write(fd, buf, writeSucceeds);
      if !ok {
        return Failure;
      }
    }
    fs.SeekStart(fd);
    r := Success(if off < m then off else m);
  }

  /**
   * The descriptor part of open(file, n): an exclusive create is tried only
   * when n > 0; otherwise, or when it fails, the existing file is opened,
   * and failing that is an error.  `openSucceeds` is the environment's
   * verdict on both calls: for a new file the create decides, for an
   * existing one the fallback open does.
   */
  method OpenDescriptor(fs: FileSystem, file: string, n: nat, openSucceeds: bool) returns (r: Result<nat>)
    requires fs.Valid()
    modifies fs
    ensures fs.Valid()
    ensures r.Failure? <==> !openSucceeds || (n == 0 && file !in old(fs.files))
    ensures r.Failure? ==> fs.files == old(fs.files) && fs.fds == old(fs.fds)
    ensures r.Success? ==>
      && r.value !in old(fs.fds)
      && fs.fds == old(fs.fds)[r.value := Descriptor(file, 0)]
      && fs.files == old(fs.files)[file := Prior(old(fs.files), file)]
    ensures fs.mappings == old(fs.mappings)
  {
    var fd: Result<nat> := Failure;
    if n > 0 {
      fd := fs.CreateExclusive(file, openSucceeds);
    }
    if fd.Failure? {
      // the file exists (O_EXCL), or no length was asked for
      fd := fs.OpenExisting(file, openSucceeds);
    }
    r := fd;
  }

  /** What open(file, n) returns: the descriptor and the initialised boundary. */
  datatype Opened = Opened(fd: nat, init: nat)

  /**
   * open(file, n) as written: when resize throws, the descriptor that was
   * just opened is never closed, because no caller has received it yet.
   */
  method OpenAsWritten(fs: FileSystem, file: string, n: nat, openSucceeds: bool, writeSucceeds: bool) returns (r: Result<Opened>)
    requires fs.Valid()
    modifies fs
    ensures fs.Valid()
    ensures r.Failure? <==> OpenFails(old(fs.files), file, n, openSucceeds, writeSucceeds)
    ensures OpenedFiles(old(fs.files), file, n, openSucceeds, r.Success?, fs.files)
    ensures r.Failure? && n > 0 && openSucceeds ==> old(fs.fds).Keys < fs.fds.Keys
    ensures !openSucceeds ==> fs.fds == old(fs.fds)
    ensures fs.mappings == old(fs.mappings)
  {
    var fd := OpenDescriptor(fs, file, n, openSucceeds);
    if fd.Failure? {
      return Failure;
    }
    var init := Resize(fs, fd.value, n, writeSucceeds);
    if init.Failure? {
      return Failure;
    }
    r := Success(Opened(fd.value, init.value));
  }

  /**
   * open(file, n), with the descriptor closed when resize fails.  On success
   * the file holds at least n bytes, its first bytes are unchanged, and the
   * boundary is min(prior size, n), or the prior size when n == 0.
   */
  method Open(fs: FileSystem, file: string, n: nat, openSucceeds: bool, writeSucceeds: bool) returns (r: Result<Opened>)
    requires fs.Valid()
    modifies fs
    ensures fs.Valid()
    ensures r.Failure? <==> OpenFails(old(fs.files), file, n, openSucceeds, writeSucceeds)
    ensures OpenedFiles(old(fs.files), file, n, openSucceeds, r.Success?, fs.files)
    ensures n == 0 ==> fs.files == old(fs.files)
    ensures r.Success? ==>
      && r.value.init == Boundary(|Prior(old(fs.files), file)|, n)
      && (file !in old(fs.files) ==> r.value.init == 0)
      && r.value.fd !in old(fs.fds)
      && fs.fds == old(fs.fds)[r.value.fd := Descriptor(file, 0)]
    ensures r.Failure? ==> fs.fds == old(fs.fds)
    ensures fs.mappings == old(fs.mappings)
  {
    var fd := OpenDescriptor(fs, file, n, openSucceeds);
    if fd.Failure? {
      return Failure;
    }
    var init := Resize(fs, fd.value, n, writeSucceeds);
    if init.Failure? {
      fs.Close(fd.value);
      return Failure;
    }
    r := Success(Opened(fd.value, init.value));
  }

  /** A fresh store holding one empty file: open(file, 1) with a failing write leaves a descriptor open. */
  method DescriptorLeakWitness() returns (leaked: bool)
    ensures leaked
  {
    var fs := new FileSystem(map["f" := []]);
    var r := OpenAsWritten(fs, "f", 1, true, false);
    leaked := r.Failure? && fs.fds != map[];
  }

  /**
   * alloc(0, file) over a one-byte file: open(file, 0) reports the whole file
   * as the boundary while the region has size 0, so initialized() exceeds it.
   */
  method ZeroSizeAllocWitness() returns (init: nat, size: nat)
    ensures size == 0 && init == 1
  {
    var fs := new FileSystem(map["f" := [7]]);
    var a := Alloc.Create(fs, 0, "f", true, true);
    assert a.Success?;
    init, size := a.value.Initialized(), a.value.Size();
  }

  /** The mapping and boundary that the body of a sized region constructor produces. */
  datatype Mapped = Mapped(span: Span, init: nat)

  /**
   * The shared body of memory<SIZE>(file) and alloc(n, file): open the file
   * for n bytes, map exactly n bytes (even when the file is longer), and
   * close the descriptor on leaving (fd_guard); the mapping stays.
   */
  method OpenMapped(fs: FileSystem, file: string, n: nat, openSucceeds: bool, writeSucceeds: bool) returns (r: Result<Mapped>)
    requires fs.Valid()
    modifies fs
    ensures fs.Valid()
    ensures r.Failure? <==> OpenFails(old(fs.files), file, n, openSucceeds, writeSucceeds)
    ensures OpenedFiles(old(fs.files), file, n, openSucceeds, r.Success?, fs.files)
    ensures fs.fds == old(fs.fds)
    ensures r.Success? ==>
      && r.value.span == Span(file, n)
      && r.value.init == Boundary(|Prior(old(fs.files), file)|, n)
      && fs.mappings == old(fs.mappings) + multiset{Span(file, n)}
    ensures r.Failure? ==> fs.mappings == old(fs.mappings)
  {
    var o := Open(fs, file, n, openSucceeds, writeSucceeds);
    if o.Failure? {
      return Failure;
    }
    var span := fs.Map(o.value.fd, n);
    fs.Close(o.value.fd);
    assert fs.fds == old(fs.fds);
    r := Success(Mapped(span, o.value.init));
  }

  /** The number of values of the 32-bit `unsigned` type. */
  const UnsignedRange: nat := 0x1_0000_0000

  /** The mappings a region owns: its mapping, or none once it has been moved from. */
  function Owned(mapping: Option<Span>): multiset<Span>
  {
    if mapping.Some? then multiset{mapping.value} else multiset{}
  }

  /** memory<SIZE>: a region whose length SIZE is fixed by its type. */
  class Memory {
    const fs: FileSystem
    const SIZE: nat
    var mapping: Option<Span>
    var init: nat

    ghost predicate Valid()
      reads this
    {
      (mapping.Some? ==> mapping.value.length == SIZE) && (SIZE > 0 ==> init <= SIZE)
    }

    constructor Init(fs: FileSystem, SIZE: nat, mapping: Option<Span>, init: nat)
      ensures this.fs == fs && this.SIZE == SIZE && this.mapping == mapping && this.init == init
    {
      this.fs := fs;
      this.SIZE := SIZE;
      this.mapping := mapping;
      this.init := init;
    }

    /** memory<SIZE>(file): maps exactly SIZE bytes; the boundary is min(prior size, SIZE). */
    static method Create(fs: FileSystem, SIZE: nat, file: string, openSucceeds: bool, writeSucceeds: bool) returns (r: Result<Memory>)
      requires fs.Valid()
      modifies fs
      ensures fs.Valid()
      ensures r.Failure? <==> OpenFails(old(fs.files), file, SIZE, openSucceeds, writeSucceeds)
      ensures OpenedFiles(old(fs.files), file, SIZE, openSucceeds, r.Success?, fs.files)
      ensures fs.fds == old(fs.fds)
      ensures r.Success? ==>
        && fresh(r.value) && r.value.Valid()
        && r.value.fs == fs && r.value.SIZE == SIZE
        && r.value.mapping == Some(Span(file, SIZE))
        && r.value.init == Boundary(|Prior(old(fs.files), file)|, SIZE)
        && fs.mappings == old(fs.mappings) + multiset{Span(file, SIZE)}
      ensures r.Failure? ==> fs.mappings == old(fs.mappings)
    {
      var o := OpenMapped(fs, file, SIZE, openSucceeds, writeSucceeds);
      if o.Failure? {
        return Failure;
      }
      var m := new Memory.Init(fs, SIZE, Some(o.value.span), o.value.init);
      r := Success(m);
    }

    /** memory(memory&& m): takes over m's mapping and boundary; m is left holding nothing. */
    constructor Moved(m: Memory)
      requires m.Valid()
      modifies m
      ensures Valid() && m.Valid()
      ensures fs == m.fs && SIZE == m.SIZE
      ensures mapping == old(m.mapping) && init == old(m.init)
      ensures m.mapping == None && m.init == 0
      ensures Owned(mapping) + Owned(m.mapping) == old(Owned(m.mapping))
    {
      fs := m.fs;
      SIZE := m.SIZE;
      mapping := m.mapping;
      init := m.init;
      new;
      m.mapping := None;
      m.init := 0;
    }

    /** ~memory(): unmaps SIZE bytes only when the object still holds a mapping. */
    method Destroy()
      requires Valid() && fs.Valid()
      modifies fs
      ensures fs.Valid()
      ensures fs.mappings == old(fs.mappings) - Owned(mapping)
      ensures mapping == None ==> unchanged(fs)
      ensures fs.files == old(fs.files) && fs.fds == old(fs.fds)
    {
      if mapping.Some? {
        fs.Unmap(Span(mapping.value.path, SIZE));
      }
    }

    /** initialized(): the pre-existing part of the region, never more than SIZE. */
    function Initialized(): (r: nat)
      reads this
      requires Valid()
      ensures SIZE > 0 ==> r <= SIZE
    {
      init
    }
  }

  /** alloc: a region whose length is given at run time. */
  class Alloc {
    const fs: FileSystem
    var mapping: Option<Span>
    var init: nat
    var size: nat

    ghost predicate Valid()
      reads this
    {
      (mapping.Some? ==> mapping.value.length == size) && (size > 0 ==> init <= size)
    }

    constructor Init(fs: FileSystem, mapping: Option<Span>, init: nat, size: nat)
      ensures this.fs == fs && this.mapping == mapping && this.init == init && this.size == size
    {
      this.fs := fs;
      this.mapping := mapping;
      this.init := init;
      this.size := size;
    }

    /**
     * alloc(n, file): maps exactly n bytes, even when the file is longer; the
     * boundary is min(prior size, n), or the prior size when n == 0.
     */
    static method Create(fs: FileSystem, n: nat, file: string, openSucceeds: bool, writeSucceeds: bool) returns (r: Result<Alloc>)
      requires fs.Valid()
      modifies fs
      ensures fs.Valid()
      ensures r.Failure? <==> OpenFails(old(fs.files), file, n, openSucceeds, writeSucceeds)
      ensures OpenedFiles(old(fs.files), file, n, openSucceeds, r.Success?, fs.files)
      ensures fs.fds == old(fs.fds)
      ensures r.Success? ==>
        && fresh(r.value) && r.value.Valid() && r.value.fs == fs
        && r.value.size == n
        && r.value.mapping == Some(Span(file, n))
        && r.value.init == Boundary(|Prior(old(fs.files), file)|, n)
        && fs.mappings == old(fs.mappings) + multiset{Span(file, n)}
      ensures r.Failure? ==> fs.mappings == old(fs.mappings)
    {
      var o := OpenMapped(fs, file, n, openSucceeds, writeSucceeds);
      if o.Failure? {
        return Failure;
      }
      var a := new Alloc.Init(fs, Some(o.value.span), o.value.init, n);
      r := Success(a);
    }

    /**
     * alloc(file): attaches to an existing file without changing it, maps all
     * of it and counts all of it as initialised.
     */
    static method Attach(fs: FileSystem, file: string, openSucceeds: bool) returns (r: Result<Alloc>)
      requires fs.Valid()
      modifies fs
      ensures fs.Valid()
      ensures r.Failure? <==> file !in old(fs.files) || !openSucceeds
      ensures fs.files == old(fs.files) && fs.fds == old(fs.fds)
      ensures r.Success? ==>
        && fresh(r.value) && r.value.Valid() && r.value.fs == fs
        && r.value.size == |old(fs.files[file])|
        && r.value.init == r.value.size
        && r.value.mapping == Some(Span(file, r.value.size))
        && fs.mappings == old(fs.mappings) + multiset{Span(file, r.value.size)}
      ensures r.Failure? ==> fs.mappings == old(fs.mappings)
    {
      // with n == 0 resize writes nothing, so the write outcome is irrelevant
      var o := Open(fs, file, 0, openSucceeds, false);
      if o.Failure? {
        return Failure;
      }
      var size := o.value.init;
      var span := fs.Map(o.value.fd, size);
      fs.Close(o.value.fd);
      assert fs.fds == old(fs.fds);
      var a := new Alloc.Init(fs, Some(span), size, size);
      r := Success(a);
    }

    /** alloc(alloc&& m): takes over m's mapping, boundary and size; m is left holding nothing. */
    constructor Moved(m: Alloc)
      requires m.Valid()
      modifies m
      ensures Valid() && m.Valid()
      ensures fs == m.fs
      ensures mapping == old(m.mapping) && init == old(m.init) && size == old(m.size)
      ensures m.mapping == None && m.init == 0 && m.size == 0
      ensures Owned(mapping) + Owned(m.mapping) == old(Owned(m.mapping))
    {
      fs := m.fs;
      mapping := m.mapping;
      init := m.init;
      size := m.size;
      new;
      m.mapping := None;
      m.init := 0;
      m.size := 0;
    }

    /**
     * operator=(alloc&& m): swaps the three fields with m, and does nothing
     * when m is this object.  Both objects live in the one process, so they
     * share its file system.
     */
    method MoveAssign(m: Alloc)
      requires Valid() && m.Valid() && m.fs == fs
      modifies this, m
      ensures Valid() && m.Valid()
      ensures m == this ==> mapping == old(mapping) && init == old(init) && size == old(size)
      ensures m != this ==>
        && mapping == old(m.mapping) && init == old(m.init) && size == old(m.size)
        && m.mapping == old(mapping) && m.init == old(init) && m.size == old(size)
      ensures m != this ==> Owned(mapping) + Owned(m.mapping) == old(Owned(mapping) + Owned(m.mapping))
    {
      if m != this {
        mapping, m.mapping := m.mapping, mapping;
        init, m.init := m.init, init;
        size, m.size := m.size, size;
      }
    }

    /** ~alloc(): unmaps size bytes only when the object still holds a mapping. */
    method Destroy()
      requires Valid() && fs.Valid()
      modifies fs
      ensures fs.Valid()
      ensures fs.mappings == old(fs.mappings) - Owned(mapping)
      ensures mapping == None ==> unchanged(fs)
      ensures fs.files == old(fs.files) && fs.fds == old(fs.fds)
    {
      if mapping.Some? {
        fs.Unmap(Span(mapping.value.path, size));
      }
    }

    /** initialized(): the pre-existing part of the region, never more than a non-empty region. */
    function Initialized(): (r: nat)
      reads this
      requires Valid()
      ensures size > 0 ==> r <= size
    {
      init
    }

    /**
     * size(): the mapped length, returned as a 32-bit `unsigned`, so a length
     * of 4 GiB or more comes back reduced modulo 2^32.
     */
    function Size(): (r: nat)
      reads this
      ensures r < UnsignedRange && r <= size
      ensures size < UnsignedRange ==> r == size
      ensures (size - r) % UnsignedRange == 0
    {
      size % UnsignedRange
    }
  }
}
