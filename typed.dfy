/**
 * The typed views over a region: object<T>, one value of sizeof(T) bytes,
 * and array<T>, a run of sizeof(T)-byte slots.  An element type is known here
 * only by its size `S`, and constructing an element T(args...) in slot i is
 * writing an S-byte pattern `v` over bytes [i * S, (i + 1) * S) of the mapped
 * file.
 */
module PersistentTyped {
  import opened FileStore
  import opened Persistent

  /**
   * The offset of slot i in a run of s-byte slots, counted slot by slot;
   * SlotStartIsProduct shows it is i * s.
   */
  function SlotStart(i: nat, s: nat): nat
  {
    if i == 0 then 0 else SlotStart(i - 1, s) + s
  }

  lemma {:induction false} SlotStartIsProduct(i: nat, s: nat)
    ensures SlotStart(i, s) == i * s
  {
    if i > 0 {
      SlotStartIsProduct(i - 1, s);
      assert (i - 1) * s + s == i * s;
    }
  }

  /** For i < j, slot i ends no later than slot j starts. */
  lemma {:induction false} SlotsOrdered(i: nat, j: nat, s: nat)
    requires i < j
    ensures SlotStart(i, s) + s <= SlotStart(j, s)
    decreases j
  {
    if i + 1 < j {
      SlotsOrdered(i, j - 1, s);
    }
  }

  /** All n slots end at or before the start of slot n. */
  lemma SlotsWithin(n: nat, s: nat)
    ensures forall i :: 0 <= i < n ==> SlotStart(i, s) + s <= SlotStart(n, s)
  {
    forall i | 0 <= i < n
      ensures SlotStart(i, s) + s <= SlotStart(n, s)
    {
      SlotsOrdered(i, n, s);
    }
  }

  lemma SlotStartMono(i: nat, j: nat, s: nat)
    requires i <= j
    ensures SlotStart(i, s) <= SlotStart(j, s)
  {
    if i < j {
      SlotsOrdered(i, j, s);
    }
  }

  lemma MulLe(a: nat, b: nat, s: nat)
    requires a <= b
    ensures a * s <= b * s
  {
  }

  lemma MulStep(i: nat, s: nat)
    ensures (i + 1) * s == i * s + s
  {
  }

  /** Integer division rounds down: q is x / s when q * s <= x < (q + 1) * s. */
  lemma DivUnique(x: nat, s: nat, q: nat)
    requires s > 0 && q * s <= x < q * s + s
    ensures x / s == q
  {
    var d, r := x / s, x % s;
    assert x == d * s + r && 0 <= r < s;
    if d < q {
      MulLe(d + 1, q, s);
      MulStep(d, s);
    } else if d > q {
      MulLe(q + 1, d, s);
      MulStep(q, s);
    }
  }

  /** The number of whole s-byte slots in b bytes, counted slot by slot. */
  function SlotsBelow(b: nat, s: nat): nat
    requires s > 0
    decreases b
  {
    if b < s then 0 else SlotsBelow(b - s, s) + 1
  }

  /** The SlotsBelow(b, s) whole slots fit in b bytes, and one more does not. */
  lemma {:induction false} SlotsBelowBounds(b: nat, s: nat)
    requires s > 0
    ensures SlotStart(SlotsBelow(b, s), s) <= b < SlotStart(SlotsBelow(b, s), s) + s
    decreases b
  {
    if b >= s {
      SlotsBelowBounds(b - s, s);
    }
  }

  /** Any q with slot q starting at or below b and ending above it is SlotsBelow(b, s). */
  lemma SlotsBelowUnique(b: nat, s: nat, q: nat)
    requires s > 0 && SlotStart(q, s) <= b < SlotStart(q, s) + s
    ensures SlotsBelow(b, s) == q
  {
    var p := SlotsBelow(b, s);
    SlotsBelowBounds(b, s);
    if p < q {
      SlotsOrdered(p, q, s);
    } else if q < p {
      SlotsOrdered(q, p, s);
    }
  }

  /** SlotsBelow is the floor division the source performs. */
  lemma SlotsBelowIsDiv(b: nat, s: nat)
    requires s > 0
    ensures SlotsBelow(b, s) == b / s
  {
    var q := SlotsBelow(b, s);
    SlotsBelowBounds(b, s);
    SlotStartIsProduct(q, s);
    DivUnique(b, s, q);
  }

  /** Slot m starts at a slot boundary, so exactly m slots lie below it. */
  lemma SlotsBelowStart(m: nat, s: nat)
    requires s > 0
    ensures SlotsBelow(SlotStart(m, s), s) == m
  {
    SlotsBelowUnique(SlotStart(m, s), s, m);
  }

  /** n * s, the byte length of n slots of s bytes. */
  method SlotBytes(n: nat, s: nat) returns (t: nat)
    ensures t == SlotStart(n, s)
  {
    SlotStartIsProduct(n, s);
    t := n * s;
  }

  /** b / s, the number of whole s-byte slots in b bytes. */
  method WholeSlots(b: nat, s: nat) returns (q: nat)
    requires s > 0
    ensures q == SlotsBelow(b, s)
  {
    SlotsBelowIsDiv(b, s);
    q := b / s;
  }

  /** The bytes of slot i of `buf`. */
  function Slot(buf: seq<Byte>, i: nat, s: nat): seq<Byte>
    requires SlotStart(i, s) + s <= |buf|
  {
    buf[SlotStart(i, s)..SlotStart(i, s) + s]
  }

  /** Slot i of `buf` holds the pattern `v`. */
  ghost predicate SlotHolds(buf: seq<Byte>, i: nat, v: seq<Byte>)
  {
    SlotStart(i, |v|) + |v| <= |buf| && Slot(buf, i, |v|) == v
  }

  /**
   * The bytes of `buf` after the construction loop has written the pattern
   * `v` into every slot i with from <= i < upTo, in increasing order of i.
   */
  function ConstructSlots(buf: seq<Byte>, from: nat, upTo: nat, v: seq<Byte>): (r: seq<Byte>)
    requires SlotStart(upTo, |v|) <= |buf|
    ensures |r| == |buf|
    decreases upTo
  {
    if upTo <= from then buf
    else Overwrite(ConstructSlots(buf, from, upTo - 1, v), SlotStart(upTo - 1, |v|), v)
  }

  /** One more turn of the construction loop writes the pattern into slot i. */
  lemma ConstructStep(buf: seq<Byte>, from: nat, i: nat, n: nat, v: seq<Byte>)
    requires SlotStart(n, |v|) <= |buf| && from <= i < n
    ensures SlotStart(i, |v|) + |v| <= SlotStart(n, |v|)
    ensures ConstructSlots(buf, from, i + 1, v) == Overwrite(ConstructSlots(buf, from, i, v), SlotStart(i, |v|), v)
  {
    SlotsOrdered(i, n, |v|);
  }

  /** Every slot the loop visits holds the constructed pattern. */
  lemma {:induction false} ConstructedSlot(buf: seq<Byte>, from: nat, upTo: nat, v: seq<Byte>, i: nat)
    requires SlotStart(upTo, |v|) <= |buf| && from <= i < upTo
    ensures SlotHolds(ConstructSlots(buf, from, upTo, v), i, v)
    decreases upTo
  {
    var s := |v|;
    var off := SlotStart(upTo - 1, s);
    var inner := ConstructSlots(buf, from, upTo - 1, v);
    ConstructStep(buf, from, upTo - 1, upTo, v);
    if i < upTo - 1 {
      ConstructedSlot(buf, from, upTo - 1, v, i);
      SlotsOrdered(i, upTo - 1, s);
      OverwriteKeepsBelow(inner, off, v, SlotStart(i, s), SlotStart(i, s) + s);
    } else {
      OverwriteWrites(inner, off, v);
    }
  }

  /** The bytes below slot `from` are left as they were. */
  lemma {:induction false} PrefixKept(buf: seq<Byte>, from: nat, upTo: nat, v: seq<Byte>)
    requires SlotStart(upTo, |v|) <= |buf| && from <= upTo
    ensures SlotStart(from, |v|) <= |buf|
    ensures ConstructSlots(buf, from, upTo, v)[..SlotStart(from, |v|)] == buf[..SlotStart(from, |v|)]
    decreases upTo
  {
    SlotStartMono(from, upTo, |v|);
    if from < upTo {
      var off := SlotStart(upTo - 1, |v|);
      var inner := ConstructSlots(buf, from, upTo - 1, v);
      ConstructStep(buf, from, upTo - 1, upTo, v);
      PrefixKept(buf, from, upTo - 1, v);
      SlotStartMono(from, upTo - 1, |v|);
      OverwriteKeepsBelow(inner, off, v, 0, SlotStart(from, |v|));
    }
  }

  /** Bytes at or beyond slot `upTo` are left as they were. */
  lemma {:induction false} UntouchedAbove(buf: seq<Byte>, from: nat, upTo: nat, v: seq<Byte>, k: nat)
    requires SlotStart(upTo, |v|) <= k < |buf|
    ensures ConstructSlots(buf, from, upTo, v)[k] == buf[k]
    decreases upTo
  {
    if from < upTo {
      var off := SlotStart(upTo - 1, |v|);
      UntouchedAbove(buf, from, upTo - 1, v, k);
      assert off + |v| <= k;
    }
  }

  /**
   * The file `after` that array(n, file) leaves behind when the file held
   * `prior`: with from == min(|prior|, n * S) / S, every byte below slot from
   * is kept, slots from .. n - 1 hold the pattern, and every byte at or
   * beyond n * S is kept.
   */
  ghost predicate ArrayLayout(prior: seq<Byte>, after: seq<Byte>, n: nat, v: seq<Byte>)
    requires |v| > 0
  {
    var total := SlotStart(n, |v|);
    var from := SlotsBelow(Boundary(|prior|, total), |v|);
    && SlotStart(from, |v|) <= |prior|
    && |after| == GrownLength(|prior|, total)
    && (forall k :: 0 <= k < SlotStart(from, |v|) ==> after[k] == prior[k])
    && (forall i :: from <= i < n ==> SlotHolds(after, i, v))
    && (forall k :: total <= k < |after| ==> after[k] == prior[k])
  }

  /** The construction loop of array(n, file), run over the grown file, yields that layout. */
  lemma {:induction false} ConstructionLayout(prior: seq<Byte>, grown: seq<Byte>, n: nat, v: seq<Byte>)
    requires |v| > 0 && Resized(prior, SlotStart(n, |v|), grown)
    ensures SlotStart(n, |v|) <= |grown|
    ensures ArrayLayout(prior, ConstructSlots(grown, SlotsBelow(Boundary(|prior|, SlotStart(n, |v|)), |v|), n, v), n, v)
  {
    var s := |v|;
    var b := Boundary(|prior|, SlotStart(n, s));
    var from := SlotsBelow(b, s);
    SlotsBelowBounds(b, s);
    var after := ConstructSlots(grown, from, n, v);
    var lo := SlotStart(from, s);
    if from <= n {
      PrefixKept(grown, from, n, v);
    } else {
      assert after == grown;
    }
    forall k | 0 <= k < lo
      ensures after[k] == prior[k]
    {
      assert after[k] == after[..lo][k];
      assert grown[..|prior|][k] == prior[k];
    }
    forall i | from <= i < n
      ensures SlotHolds(after, i, v)
    {
      ConstructedSlot(grown, from, n, v, i);
    }
    forall k | SlotStart(n, s) <= k < |after|
      ensures after[k] == prior[k]
    {
      UntouchedAbove(grown, from, n, v, k);
      assert grown[..|prior|][k] == prior[k];
    }
  }

  /**
   * Reopening an array file of exactly m slots as array(n, file) with m <= n:
   * every stored byte, and so each of the m stored elements whatever it
   * holds, survives, and exactly the new slots m .. n - 1 are constructed.
   */
  lemma {:induction false} ReopenConstructsOnlyTail(prior: seq<Byte>, after: seq<Byte>, m: nat, n: nat, v: seq<Byte>)
    requires |v| > 0 && m <= n && |prior| == SlotStart(m, |v|)
    requires ArrayLayout(prior, after, n, v)
    ensures |after| == SlotStart(n, |v|)
    ensures after[..|prior|] == prior
    ensures forall i :: 0 <= i < m ==>
      SlotStart(i, |v|) + |v| <= |prior| && Slot(after, i, |v|) == Slot(prior, i, |v|)
    ensures forall i :: m <= i < n ==> SlotHolds(after, i, v)
  {
    var s := |v|;
    SlotStartMono(m, n, s);
    SlotsBelowStart(m, s);
    assert SlotsBelow(Boundary(|prior|, SlotStart(n, s)), s) == m;
    assert after[..|prior|] == prior;
    forall i | 0 <= i < m
      ensures SlotStart(i, s) + s <= |prior| && Slot(after, i, s) == Slot(prior, i, s)
    {
      SlotsOrdered(i, m, s);
      var a := SlotStart(i, s);
      assert after[a..a + s] == prior[a..a + s];
    }
  }

  /**
   * The loop of array(n, file, args...): for i from `from` while i < n,
   * construct T(args...) in slot i, at _po + i, through the mapping `span`.
   */
  method ConstructInPlace(fs: FileSystem, span: Span, from: nat, n: nat, v: seq<Byte>)
    requires fs.Valid() && span in fs.mappings && SlotStart(n, |v|) <= span.length
    modifies fs
    ensures fs.Valid()
    ensures SlotStart(n, |v|) <= |old(fs.files[span.path])|
    ensures fs.files == old(fs.files)[span.path := ConstructSlots(old(fs.files[span.path]), from, n, v)]
    ensures fs.fds == old(fs.fds) && fs.mappings == old(fs.mappings)
  {
    ghost var start := fs.files;
    ghost var buf := fs.files[span.path];
    if from <= n {
      SlotStartMono(from, n, |v|);
    }
    var i := from;
    var off := SlotBytes(from, |v|);
    while i < n
      invariant from <= i && (from <= n ==> i <= n) && off == SlotStart(i, |v|)
      invariant i <= n ==> off <= SlotStart(n, |v|)
      invariant fs.Valid() && fs.fds == old(fs.fds) && fs.mappings == old(fs.mappings)
      invariant i <= n ==> fs.files == start[span.path := ConstructSlots(buf, from, i, v)]
      invariant n < i ==> fs.files == start
    {
      ConstructStep(buf, from, i, n, v);
      fs.Store(span, off, v);
      i, off := i + 1, off + |v|;
    }
  }

  /**
   * A 4 GiB file attached as an array of 1-byte elements: as written it shows
   * no elements at all, while the corrected attach shows all 2^32 of them.
   */
  method AttachTruncationWitness() returns (asWritten: nat, corrected: nat)
    ensures asWritten == 0 && corrected == UnsignedRange
  {
    var fs := new FileSystem(map["f" := seq(UnsignedRange, _ => 0 as Byte)]);
    var a := Array.AttachAsWritten(fs, "f", 1, true);
    var b := Array.Attach(fs, "f", 1, true);
    assert a.Success? && b.Success?;
    asWritten, corrected := a.value.Size(), b.value.Size();
  }

  /** object<T>: one value of SIZE == sizeof(T) bytes at the start of a memory<sizeof(T)> region. */
  class Object {
    const base: Memory

    ghost predicate Valid()
      reads this, base, base.fs
    {
      && base.SIZE > 0 && base.Valid() && base.fs.Valid()
      && base.mapping.Some? && base.mapping.value in base.fs.mappings
    }

    constructor Init(base: Memory)
      ensures this.base == base
    {
      this.base := base;
    }

    /** *object: the value held in the mapped bytes, the first sizeof(T) bytes of the file. */
    function Value(): (v: seq<Byte>)
      reads this, base, base.fs
      requires Valid()
      ensures |v| == base.SIZE
      ensures v <= base.fs.files[base.mapping.value.path]
    {
      base.fs.files[base.mapping.value.path][..base.SIZE]
    }

    /**
     * object<T>(file, args...): opens a memory<sizeof(T)> region and constructs
     * T(args...) only when the boundary is below sizeof(T), that is when the
     * file held fewer than sizeof(T) bytes; otherwise the stored value is kept.
     */
    static method Create(fs: FileSystem, file: string, v: seq<Byte>, openSucceeds: bool, writeSucceeds: bool)
      returns (r: Result<Object>)
      requires fs.Valid() && |v| > 0
      modifies fs
      ensures fs.Valid()
      ensures r.Failure? <==> OpenFails(old(fs.files), file, |v|, openSucceeds, writeSucceeds)
      ensures r.Failure? ==> OpenedFiles(old(fs.files), file, |v|, openSucceeds, false, fs.files) && fs.mappings == old(fs.mappings)
      ensures fs.fds == old(fs.fds)
      ensures r.Success? ==>
        var prior := Prior(old(fs.files), file);
        && fresh(r.value) && fresh(r.value.base) && r.value.Valid()
        && r.value.base.fs == fs && r.value.base.SIZE == |v|
        && r.value.base.mapping == Some(Span(file, |v|))
        && (r.value.base.Initialized() < |v| <==> |prior| < |v|)
        && fs.files == old(fs.files)[file := if |prior| < |v| then v else prior]
        && r.value.Value() == (if |prior| < |v| then v else prior[..|v|])
        && fs.mappings == old(fs.mappings) + multiset{Span(file, |v|)}
    {
      ghost var prior := Prior(fs.files, file);
      var m := Memory.Create(fs, |v|, file, openSucceeds, writeSucceeds);
      if m.Failure? {
        return Failure;
      }
      var obj := new Object.Init(m.value);
      ghost var grown := fs.files[file];
      if m.value.Initialized() < |v| {
        // new(_po) T(args...)
        fs.Store(m.value.mapping.value, 0, v);
        assert fs.files[file] == v;
      } else {
        assert grown == grown[..|prior|];
      }
      r := Success(obj);
    }
  }

  /** array<T>: `size` slots of `elemSize` == sizeof(T) bytes over an alloc region. */
  class Array {
    const base: Alloc
    const elemSize: nat
    const size: nat

    ghost predicate Valid()
      reads this, base, base.fs
    {
      && elemSize > 0 && base.Valid() && base.fs.Valid()
      && base.mapping.Some? && base.mapping.value in base.fs.mappings
      && SlotStart(size, elemSize) <= base.size
    }

    constructor Init(base: Alloc, elemSize: nat, size: nat)
      ensures this.base == base && this.elemSize == elemSize && this.size == size
    {
      this.base := base;
      this.elemSize := elemSize;
      this.size := size;
    }

    /** The mapped bytes, as the file holds them. */
    function Bytes(): (b: seq<Byte>)
      reads this, base, base.fs
      requires Valid()
      ensures base.size <= |b|
    {
      base.fs.files[base.mapping.value.path]
    }

    /** The elements, slot by slot. */
    ghost function Elements(): (e: seq<seq<Byte>>)
      reads this, base, base.fs
      requires Valid()
      ensures |e| == size
    {
      var b := Bytes();
      seq(size, i requires 0 <= i < size =>
        SlotsOrdered(i, size, elemSize);
        Slot(b, i, elemSize))
    }

    /** size(): the number of elements, all of which lie inside the mapping. */
    function Size(): (r: nat)
      reads this, base, base.fs
      requires Valid()
      ensures r == |Elements()|
      ensures SlotStart(r, elemSize) <= base.size
    {
      size
    }

    /** begin(): the byte position of element 0 within the mapping. */
    function Begin(): (b: nat)
      reads this, base, base.fs
      requires Valid()
      ensures b <= base.size
      ensures size > 0 ==> Index(0) == Success(b)
    {
      0
    }

    /**
     * end(): the byte position just past the last element.  [begin(), end())
     * holds every element, spans exactly size() * sizeof(T) bytes and stays
     * inside the mapping.
     */
    function End(): (e: nat)
      reads this, base, base.fs
      requires Valid()
      ensures Begin() <= e <= base.size
      ensures e - Begin() == size * elemSize
      ensures forall i :: 0 <= i < size ==>
        Begin() <= SlotStart(i, elemSize) && SlotStart(i, elemSize) + elemSize <= e
    {
      SlotStartIsProduct(size, elemSize);
      SlotsWithin(size, elemSize);
      SlotStart(size, elemSize)
    }

    /**
     * The bounds check of operator[](k): it fails exactly when k >= size();
     * otherwise the reference is slot k, at byte k * S, whose bytes lie inside
     * the mapping.
     */
    function Index(k: nat): (r: Result<nat>)
      reads this, base, base.fs
      requires Valid()
      ensures r.Failure? <==> k >= size
      ensures r.Success? ==> r.value == k * elemSize && r.value + elemSize <= base.size
      ensures r.Success? ==> r.value == SlotStart(k, elemSize)
    {
      if k >= size then Failure
      else
        SlotsOrdered(k, size, elemSize);
        SlotStartIsProduct(k, elemSize);
        Success(SlotStart(k, elemSize))
    }

    /** Reading through operator[](k). */
    method Get(k: nat) returns (r: Result<seq<Byte>>)
      requires Valid()
      ensures r.Failure? <==> k >= size
      ensures r.Success? ==> r.value == Elements()[k]
    {
      var off := Index(k);
      if off.Failure? {
        return Failure;
      }
      var b := Bytes();
      r := Success(b[off.value..off.value + elemSize]);
    }

    /** Writing a value through operator[](k): only slot k of the file changes. */
    method Set(k: nat, v: seq<Byte>) returns (ok: bool)
      requires Valid() && |v| == elemSize
      modifies base.fs
      ensures Valid()
      ensures ok <==> k < size
      ensures !ok ==> unchanged(base.fs)
      ensures ok ==>
        && base.fs.files == old(base.fs.files)[base.mapping.value.path := Overwrite(old(Bytes()), old(Index(k)).value, v)]
        && Elements() == old(Elements())[k := v]
      ensures base.fs.fds == old(base.fs.fds) && base.fs.mappings == old(base.fs.mappings)
    {
      var off := Index(k);
      if off.Failure? {
        return false;
      }
      var s := elemSize;
      ghost var before := Elements();
      ghost var bytes := Bytes();
      base.fs.Store(base.mapping.value, off.value, v);
      ok := true;
      ghost var after := Bytes();
      forall j | 0 <= j < size
        ensures Elements()[j] == before[k := v][j]
      {
        SlotsOrdered(j, size, s);
        var a := SlotStart(j, s);
        if j < k {
          SlotsOrdered(j, k, s);
          OverwriteKeepsBelow(bytes, off.value, v, a, a + s);
        } else if j > k {
          SlotsOrdered(k, j, s);
          OverwriteKeepsAbove(bytes, off.value, v, a, a + s);
        } else {
          OverwriteWrites(bytes, off.value, v);
        }
      }
    }

    /**
     * array<T>(n, file, args...): opens alloc(n * S, file) and constructs the
     * slots from initialized() / S up to n, in order.  Earlier bytes keep their
     * stored values and bytes at or beyond n * S are not written.
     */
    static method Create(fs: FileSystem, n: nat, file: string, v: seq<Byte>, openSucceeds: bool, writeSucceeds: bool)
      returns (r: Result<Array>)
      requires fs.Valid() && |v| > 0
      modifies fs
      ensures fs.Valid()
      ensures r.Failure? <==> OpenFails(old(fs.files), file, SlotStart(n, |v|), openSucceeds, writeSucceeds)
      ensures r.Failure? ==>
        OpenedFiles(old(fs.files), file, SlotStart(n, |v|), openSucceeds, false, fs.files) && fs.mappings == old(fs.mappings)
      ensures fs.fds == old(fs.fds)
      ensures r.Success? ==>
        var prior := Prior(old(fs.files), file);
        && fresh(r.value) && fresh(r.value.base) && r.value.Valid()
        && r.value.base.fs == fs && r.value.size == n && r.value.elemSize == |v|
        && r.value.base.mapping == Some(Span(file, SlotStart(n, |v|)))
        && r.value.base.size == SlotStart(n, |v|) == n * |v|
        && r.value.base.init == Boundary(|prior|, SlotStart(n, |v|))
        && fs.mappings == old(fs.mappings) + multiset{Span(file, SlotStart(n, |v|))}
        && file in fs.files && fs.files == old(fs.files)[file := fs.files[file]]
        && r.value.Bytes() == fs.files[file]
        && ArrayLayout(prior, fs.files[file], n, v)
    {
      ghost var prior := Prior(fs.files, file);
      var total := SlotBytes(n, |v|);
      var a := Alloc.Create(fs, total, file, openSucceeds, writeSucceeds);
      if a.Failure? {
        return Failure;
      }
      var span := a.value.mapping.value;
      ghost var grown := fs.files[file];
      var from := WholeSlots(a.value.Initialized(), |v|);
      ConstructInPlace(fs, span, from, n, v);
      ConstructionLayout(prior, grown, n, v);
      SlotStartIsProduct(n, |v|);
      var arr := new Array.Init(a.value, |v|, n);
      r := Success(arr);
    }

    /**
     * array<T>(file): attaches to the whole existing file without writing any
     * element; the element count is the file size divided by S, rounded down.
     */
    static method Attach(fs: FileSystem, file: string, elemSize: nat, openSucceeds: bool) returns (r: Result<Array>)
      requires fs.Valid() && elemSize > 0
      modifies fs
      ensures fs.Valid()
      ensures r.Failure? <==> file !in old(fs.files) || !openSucceeds
      ensures fs.files == old(fs.files) && fs.fds == old(fs.fds)
      ensures r.Success? ==>
        && fresh(r.value) && fresh(r.value.base) && r.value.Valid()
        && r.value.base.fs == fs && r.value.elemSize == elemSize
        && r.value.base.mapping == Some(Span(file, r.value.base.size))
        && r.value.size == |old(fs.files[file])| / elemSize
        && r.value.base.size == |old(fs.files[file])|
        && r.value.base.init == r.value.base.size
        && fs.mappings == old(fs.mappings) + multiset{Span(file, r.value.base.size)}
      ensures r.Failure? ==> fs.mappings == old(fs.mappings)
    {
      var a := Alloc.Attach(fs, file, openSucceeds);
      if a.Failure? {
        return Failure;
      }
      var count := WholeSlots(a.value.size, elemSize);
      SlotsBelowBounds(a.value.size, elemSize);
      SlotsBelowIsDiv(a.value.size, elemSize);
      var arr := new Array.Init(a.value, elemSize, count);
      r := Success(arr);
    }

    /**
     * array<T>(file) as written: the element count divides alloc::size(),
     * which has already reduced the file length modulo 2^32, so a file of
     * 4 GiB or more shows fewer elements than it holds.
     */
    static method AttachAsWritten(fs: FileSystem, file: string, elemSize: nat, openSucceeds: bool)
      returns (r: Result<Array>)
      requires fs.Valid() && elemSize > 0
      modifies fs
      ensures fs.Valid()
      ensures r.Failure? <==> file !in old(fs.files) || !openSucceeds
      ensures fs.files == old(fs.files) && fs.fds == old(fs.fds)
      ensures r.Success? ==>
        && fresh(r.value) && fresh(r.value.base) && r.value.Valid()
        && r.value.base.fs == fs && r.value.elemSize == elemSize
        && r.value.base.mapping == Some(Span(file, r.value.base.size))
        && r.value.size == (|old(fs.files[file])| % UnsignedRange) / elemSize
        && r.value.base.size == |old(fs.files[file])|
        && r.value.base.init == r.value.base.size
        && fs.mappings == old(fs.mappings) + multiset{Span(file, r.value.base.size)}
      ensures r.Failure? ==> fs.mappings == old(fs.mappings)
    {
      var a := Alloc.Attach(fs, file, openSucceeds);
      if a.Failure? {
        return Failure;
      }
      var count := WholeSlots(a.value.Size(), elemSize);
      SlotsBelowBounds(a.value.Size(), elemSize);
      SlotsBelowIsDiv(a.value.Size(), elemSize);
      var arr := new Array.Init(a.value, elemSize, count);
      r := Success(arr);
    }
  }
}
