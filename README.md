# persistent: objects and arrays kept in memory-mapped files

This project models the header-only allocator `persistent.h`. The allocator
keeps a C++ value or array in a file. It opens the file, grows it to the
requested length, and maps it shared. It then constructs elements from the
first slot that the file did not hold completely. A reopened file therefore
gives back the values stored in every slot it held completely. The model has three modules.

- `FileStore` (`filestore.dfy`) is an abstract operating system. It has a map
  from file names to byte sequences and a table of open descriptors, each with
  its offset. It also has the multiset of live shared mappings. The system
  calls the allocator uses are methods of its `FileSystem` class: exclusive
  create, open, close, the two `lseek` calls, `write`, `mmap`, `munmap`, and a
  store through a mapping. A store through a mapping is a write to the file
  itself, because the mapping is shared.
- `Persistent` (`region.dfy`) covers `resize`, `open`, and the two untyped
  regions. `memory<SIZE>` becomes the class `Memory`. `alloc` becomes the
  class `Alloc`. Each region remembers its mapping and its *initialised
  boundary*: the number of leading bytes of the requested region that the
  file already held. That is `min(prior size, n)` for a request of `n > 0`
  bytes, and the whole prior size when `n == 0`.
- `PersistentTyped` (`typed.dfy`) covers `object<T>` and `array<T>`. An
  element type is known only by its size `S == sizeof(T)`. Constructing
  `T(args...)` is modelled as writing an `S`-byte pattern `v`. Slot `i` of an
  array occupies bytes `[i * S, (i + 1) * S)`. The model computes that offset
  as `SlotStart(i, S)`, which `SlotStartIsProduct` proves equal to `i * S`.
  It computes a floor division as `SlotsBelow(b, S)`, which `SlotsBelowIsDiv`
  proves equal to `b / S`.

Constructors that can throw become static methods that return a
`Result<Class>`. Every exception becomes `Failure`. Whether a system call
succeeds for reasons outside the file contents is decided by the environment.
For `write(2)` that is the parameter `writeSucceeds`. For the two `open(2)`
calls it is `openSucceeds`: it stands for permissions, a missing directory or
an exhausted descriptor table. For a new file the exclusive create decides
the outcome, and for an existing file the fallback open does. The bytes that `resize` appends come from a `new char[]`
buffer that is never initialised. The model therefore chooses them
arbitrarily, and no contract says anything about them.

The source says little about its intended behaviour beyond a few comments.
Where the code behaves in a way a user might not expect, the model follows
the code:

- The comment above `resize` (persistent.h:13) says it returns the original
  file size. The code returns `min(original size, n)`. That is the original
  size only when `n` is 0 or at least the original size. `Boundary` states
  what the code returns.
- Appended bytes are not zero-filled. They are whatever the buffer held.
- A sized region maps exactly the requested `n` bytes, even when the file is
  longer.
- `array<T>(file)` rounds a file size that is not a multiple of `S` down.
  It does not reject the file.
- `object` and `array` ignore their constructor arguments when the stored
  data already covers the requested slots.
- `object<T>` constructs its value exactly when the file held fewer than
  `sizeof(T)` bytes.
- `alloc(0, file)` on a non-empty file reports a boundary larger than its
  size of 0. `ZeroSizeAllocWitness` exhibits this.
- When the file ends inside a slot, `array<T>(n, file)` reconstructs that
  partly stored slot.

## Model

| member | source | states |
|---|---|---|
| FileStore.Overwrite | persistent.h:24 | a write at `off` keeps every byte before `off` and every byte past the written range, puts `bytes` at `off`, and extends the file only when the write runs past its end |
| FileStore.OverwriteKeepsBelow | persistent.h:24 | a write leaves any byte range below its offset unchanged |
| FileStore.OverwriteWrites | persistent.h:24 | after a write, the written range holds exactly the bytes written |
| FileStore.OverwriteKeepsAbove | persistent.h:24 | a write leaves any byte range above its end unchanged |
| Persistent.Boundary | persistent.h:20-29 | the reported boundary never exceeds the prior file size; it equals the prior size when `n == 0`; otherwise it is the prior size or `n`, whichever is smaller |
| Persistent.GrownLength | persistent.h:20-26 | the file after `resize` is at least as long as before and at least `n`, and is exactly one of the two |
| Persistent.ResizeAgainFindsAllInitialized | persistent.h:14-30 | after `resize(fd, n)` with `n > 0` has grown a file, a second `resize(fd, n)` writes nothing and reports all `n` bytes as initialised |
| Persistent.Resize | persistent.h:14-30 | fails exactly when the file is shorter than `n` and the write fails; on success the file is its old bytes followed by appended bytes up to `n`, the offset is back at 0, and the result is `Boundary(prior, n)`; nothing else changes |
| Persistent.OpenDescriptor | persistent.h:40-45 | fails exactly when the environment refuses the deciding `open(2)`, or when `n == 0` and the file does not exist; otherwise it returns a fresh descriptor at offset 0, and only an exclusive create (when `n > 0`) adds an empty file |
| Persistent.OpenAsWritten | persistent.h:38-48 | the code as written: same failure condition and files as `Open`, but a failure of the write after a successful `open(2)` with `n > 0` leaves strictly more descriptors open than before |
| Persistent.DescriptorLeakWitness | persistent.h:38-48 | `open("f", 1)` on an empty file with a failing write returns an error and leaves a descriptor open |
| Persistent.Open | persistent.h:38-48 | fails exactly when the environment refuses the `open(2)`, the file is missing with `n == 0`, or the file must grow and the write fails; on success only this file changed, grown append-only, and the result carries a fresh descriptor and `Boundary(prior, n)` (0 for a new file); on failure no descriptor is left open |
| Persistent.OpenMapped | persistent.h:67-70 | the shared body of the sized region constructors: same failure condition as `Open`; on success exactly `n` bytes of the file are mapped, the boundary is `Boundary(prior, n)`, and the descriptor table is as before |
| Persistent.ZeroSizeAllocWitness | persistent.h:102-110 | `alloc(0, file)` over a one-byte file has size 0 and initialised boundary 1 |
| Persistent.Memory.Create | persistent.h:67-71 | maps exactly `SIZE` bytes of the file; the boundary is `min(prior size, SIZE)`; it fails exactly when `Open` would, and then no mapping is added and no descriptor is left open |
| Persistent.Memory.Moved | persistent.h:73-79 | the new object takes over the mapping and boundary; the source is left with no mapping and boundary 0; between them the two objects own exactly the mapping the source owned |
| Persistent.Memory.Destroy | persistent.h:81-83 | removes the object's own mapping, if it still holds one, and changes nothing otherwise |
| Persistent.Memory.Initialized | persistent.h:85 | the boundary never exceeds `SIZE` |
| Persistent.Alloc.Create | persistent.h:102-110 | maps exactly `n` bytes with size `n`; the boundary is `Boundary(prior, n)`; the failure condition and failure state are those of `Open` |
| Persistent.Alloc.Attach | persistent.h:111-119 | fails exactly when the file does not exist or the environment refuses the `open(2)`; it never changes a file; it maps the whole file, and size and boundary both equal the file length |
| Persistent.Alloc.Moved | persistent.h:122-130 | the new object takes over mapping, boundary and size; the source is left empty; ownership of the mapping is transferred, not duplicated |
| Persistent.Alloc.MoveAssign | persistent.h:132-140 | self-assignment changes nothing; otherwise the two objects exchange mapping, boundary and size, and together own the same mappings as before |
| Persistent.Alloc.Destroy | persistent.h:142-144 | removes the object's own mapping, if it still holds one, and changes nothing otherwise |
| Persistent.Alloc.Initialized | persistent.h:145 | the boundary never exceeds the size of a non-empty region |
| Persistent.Alloc.Size | persistent.h:149 | the result fits in a 32-bit `unsigned` and never exceeds the mapped length; it equals that length below 2^32 and is congruent to it modulo 2^32 |
| PersistentTyped.SlotStartIsProduct | persistent.h:238 | the slot-by-slot offset of slot `i` is `i * S` |
| PersistentTyped.SlotsOrdered | persistent.h:242-243 | slots do not overlap: for `i < j`, slot `i` ends no later than slot `j` starts |
| PersistentTyped.SlotsBelowBounds | persistent.h:242 | the `SlotsBelow(b, S)` whole slots fit in `b` bytes, and one more slot does not |
| PersistentTyped.SlotsBelowIsDiv | persistent.h:242 | `SlotsBelow(b, S)` is the floor division `b / S` |
| PersistentTyped.SlotsBelowStart | persistent.h:242 | exactly `m` whole slots lie below the start of slot `m` |
| PersistentTyped.SlotBytes | persistent.h:238 | `n * sizeof(T)` is the byte length of `n` slots |
| PersistentTyped.WholeSlots | persistent.h:242 | `initialized() / sizeof(T)` counts the whole slots below the boundary |
| PersistentTyped.ConstructedSlot | persistent.h:242-243 | after the construction loop, every slot from `from` up to `n` holds the pattern |
| PersistentTyped.PrefixKept | persistent.h:242-243 | the construction loop leaves every byte below slot `from` as it was |
| PersistentTyped.UntouchedAbove | persistent.h:242-243 | the construction loop leaves every byte at or beyond slot `n` as it was |
| PersistentTyped.ConstructInPlace | persistent.h:242-243 | the loop writes through the mapping, changes only the mapped file, and leaves it equal to `ConstructSlots` of its old contents; descriptors and mappings are unchanged |
| PersistentTyped.ConstructionLayout | persistent.h:236-244 | growing the file and running the loop from `boundary / S` keeps the stored bytes below that slot, fills slots up to `n` with the pattern, and keeps everything past `n * S` |
| PersistentTyped.ReopenConstructsOnlyTail | persistent.h:236-244 | reopening a file of exactly `m` slots as `array(n)` with `m <= n` grows it to `n * S` bytes, keeps every stored byte and so each of the `m` stored elements whatever it holds, and constructs exactly slots `m` to `n - 1` |
| PersistentTyped.Object.Value | persistent.h:176-179 | the value is `sizeof(T)` bytes long and is the start of the mapped file |
| PersistentTyped.Object.Create | persistent.h:183-190 | constructs `T(args...)` exactly when the boundary is below `sizeof(T)`, that is when the file held fewer bytes; otherwise the file is unchanged and the value is its first `sizeof(T)` bytes; the object maps the first `sizeof(T)` bytes of `file`; the failure condition is that of `memory<sizeof(T)>` |
| PersistentTyped.Array.Size | persistent.h:210 | `size()` is the number of elements, and that many slots fit inside the mapping |
| PersistentTyped.Array.Begin | persistent.h:227 | `begin()` lies inside the mapping and, for a non-empty array, is the position of element 0 |
| PersistentTyped.Array.End | persistent.h:228 | `end()` lies inside the mapping; `[begin(), end())` spans exactly `size() * sizeof(T)` bytes and contains every element |
| PersistentTyped.Array.Index | persistent.h:215-224 | the bounds check fails exactly when `k >= size()`; otherwise the element reference is at byte `k * sizeof(T)`, the start of slot `k`, and its bytes lie inside the mapping |
| PersistentTyped.Array.Get | persistent.h:215-224 | reading element `k` fails exactly when `k >= size()`, and otherwise gives the bytes of slot `k` |
| PersistentTyped.Array.Set | persistent.h:215-219 | writing element `k` fails exactly when `k >= size()`, and then changes nothing; otherwise element `k` becomes the value and every other element is unchanged |
| PersistentTyped.Array.Create | persistent.h:236-244 | opens `alloc(n * S, file)` with the failure condition of `Open`; on success the array has `n` elements over a mapping of exactly the first `n * S` bytes of `file`, and the file has the `ArrayLayout`: stored bytes kept below slot `boundary / S`, the pattern in every later slot below `n`, and everything past `n * S` kept |
| PersistentTyped.Array.Attach | persistent.h:247-251 | fails exactly when the file does not exist or the `open(2)` is refused; it changes no file and constructs nothing; the array maps all of `file`; the element count is the file size divided by `S`, rounded down |
| PersistentTyped.Array.AttachAsWritten | persistent.h:247-251 | the code as written: the array maps all of `file`, but its element count is the file size reduced modulo 2^32 and then divided by `S` |
| PersistentTyped.AttachTruncationWitness | persistent.h:149 | a 2^32-byte file attached as 1-byte elements shows 0 elements as written and 2^32 when corrected |

## Left out

- The `lseek` failure at persistent.h:17-18 is not modelled. Seeking a valid descriptor succeeds in the model.
- `mmap` never fails in the model. The check at persistent.h:55 compares the result with a null pointer. `mmap` reports failure with `MAP_FAILED`, so that check could never see a failure anyway. A zero-length mapping, which a real `mmap` rejects, is accepted.
- `fd_guard`, `syserr`, `error` and `enforce` come from `tmx/sysutil.h`, which is not part of this model. `fd_guard` is modelled as closing the descriptor when the constructor body ends. Every exception is one `Failure` outcome.
- The constructors rewrap exceptions with the file name (persistent.h:71, 109, 118). Only the failure itself is modelled, not the message.
- The buffer allocated at persistent.h:23 is never freed. Process memory is not modelled.
- A short write at persistent.h:24 is not modelled. A successful write is complete.
- Overflow of the `size_t` product `n * sizeof(T)` at persistent.h:238 is not modelled. Sizes are unbounded.
- Concurrent access to the same file by several processes or threads is not modelled.
- `reinterpret_cast` and placement `new` are modelled as byte patterns written into slots. Constructors with side effects beyond their bytes are not modelled.
- The defaulted move constructor of `object` (persistent.h:168) is left out. So are the defaulted move constructor and move assignment of `array` (persistent.h:204, 206). They move the base region as `Memory.Moved`, `Alloc.Moved` and `Alloc.MoveAssign` do. They also copy the scalar members `_po` (and `_size` for `array`) without clearing them in the source, and the move assignment does not swap them. A moved-from `array` therefore keeps its element count and its pointer, so its `operator[]` passes the bounds check and reaches a mapping it no longer owns. After `a = std::move(b)`, `b` keeps its own `_size` and `_po`, which point into the region `a` now owns. The model does not capture these copied pointers and counts.
- `array::length()` (persistent.h:211) is left out because it only returns `size()`.
- The pointer forms of `object::operator->` and `operator*` (persistent.h:176-179) are modelled only as `Object.Value`, the stored bytes. Their const overloads are the same.
- `cbegin` and `cend` (persistent.h:231-232) are the same positions as `Begin` and `End`.
- Sparse files and holes are not modelled. A file is a sequence of bytes.
- Alloc.MoveAssign: the model requires both objects to share one `FileSystem`. This holds for every pair of objects in one process.
- Alloc.Initialized: the bound `initialized() <= size` is stated only when `size > 0`. With `alloc(0, file)` the boundary is the whole prior file, as `ZeroSizeAllocWitness` shows.
- Memory.Initialized: the bound `initialized() <= SIZE` is stated only when `SIZE > 0`. `sizeof(T)` is never 0, so this loses nothing for `object<T>`.
- OpenMapped, Memory.Create, Alloc.Create, Object.Create and Array.Create are built on the corrected `Open`. As written, the constructors at persistent.h:69 and 107 call `open` directly and inherit its descriptor leak, which the first Findings row records. `alloc(file)` at persistent.h:115 asks for 0 bytes, so its `resize` never writes and cannot leak. Their contracts promise that no descriptor is left open on failure; the code as written does not keep that promise.

## Findings

| source | as written | input that shows it | evidently intended | confidence | as-written member | corrected member |
|---|---|---|---|---|---|---|
| persistent.h:38-48 | `open` opens a descriptor and then calls `resize`. When `resize` throws because `write` failed, the descriptor is never closed: the caller's `fd_guard` has not received it yet | `open(file, n)` with `n > 0` on a file shorter than `n`, when the `write` that grows it fails; `DescriptorLeakWitness` exhibits it for an empty file with `n == 1` | close the descriptor before the error propagates, so a failed open leaves no descriptor open | not executed | Persistent.OpenAsWritten | Persistent.Open |
| persistent.h:149 | `unsigned size()` returns the `size_t` field `_size` as an `unsigned`, 32 bits wide on the usual platforms; `array<T>(file)` divides that value by `sizeof(T)` at persistent.h:249 | `array<char>(file)` on a file of 2^32 bytes shows 0 elements; `AttachTruncationWitness` exhibits it | return the length as `size_t`, so the element count is the whole file length divided by `sizeof(T)` | not executed | PersistentTyped.Array.AttachAsWritten | PersistentTyped.Array.Attach |
