# Deferred: a one-shot closure stored inline or on the heap

This project models `Deferred` from crossbeam-epoch (`src/deferred.rs`): a
container for a `FnOnce()` that keeps the closure's bytes in an inline
32-byte buffer (`Data = [u64; 4]`) when the closure's size and alignment
allow it, boxes it on the heap otherwise, and lets it be called at most once.

The model is functional:

- `Layout` holds the byte type, the `Data` constants (32 bytes, alignment 8),
  `Data::default()`, the storage-selection predicate `FitsInline`, and
  `ptr::copy_nonoverlapping` as a byte-sequence function.
- `Callback` models a closure as an opaque value `Closure(code, bytes, align)`
  whose size is its number of bytes. Its dispatch handle is a
  `Vtable(code, size, align)`, which carries size and alignment like a Rust
  vtable. Running a closure appends it once to a run log. This one entry
  stands for both the call and the drop of the captured state.
  `copy_and_call` reads the closure back from the buffer through the vtable
  and runs it. `call_box` runs the boxed closure.
- `Deferred` models the tagged union `OnStack(InlineObject) | OnHeap(Option<Closure>)`.
  `None` stands for the null vtable pointer and for the emptied heap slot.
  `New` is `Deferred::new`. `Call` is `Deferred::call`, returning the new
  container, the new log and `Ok(())` or `Err(AlreadyCalled)`.
  `CallRepeatedly` folds `Call` over `n` calls.
- `Scenarios` restates the repository's tests and the edges of the storage rule.

The panic "cannot call `FnOnce` more than once" is modelled as the error
`AlreadyCalled`. The container left behind is the one Rust leaves before
unwinding: on the inline path the handle was swapped for null before the
check, and on the heap path `take()` left `None`.

`Call` requires `Valid(d)`. This is the invariant every constructed
`Deferred` has: the inline buffer is 32 bytes, and a live handle describes a
closure that fits in it. `New` establishes it and `Call` preserves it.

The storage rule checks alignment as well as size (src/deferred.rs:71). A
zero-size closure type with alignment above 8 is therefore boxed, while a
closure that captures nothing has alignment 1 and is stored inline
(`Scenarios.Boundaries`).

Three helpers carry no contract of their own and are pinned down by the
members that use them. `Layout.FitsInline` is the test on
src/deferred.rs:71, and `Deferred.New` states it as an if-and-only-if.
`Layout.DefaultData` is `Data::default()` (src/deferred.rs:79); `Deferred.New`
states that the bytes after the closure's are zero. `Callback.VtableOf` is the
vtable extraction (src/deferred.rs:73-77); `Deferred.New` states that the
handle is this vtable, and `Callback.CopyAndCallRunsStored` states that
dispatching through it runs the stored closure.

## Model

| member | source | states |
|---|---|---|
| Layout.CopyNonoverlapping | src/deferred.rs:80-84 | copying `count` bytes overwrites exactly the first `count` bytes of the destination with the source's and leaves the remaining bytes of the destination unchanged |
| Callback.ReadRestoresClosure | src/deferred.rs:19-21 | reading a closure back through its own vtable from a buffer that starts with its bytes yields the very closure that was stored |
| Callback.CopyAndCallRunsStored | src/deferred.rs:19-21 | `copy_and_call` through a closure's own vtable, on a buffer that starts with the closure's bytes, runs exactly that closure once and nothing else |
| Callback.CallBox | src/deferred.rs:25-27 | `call_box` appends exactly one entry to the run log, the boxed closure, and keeps every earlier entry |
| Deferred.New | src/deferred.rs:67-92 | inline storage is chosen if and only if size <= 32 and alignment <= 8; inline, the handle is non-null and describes the closure, the first `size` bytes are the closure's bytes and the rest of the 32-byte buffer is zero; otherwise the heap slot holds the closure; the result is valid and not yet called |
| Deferred.NewHoldsClosure | src/deferred.rs:73-90 | the closure a freshly built `Deferred` would run is exactly the closure it was built from, on either path |
| Deferred.Call | src/deferred.rs:96-113 | after any call the handle is null or the slot empty; the variant and the inline bytes are unchanged; a pending container runs its closure once and succeeds; an already-called one fails with `AlreadyCalled`, runs nothing and is left as it was |
| Deferred.CallNewRunsOnce | src/deferred.rs:96-113 | the first call on a new `Deferred` succeeds, runs the original closure exactly once and leaves the container called |
| Deferred.InvokedStaysInvoked | src/deferred.rs:99-100 | any number of calls on an already-called container all fail, run nothing and leave it unchanged: there is no way back to the pending state |
| Deferred.AtMostOnce | src/deferred.rs:94-113 | over `n` calls on a pending container the closure runs once if `n >= 1` and never otherwise; the first call succeeds and every later one fails |
| Deferred.CallsKeepStorage | src/deferred.rs:97-113 | over any number of calls the variant stays the same and the inline bytes are never changed; only the handle or the heap slot changes |
| Deferred.RunCountOfNew | src/deferred.rs:94-113 | over any number of calls the closure given to `new` runs at most once, exactly once when there is at least one call, and nothing else is run |
| Scenarios.OnStackOnce | src/deferred.rs:135-142 | a closure capturing `[u64; 1]` is stored inline, succeeds and runs on the first call, and a second call fails without running it again |
| Scenarios.OnHeapOnce | src/deferred.rs:144-151 | a closure capturing `[u64; 10]` (80 bytes) is boxed, succeeds and runs on the first call, and a second call fails and leaves the slot empty |
| Scenarios.OwnedBufferMovedIntact | src/deferred.rs:153-165 | a closure capturing a `String` or a `Box<[i32]>` is stored inline and the closure that runs carries exactly the captured bytes |
| Scenarios.Boundaries | src/deferred.rs:71 | the size bound and the alignment bound are both inclusive: 32 bytes at alignment 8 is inline, 33 bytes or alignment 16 is boxed, a capture-less closure is inline |

## Left out

- `TraitObject`, the `mem::transmute` between fat pointers and the vtable-pointer extraction: the handle is an abstract `Vtable` value, not a pointer.
- `ptr::read` and `mem::forget`: reading is rebuilding a `Closure` from bytes, and the original is never dropped because `New` does not touch the run log.
- What a closure does when run, and its drop glue: a closure is an opaque value whose run is one log entry.
- The `Send + 'static` bounds and hand-off between threads: the container is used by one owner.
- Heap allocation failure.
- Unwinding: a panic is the `AlreadyCalled` result, and nothing after it is modelled.
- Targets other than 64-bit: `size_of::<u64>()` and `align_of::<u64>()` are fixed at 8, and the sizes in `Scenarios` are the 64-bit ones.
- Layout well-formedness (alignment a power of two, size a multiple of it) is not required by the model; the storage rule does not depend on it.
