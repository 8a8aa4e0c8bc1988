/** The repository's own test cases and the boundary cases of the storage rule,
    on a 64-bit target. */
module Scenarios {
  import opened Options
  import opened Layout
  import opened Callback
  import opened Deferred

  /** A closure of the given type capturing `size` zero bytes. */
  function Capture(code: Code, size: nat, align: nat): (f: Closure)
    ensures f.Size() == size && f.align == align
  {
    Closure(code, seq(size, _ => 0), align)
  }

  /** `move || drop(a)` with `a = [0u64; 1]`: 8 bytes, stored inline; one call
      runs it, a second call fails without running it again. */
  lemma OnStackOnce(log: Log)
    ensures var f := Capture(1, 8, 8);
      && New(f).OnStack?
      && Call(New(f), log).result == Ok(())
      && Call(New(f), log).log == log + [f]
      && Call(Call(New(f), log).next, log + [f]) == Step(Call(New(f), log).next, log + [f], Err(AlreadyCalled))
  {
    CallNewRunsOnce(Capture(1, 8, 8), log);
  }

  /** `move || drop(a)` with `a = [0u64; 10]`: 80 bytes, boxed on the heap;
      one call runs it, a second call fails without running it again. */
  lemma OnHeapOnce(log: Log)
    ensures var f := Capture(2, 80, 8);
      && New(f) == OnHeap(Some(f))
      && Call(New(f), log).result == Ok(())
      && Call(New(f), log).log == log + [f]
      && Call(Call(New(f), log).next, log + [f]) == Step(OnHeap(None), log + [f], Err(AlreadyCalled))
  {
  }

  /** A captured `String` (pointer, capacity, length: 24 bytes) or
      `Box<[i32]>` (pointer, length: 16 bytes) is stored inline, and the
      closure that runs carries exactly the captured bytes, so the text or
      slice it points to is read back unchanged. */
  lemma OwnedBufferMovedIntact(bytes: seq<Byte>, log: Log)
    requires |bytes| == 24 || |bytes| == 16
    ensures New(Closure(3, bytes, 8)).OnStack?
    ensures Call(New(Closure(3, bytes, 8)), log).log[|log|].bytes == bytes
  {
  }

  /** The storage rule at its edges: exactly 32 bytes at alignment 8 is
      inline, one byte more or a larger alignment is not, and a closure that
      captures nothing is inline. */
  lemma Boundaries()
    ensures New(Capture(4, DataSize, DataAlign)).OnStack?
    ensures New(Capture(4, DataSize + 1, DataAlign)).OnHeap?
    ensures New(Capture(4, 16, 16)).OnHeap?
    ensures New(Capture(4, 0, 1)).OnStack?
    ensures New(Capture(4, 0, 16)).OnHeap?
  {
  }
}
