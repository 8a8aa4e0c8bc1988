/** The `Callback` trait implemented by every `FnOnce()`: a closure is an
    opaque value whose only observable effect, when run, is to be recorded once
    in a run log. */
module Callback {
  import opened Layout

  /** Identifies the concrete closure type, and so its body. */
  type Code = nat

  /** A captured `FnOnce()`: its type, the bytes of its captured state (its
      size is the number of bytes) and its alignment. */
  datatype Closure = Closure(code: Code, bytes: seq<Byte>, align: nat)
  {
    function Size(): nat { |bytes| }
  }

  /** The dispatch handle of a closure type: like a Rust vtable it knows the
      type's body, size and alignment. */
  datatype Vtable = Vtable(code: Code, size: nat, align: nat)

  /** Every closure that has run, oldest first. Running consumes the closure,
      so an entry is both its call and its drop. */
  type Log = seq<Closure>

  /** The vtable extracted from `&f as &Callback`. */
  function VtableOf(f: Closure): (vt: Vtable)
  {
    Vtable(f.code, f.Size(), f.align)
  }

  /** `ptr::read(self)` through a vtable: the closure whose layout the vtable
      describes, rebuilt from the leading bytes of `data`. */
  function Read(vt: Vtable, data: seq<Byte>): (f: Closure)
    requires vt.size <= |data|
  {
    Closure(vt.code, data[..vt.size], vt.align)
  }

  /** Runs `f` once. */
  function Run(f: Closure, log: Log): (r: Log)
  {
    log + [f]
  }

  /** `Callback::copy_and_call`: read the closure out of `data`, run it. */
  function CopyAndCall(vt: Vtable, data: seq<Byte>, log: Log): (r: Log)
    requires vt.size <= |data|
  {
    Run(Read(vt, data), log)
  }

  /** `Callback::call_box`: move the closure out of its box and run it; the
      boxed closure is the one and only closure that runs. */
  function CallBox(f: Closure, log: Log): (r: Log)
    ensures |r| == |log| + 1
    ensures r[..|log|] == log && r[|log|] == f
  {
    Run(f, log)
  }

  /** Reading through a closure's own vtable from any buffer whose leading
      bytes are the closure's bytes gives back that very closure: the bytes
      were moved intact. */
  lemma ReadRestoresClosure(f: Closure, data: seq<Byte>)
    requires f.Size() <= |data|
    requires forall i :: 0 <= i < f.Size() ==> data[i] == f.bytes[i]
    ensures Read(VtableOf(f), data) == f
  {
  }

  /** `copy_and_call` through a closure's own vtable, on a buffer that starts
      with the closure's bytes, runs exactly that closure once and nothing
      else. */
  lemma CopyAndCallRunsStored(f: Closure, data: seq<Byte>, log: Log)
    requires f.Size() <= |data|
    requires forall i :: 0 <= i < f.Size() ==> data[i] == f.bytes[i]
    ensures CopyAndCall(VtableOf(f), data, log) == log + [f]
  {
    ReadRestoresClosure(f, data);
  }
}
