/** `Deferred`: a `FnOnce()` kept inline in a 32-byte buffer when it fits and
    boxed on the heap otherwise, which can be called at most once. */
module Deferred {
  import opened Options
  import opened Layout
  import opened Callback

  /** A small closure stored inline: its bytes and its dispatch handle
      (`None` is the null vtable pointer). */
  datatype InlineObject = InlineObject(data: seq<Byte>, vtable: Option<Vtable>)

  /** The two storage variants. The heap slot is `None` once taken. */
  datatype Deferred = OnStack(obj: InlineObject) | OnHeap(slot: Option<Closure>)

  /** The only failure of `call`: "cannot call `FnOnce` more than once". */
  datatype CallError = AlreadyCalled

  /** What one `call` leaves behind: the container, the run log, the outcome. */
  datatype Step = Step(next: Deferred, log: Log, result: Result<(), CallError>)

  /** What every `Deferred` satisfies: the inline buffer is a whole `Data`,
      and a live inline handle describes a closure that fits in it. */
  predicate Valid(d: Deferred)
  {
    match d
    case OnStack(obj) =>
      && |obj.data| == DataSize
      && (obj.vtable.Some? ==> FitsInline(obj.vtable.value.size, obj.vtable.value.align))
    case OnHeap(_) => true
  }

  /** The closure has not been called yet: the handle is non-null, or the
      slot still holds the box. */
  predicate Pending(d: Deferred)
  {
    match d
    case OnStack(obj) => obj.vtable.Some?
    case OnHeap(slot) => slot.Some?
  }

  predicate SameVariant(d: Deferred, e: Deferred)
  {
    d.OnStack? <==> e.OnStack?
  }

  /** The closure a pending `Deferred` owns. */
  function Held(d: Deferred): (f: Closure)
    requires Valid(d) && Pending(d)
  {
    match d
    case OnStack(obj) => Read(obj.vtable.value, obj.data)
    case OnHeap(slot) => slot.value
  }

  /** `Deferred::new`: inline exactly when the closure's size and alignment fit
      `Data`, with its bytes copied to the front of a zeroed buffer and its
      vtable recorded; boxed otherwise. Nothing runs. */
  function New(f: Closure): (d: Deferred)
    ensures d.OnStack? <==> FitsInline(f.Size(), f.align)
    ensures d.OnStack? ==> d.obj.vtable == Some(VtableOf(f))
    ensures d.OnStack? ==> |d.obj.data| == DataSize
    ensures d.OnStack? ==> forall i :: 0 <= i < f.Size() ==> d.obj.data[i] == f.bytes[i]
    ensures d.OnStack? ==> forall i :: f.Size() <= i < DataSize ==> d.obj.data[i] == 0
    ensures d.OnHeap? ==> d.slot == Some(f)
    ensures Valid(d) && Pending(d)
  {
    if FitsInline(f.Size(), f.align) then
      var data := CopyNonoverlapping(f.bytes, DefaultData(), f.Size());
      OnStack(InlineObject(data, Some(VtableOf(f))))
    else
      OnHeap(Some(f))
  }

  /** A new `Deferred` owns exactly the closure it was built from. */
  lemma NewHoldsClosure(f: Closure)
    ensures Held(New(f)) == f
  {
  }

  /** `Deferred::call`. The inline path swaps the handle for null before
      testing it, so the handle is null afterwards whatever happens; the heap
      path `take`s the box, leaving `None`. A pending container runs its
      closure once; an invoked one reports `AlreadyCalled`, runs nothing and
      is left as it was. The variant and the inline bytes never change. */
  function Call(d: Deferred, log: Log): (r: Step)
    requires Valid(d)
    ensures Valid(r.next) && !Pending(r.next)
    ensures SameVariant(d, r.next)
    ensures d.OnStack? ==> r.next.obj.data == d.obj.data
    ensures Pending(d) ==> r.result == Ok(()) && r.log == log + [Held(d)]
    ensures !Pending(d) ==> r.result == Err(AlreadyCalled) && r.log == log && r.next == d
  {
    match d
    case OnStack(obj) =>
      var cleared := OnStack(obj.(vtable := None));
      if obj.vtable.None? then
        Step(cleared, log, Err(AlreadyCalled))
      else
        Step(cleared, CopyAndCall(obj.vtable.value, obj.data, log), Ok(()))
    case OnHeap(slot) =>
      match slot
      case None => Step(OnHeap(None), log, Err(AlreadyCalled))
      case Some(f) => Step(OnHeap(None), CallBox(f, log), Ok(()))
  }

  /** The first `call` on a new `Deferred` runs its closure exactly once and
      leaves the container invoked. */
  lemma CallNewRunsOnce(f: Closure, log: Log)
    ensures Call(New(f), log).result == Ok(())
    ensures Call(New(f), log).log == log + [f]
    ensures !Pending(Call(New(f), log).next)
  {
    NewHoldsClosure(f);
  }

  /** `n` successive calls, collecting the outcome of each. */
  datatype Trace = Trace(next: Deferred, log: Log, results: seq<Result<(), CallError>>)

  function CallRepeatedly(d: Deferred, n: nat, log: Log): (t: Trace)
    requires Valid(d)
    decreases n
  {
    if n == 0 then Trace(d, log, [])
    else
      var s := Call(d, log);
      var t := CallRepeatedly(s.next, n - 1, s.log);
      Trace(t.next, t.log, [s.result] + t.results)
  }

  /** Calls on an invoked `Deferred` all fail and change nothing. */
  lemma {:induction false} InvokedStaysInvoked(d: Deferred, n: nat, log: Log)
    requires Valid(d) && !Pending(d)
    ensures CallRepeatedly(d, n, log).next == d
    ensures CallRepeatedly(d, n, log).log == log
    ensures |CallRepeatedly(d, n, log).results| == n
    ensures forall i :: 0 <= i < n ==> CallRepeatedly(d, n, log).results[i] == Err(AlreadyCalled)
    decreases n
  {
    if n > 0 {
      InvokedStaysInvoked(d, n - 1, log);
    }
  }

  /** Over any number of calls a pending `Deferred` runs its closure once if
      called at all and never more: the first call succeeds, every later one
      fails with `AlreadyCalled`. */
  lemma {:induction false} AtMostOnce(d: Deferred, n: nat, log: Log)
    requires Valid(d) && Pending(d)
    ensures CallRepeatedly(d, n, log).log == if n == 0 then log else log + [Held(d)]
    ensures |CallRepeatedly(d, n, log).results| == n
    ensures forall i :: 0 <= i < n ==>
      CallRepeatedly(d, n, log).results[i] == if i == 0 then Ok(()) else Err(AlreadyCalled)
    ensures n > 0 ==> !Pending(CallRepeatedly(d, n, log).next)
  {
    if n > 0 {
      var s := Call(d, log);
      InvokedStaysInvoked(s.next, n - 1, s.log);
    }
  }

  /** However many calls are made, the variant stays the same and the inline
      bytes are never touched: only the handle or the heap slot changes. */
  lemma {:induction false} CallsKeepStorage(d: Deferred, n: nat, log: Log)
    requires Valid(d)
    ensures SameVariant(d, CallRepeatedly(d, n, log).next)
    ensures d.OnStack? ==> CallRepeatedly(d, n, log).next.obj.data == d.obj.data
    decreases n
  {
    if n > 0 {
      var s := Call(d, log);
      CallsKeepStorage(s.next, n - 1, s.log);
    }
  }

  /** The closure given to `new` runs at most once however often `call` is
      made, and exactly once when `call` is made at least once. */
  lemma RunCountOfNew(f: Closure, n: nat, log: Log)
    ensures var t := CallRepeatedly(New(f), n, log);
      && |t.log| - |log| <= 1
      && (|t.log| - |log| == 1 <==> n >= 1)
      && t.log[..|log|] == log
      && forall i :: |log| <= i < |t.log| ==> t.log[i] == f
  {
    NewHoldsClosure(f);
    AtMostOnce(New(f), n, log);
  }
}
