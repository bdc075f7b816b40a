/**
  The callable wrappers an event stores: a free function, or a member
  function bound to a receiver object. Both expose an invocation and a
  hash that the event uses as the wrapper's identity.

  Addresses are opaque numbers: they are only stored and compared, never
  dereferenced by the model. Invoking a wrapper is modelled by the call it
  makes (which function, on which receiver, with which arguments); what the
  callee then does is outside the model.
 */
module Invocables {

  /** Address of a free function with the event's argument signature. */
  type FuncAddr = nat

  /** Value of a pointer to a member function with the event's signature. */
  type MethodAddr = nat

  /** Address of a receiver object; a wrapper never owns what it points to. */
  type ObjAddr = nat

  /** The hash type is the platform's `size_t`, taken as 64 bits wide. */
  const SizeTBound: int := 0x1_0000_0000_0000_0000
  type SizeT = x: int | 0 <= x < SizeTBound

  /** The two wrapper variants: a free function, or a member function and
      the receiver it is invoked on. */
  datatype Invocable =
    | Static(fn: FuncAddr)
    | Member(memberFn: MethodAddr, receiver: ObjAddr)

  /** One invocation as seen from outside: the callee, the receiver for a
      bound member, and the argument values passed on. */
  datatype Call<A> =
    | FreeCall(fn: FuncAddr, args: A)
    | BoundCall(receiver: ObjAddr, memberFn: MethodAddr, args: A)

  /** The wrapper a call came from. */
  function Target<A>(c: Call<A>): Invocable
  {
    match c
    case FreeCall(f, _) => Static(f)
    case BoundCall(o, m, _) => Member(m, o)
  }

  /** Invoking a wrapper forwards the arguments unchanged to the wrapped
      callee: a free function is called with no receiver, a member function
      on its stored receiver. The call identifies the wrapper exactly. */
  function Invoke<A>(w: Invocable, args: A): (c: Call<A>)
    ensures c.args == args
    ensures c.FreeCall? <==> w.Static?
    ensures Target(c) == w
  {
    match w
    case Static(f) => FreeCall(f, args)
    case Member(m, o) => BoundCall(o, m, args)
  }

  /** A wrapper's hash. The concrete hash of the stored addresses is left
      abstract: any total function of the wrapper's fields will do, so every
      property proved here holds whichever hash the platform computes. Being
      a function, it gives the same value each time it is asked, so a probe
      built from the same arguments as an attached wrapper matches it. That
      holds for the program on a 64-bit target, where the bytes of a
      pointer-to-member always contain a zero byte that ends the read; the
      model assumes such a target. */
  type Hasher = Invocable -> SizeT

  /** The identity test detach uses: equal hashes, not equal wrappers. */
  predicate SameHash(hash: Hasher, a: Invocable, b: Invocable)
  {
    hash(a) == hash(b)
  }

  /** Distinct wrappers produce distinct calls for the same arguments, so a
      trace of calls shows exactly which wrappers ran. */
  lemma InvokeIsInjective<A>(v: Invocable, w: Invocable, args: A)
    requires v != w
    ensures Invoke(v, args) != Invoke(w, args)
  {
  }
}
