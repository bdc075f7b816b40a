/**
  The demonstration program's lifecycle: attach a member function bound to
  an object and a free function, fire, detach the member, fire, detach the
  free function, fire. The callees' printing is not modelled; each fire is
  described by the calls it makes.
 */
module Demo {
  import opened Invocables
  import opened Events

  /** The three fires of the demonstration make the calls the program
      expects, provided the member entry and the free-function entry do not
      share a hash (otherwise the first detach would remove both). */
  lemma MainScenario<A>(hash: Hasher, onEvent: MethodAddr, test: ObjAddr,
                        staticFunction: FuncAddr, args: A)
    requires !SameHash(hash, Member(onEvent, test), Static(staticFunction))
    ensures var e1 := Attach(Attach(Empty, Member(onEvent, test)), Static(staticFunction));
            var e2 := Detach(hash, e1, Member(onEvent, test));
            var e3 := Detach(hash, e2, Static(staticFunction));
            && Fire(e1, args) == [BoundCall(test, onEvent, args), FreeCall(staticFunction, args)]
            && Fire(e2, args) == [FreeCall(staticFunction, args)]
            && Fire(e3, args) == []
  {
  }

  /** Had the two entries' hashes collided, the first detach would already
      have silenced both callbacks. */
  lemma MainScenarioWithCollision<A>(hash: Hasher, onEvent: MethodAddr, test: ObjAddr,
                                     staticFunction: FuncAddr, args: A)
    requires SameHash(hash, Member(onEvent, test), Static(staticFunction))
    ensures var e1 := Attach(Attach(Empty, Member(onEvent, test)), Static(staticFunction));
            Fire(Detach(hash, e1, Member(onEvent, test)), args) == []
  {
  }
}
