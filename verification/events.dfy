/**
  The event: an ordered list of wrappers with attach, detach and fire.

  Each overload of attach and detach builds one wrapper from its arguments
  (a `Static` for a free function, a `Member` for a member function and its
  receiver) and then does the same thing with it, so each operation is
  modelled once, over the wrapper the overload builds.
 */
module Events {
  import opened Invocables

  /** The registry state: the attached wrappers, in attachment order. */
  type Event = seq<Invocable>

  /** A default-constructed event holds no wrapper. */
  const Empty: Event := []

  /** `r` keeps some of the entries of `s`, in their original order. */
  predicate IsSubsequence(r: seq<Invocable>, s: seq<Invocable>)
    decreases |s|
  {
    |r| == 0 ||
    (|s| > 0 &&
      ((r[0] == s[0] && IsSubsequence(r[1..], s[1..])) || IsSubsequence(r, s[1..])))
  }

  /** Attach appends the new wrapper after every existing one. Existing
      entries keep their values and positions, and nothing is deduplicated:
      the new entry is added even if an equal one is already present. */
  function Attach(e: Event, w: Invocable): (r: Event)
    ensures |r| == |e| + 1
    ensures forall i :: 0 <= i < |e| ==> r[i] == e[i]
    ensures r[|e|] == w
    ensures multiset(r)[w] == multiset(e)[w] + 1
  {
    e + [w]
  }

  /** Attaching several wrappers one after the other, in the given order. */
  function AttachAll(e: Event, ws: seq<Invocable>): (r: Event)
    ensures |r| == |e| + |ws|
    ensures forall i :: 0 <= i < |e| ==> r[i] == e[i]
    ensures forall i :: 0 <= i < |ws| ==> r[|e| + i] == ws[i]
    decreases |ws|
  {
    if |ws| == 0 then e else AttachAll(Attach(e, ws[0]), ws[1..])
  }

  /** Detach removes every entry whose hash equals the probe's (the probe
      being the wrapper the same arguments would attach). Survivors keep
      their relative order, every entry whose hash differs survives with its
      full multiplicity, and no entry with the probe's hash is left. */
  function Detach(hash: Hasher, e: Event, probe: Invocable): (r: Event)
    ensures IsSubsequence(r, e)
    ensures forall i :: 0 <= i < |r| ==> !SameHash(hash, r[i], probe)
    ensures forall w :: multiset(r)[w] == if SameHash(hash, w, probe) then 0 else multiset(e)[w]
  {
    if |e| == 0 then []
    else
      assert e == [e[0]] + e[1..];
      if SameHash(hash, e[0], probe) then Detach(hash, e[1..], probe)
      else [e[0]] + Detach(hash, e[1..], probe)
  }

  /** Detach by exact (function, receiver) identity instead of by hash: the
      reference the hash-based Detach is compared against. */
  function DetachIdentical(e: Event, probe: Invocable): (r: Event)
    ensures IsSubsequence(r, e)
    ensures probe !in r
    ensures forall w :: multiset(r)[w] == if w == probe then 0 else multiset(e)[w]
  {
    if |e| == 0 then []
    else
      assert e == [e[0]] + e[1..];
      if e[0] == probe then DetachIdentical(e[1..], probe)
      else [e[0]] + DetachIdentical(e[1..], probe)
  }

  /** Firing invokes every entry exactly once, in attachment order, each with
      the one argument value `args` (the whole argument pack, taken as a value
      no callee changes). The event itself is a value and is left as it was. */
  function Fire<A>(e: Event, args: A): (trace: seq<Call<A>>)
    ensures |trace| == |e|
    ensures forall i :: 0 <= i < |e| ==> trace[i] == Invoke(e[i], args)
  {
    if |e| == 0 then [] else [Invoke(e[0], args)] + Fire(e[1..], args)
  }

  // ---------------------------------------------------------------------
  // Detach

  /** A subsequence never holds more copies of a wrapper than its source. */
  lemma {:induction false} SubsequenceMultiset(r: seq<Invocable>, s: seq<Invocable>)
    requires IsSubsequence(r, s)
    ensures multiset(r) <= multiset(s)
    decreases |s|
  {
    if |r| == 0 {
    } else {
      assert s == [s[0]] + s[1..];
      if r[0] == s[0] && IsSubsequence(r[1..], s[1..]) {
        SubsequenceMultiset(r[1..], s[1..]);
        assert r == [r[0]] + r[1..];
      } else {
        SubsequenceMultiset(r, s[1..]);
      }
    }
  }

  /** The contract of Detach determines its result: any order-preserving
      selection of the entries that drops exactly the entries with the
      probe's hash is the one Detach returns. */
  lemma {:induction false} DetachIsUnique(hash: Hasher, e: Event, probe: Invocable, r: Event)
    requires IsSubsequence(r, e)
    requires forall w :: multiset(r)[w] == if SameHash(hash, w, probe) then 0 else multiset(e)[w]
    ensures r == Detach(hash, e, probe)
    decreases |e|
  {
    if |e| == 0 {
    } else {
      var x, t := e[0], e[1..];
      assert e == [x] + t;
      if SameHash(hash, x, probe) {
        assert multiset(r)[x] == 0;
        assert |r| == 0 || r[0] != x;
        assert IsSubsequence(r, t);
        DetachIsUnique(hash, t, probe, r);
      } else {
        assert multiset(r)[x] >= 1;
        if r[0] == x && IsSubsequence(r[1..], t) {
          assert r == [x] + r[1..];
          forall w
            ensures multiset(r[1..])[w] == if SameHash(hash, w, probe) then 0 else multiset(t)[w]
          {
            assert multiset(r)[w] == multiset([x])[w] + multiset(r[1..])[w];
          }
          DetachIsUnique(hash, t, probe, r[1..]);
        } else {
          assert IsSubsequence(r, t);
          SubsequenceMultiset(r, t);
          assert false;
        }
      }
    }
  }

  /** Detach leaves the event unchanged exactly when no entry has the
      probe's hash: a miss is a silent no-op, and a hit always shrinks it. */
  lemma {:induction false} DetachMissIsNoop(hash: Hasher, e: Event, probe: Invocable)
    ensures Detach(hash, e, probe) == e <==>
            forall i :: 0 <= i < |e| ==> !SameHash(hash, e[i], probe)
    ensures |Detach(hash, e, probe)| < |e| <==>
            exists i :: 0 <= i < |e| && SameHash(hash, e[i], probe)
  {
    var r := Detach(hash, e, probe);
    if forall i :: 0 <= i < |e| ==> !SameHash(hash, e[i], probe) {
      forall w
        ensures multiset(e)[w] == if SameHash(hash, w, probe) then 0 else multiset(e)[w]
      {
        assert SameHash(hash, w, probe) ==> w !in e;
      }
      assert IsSubsequence(e, e) by { SubsequenceReflexive(e); }
      DetachIsUnique(hash, e, probe, e);
    } else {
      var i :| 0 <= i < |e| && SameHash(hash, e[i], probe);
      assert multiset(r)[e[i]] == 0;
      assert e[i] in multiset(e);
      SubsequenceMultiset(r, e);
      var gone := multiset(e) - multiset(r);
      assert multiset(e) == multiset(r) + gone;
      assert e[i] in gone;
      assert |multiset(e)| == |multiset(r)| + |gone|;
    }
  }

  /** Every sequence is a subsequence of itself. */
  lemma {:induction false} SubsequenceReflexive(s: seq<Invocable>)
    ensures IsSubsequence(s, s)
    decreases |s|
  {
    if |s| > 0 {
      SubsequenceReflexive(s[1..]);
    }
  }

  /** Detaching twice with the same arguments is the same as once. */
  lemma {:induction false} DetachIsIdempotent(hash: Hasher, e: Event, probe: Invocable)
    ensures Detach(hash, Detach(hash, e, probe), probe) == Detach(hash, e, probe)
  {
    DetachMissIsNoop(hash, Detach(hash, e, probe), probe);
  }

  /** The wrapper built from detach's own arguments never survives detach,
      given that the probe's hash equals the stored entry's hash (see
      `Hasher`). */
  lemma ProbeAlwaysRemoved(hash: Hasher, e: Event, w: Invocable)
    ensures w !in Detach(hash, e, w)
  {
  }

  /** Detach works entry by entry, so it distributes over concatenation. */
  lemma {:induction false} DetachAppend(hash: Hasher, s: Event, t: Event, probe: Invocable)
    ensures Detach(hash, s + t, probe) == Detach(hash, s, probe) + Detach(hash, t, probe)
    decreases |s|
  {
    if |s| == 0 {
      assert s + t == t;
    } else {
      assert (s + t)[0] == s[0];
      assert (s + t)[1..] == s[1..] + t;
      DetachAppend(hash, s[1..], t, probe);
    }
  }

  /** Detaching right after an attach with the same arguments is the same
      as detaching without that attach: the new entry matches its own probe. */
  lemma {:induction false} DetachAfterAttach(hash: Hasher, e: Event, w: Invocable)
    ensures Detach(hash, Attach(e, w), w) == Detach(hash, e, w)
  {
    DetachAppend(hash, e, [w], w);
    assert Detach(hash, [w], w) == [];
  }

  /** Attach followed by detach of the same arguments restores the event,
      provided no entry already present shares the new entry's hash. */
  lemma {:induction false} AttachThenDetachRestores(hash: Hasher, e: Event, w: Invocable)
    requires forall i :: 0 <= i < |e| ==> !SameHash(hash, e[i], w)
    ensures Detach(hash, Attach(e, w), w) == e
  {
    DetachAfterAttach(hash, e, w);
    DetachMissIsNoop(hash, e, w);
  }

  /** Attaching the same wrapper twice gives two entries, and one detach
      removes both of them together with every other entry of that hash. */
  lemma {:induction false} DetachRemovesDuplicates(hash: Hasher, e: Event, w: Invocable)
    ensures var twice := Attach(Attach(e, w), w);
            multiset(twice)[w] == multiset(e)[w] + 2 &&
            Detach(hash, twice, w) == Detach(hash, e, w) &&
            w !in Detach(hash, twice, w)
  {
    DetachAfterAttach(hash, Attach(e, w), w);
    DetachAfterAttach(hash, e, w);
  }

  /** When the hash tells the probe apart from every other entry present,
      detach by hash removes exactly the entries identical to the probe. */
  lemma {:induction false} HashDetachIsIdentityDetach(hash: Hasher, e: Event, probe: Invocable)
    requires forall i :: 0 <= i < |e| && e[i] != probe ==> !SameHash(hash, e[i], probe)
    ensures Detach(hash, e, probe) == DetachIdentical(e, probe)
  {
    var r := DetachIdentical(e, probe);
    forall w
      ensures multiset(r)[w] == if SameHash(hash, w, probe) then 0 else multiset(e)[w]
    {
    }
    DetachIsUnique(hash, e, probe, r);
  }

  /** When two receivers of the same member function share a hash (as they
      do whenever their objects start with the same bytes), detaching one
      receiver's entry also removes every entry of the other receiver, which
      the identity-based detach keeps. */
  lemma HashCollisionDetachesOtherReceiver(hash: Hasher, e: Event, memberFn: MethodAddr,
                                           a: ObjAddr, b: ObjAddr)
    requires a != b
    requires SameHash(hash, Member(memberFn, a), Member(memberFn, b))
    ensures Member(memberFn, b) !in Detach(hash, e, Member(memberFn, a))
    ensures multiset(DetachIdentical(e, Member(memberFn, a)))[Member(memberFn, b)] ==
            multiset(e)[Member(memberFn, b)]
  {
  }

  // ---------------------------------------------------------------------
  // Fire

  /** After an attach, a fire runs everything it ran before and then the
      new entry, last. */
  lemma FireAfterAttach<A>(e: Event, w: Invocable, args: A)
    ensures Fire(Attach(e, w), args) == Fire(e, args) + [Invoke(w, args)]
  {
  }

  /** Attaching the same wrapper twice makes it run twice per fire. */
  lemma DuplicateAttachFiresTwice<A>(e: Event, w: Invocable, args: A)
    ensures Fire(Attach(Attach(e, w), w), args) == Fire(e, args) + [Invoke(w, args), Invoke(w, args)]
  {
  }

  /** For any sequence of attaches to a fresh event, every fire invokes the
      attached wrappers exactly in the order they were attached. */
  lemma FireFollowsAttachOrder<A>(ws: seq<Invocable>, args: A)
    ensures var trace := Fire(AttachAll(Empty, ws), args);
            |trace| == |ws| && forall i :: 0 <= i < |ws| ==> trace[i] == Invoke(ws[i], args)
  {
  }

  /** Every call a fire makes after a detach was also made before it, and
      none of them goes to a wrapper with the probe's hash. */
  lemma FireAfterDetach<A>(hash: Hasher, e: Event, probe: Invocable, args: A)
    ensures forall c :: c in Fire(Detach(hash, e, probe), args) ==>
              c in Fire(e, args) && !SameHash(hash, Target(c), probe)
  {
  }
}
