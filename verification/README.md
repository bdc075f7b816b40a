# Event: a multicast callback registry

This project models `Event<TArgs...>`, a generic multicast callback registry written in C++. It also models the two wrapper
variants the registry stores: `InvocableStaticFunction`, which holds a free function, and `InvocableMember`, which holds a
member function and the receiver object it is called on.

- The registry is an ordered list of wrappers.
- `attach` appends a wrapper.
- `detach` builds a probe wrapper from its arguments and removes every entry whose hash equals the probe's hash.
- Firing the event (`operator()`) invokes every entry once, in list order, passing each the caller's arguments. The
  model takes the argument pack as one value that no callee changes; see `Events.Fire` under "## Left out".

The model has three modules:

- `Invocables` (`invocables.dfy`): the closed wrapper datatype `Invocable = Static(fn) | Member(memberFn, receiver)`. An
  invocation is modelled as the `Call` it makes. The wrapper hash is modelled as an abstract `Hasher`, a total and
  deterministic function of the wrapper's fields. Every property below therefore holds for any hash the platform computes.
- `Events` (`events.dfy`): the registry is `Event = seq<Invocable>`, with `Attach`, `Detach` and `Fire`. Each overload of
  `attach` and `detach` builds a wrapper and then does the same thing with it. So one `Attach` and one `Detach` cover both
  overloads, applied to `Static(fn)` or `Member(memberFn, receiver)`. `Fire` returns the trace of calls it makes. The
  registry is an immutable value, so firing leaves it as it was, and two fires with the same arguments give the same trace.
- `Demo` (`demo.dfy`): replays the lifecycle of the demonstration program in `main.cpp`.

## Behaviour worth knowing

- `detach` removes every entry whose hash matches, not only the first one, because it calls `remove_if`
  (Event.hpp:94, 102). One `detach` therefore removes all duplicates of a wrapper.
- `detach` compares hashes, not wrappers, so it can remove an entry for another receiver. The receiver's part of the
  hash is computed from the bytes stored in the receiver object, read up to the first zero byte (Event.hpp:57), not from
  its address. So `Member(f, a)` and `Member(f, b)` always hash alike when objects `a` and `b` start with the same bytes
  before a zero byte. For example, any two receivers whose first byte is 0 collide.
  `HashCollisionDetachesOtherReceiver` models this case: one `detach` removes the other receiver's entry.
  `HashDetachIsIdentityDetach` shows that hash matching equals exact identity matching whenever the hash separates the
  probe from the other entries.
- Null function or receiver addresses are not rejected by `attach`. What happens to them afterwards is undefined; see
  "## Left out".

## Model

| member | source | states |
|---|---|---|
| Invocables.Invoke | Event.hpp:35-69 | An invocation passes the arguments on unchanged. A free function is called without a receiver, and a member function is called on its stored receiver. The call identifies the wrapper exactly (`Target` recovers it). |
| Invocables.InvokeIsInjective | Event.hpp:35-69 | Distinct wrappers make distinct calls, so a fire trace shows exactly which entries ran. |
| Events.Attach | Event.hpp:81-89 | Attach grows the list by one and puts the new wrapper last. Existing entries keep their values and positions. No deduplication: the count of that wrapper rises by one even if it was already present. |
| Events.AttachAll | Event.hpp:81-89 | Attaching a sequence of wrappers one by one leaves the old entries first, then the new ones in the order they were attached. |
| Events.Detach | Event.hpp:91-106 | Detach keeps an order-preserving subsequence of the list. No survivor has the probe's hash. Every entry with a different hash survives with its full multiplicity. |
| Events.DetachIsUnique | Event.hpp:94-105 | Any order-preserving selection that drops exactly the entries with the probe's hash equals what Detach returns. So Detach's contract fully describes `remove_if`. |
| Events.DetachMissIsNoop | Event.hpp:94-105 | Detach returns the list unchanged if and only if no entry has the probe's hash. It makes the list strictly shorter if and only if some entry has it. A miss is a silent no-op. |
| Events.ProbeAlwaysRemoved | Event.hpp:91-106 | The wrapper that detach builds from its own arguments never survives the detach, because a probe built from the same arguments has the same hash as the stored entry (Event.hpp:96, 104). On the 64-bit target the model assumes, that holds; see "## Left out". |
| Events.DetachIsIdempotent | Event.hpp:91-106 | Detaching twice with the same arguments gives the same list as detaching once. |
| Events.DetachAppend | Event.hpp:94-105 | `remove_if` decides entry by entry, so detach distributes over concatenation of lists. |
| Events.DetachAfterAttach | Event.hpp:81-106 | Detach right after attach with the same arguments equals detach without the attach, because the new entry matches its probe (on the 64-bit target the model assumes; see "## Left out"). |
| Events.AttachThenDetachRestores | Event.hpp:81-106 | If no entry already present shares the new wrapper's hash, attach followed by detach with the same arguments restores the original list. |
| Events.DetachRemovesDuplicates | Event.hpp:81-106 | Attaching the same wrapper twice adds two entries. One detach removes both, leaving no copy and the same list as detaching without the two attaches. |
| Events.HashDetachIsIdentityDetach | Event.hpp:94-105 | If the hash separates the probe from every other entry present, detach by hash removes exactly the entries identical to the probe. |
| Events.HashCollisionDetachesOtherReceiver | Event.hpp:91-98 | For any hash under which `(f, a)` and `(f, b)` collide, with `a != b`, detaching `(f, a)` leaves no `(f, b)` entry. Identity matching keeps every `(f, b)` entry. |
| Events.Fire | Event.hpp:108-112 | Firing makes exactly one call per entry, in list order. Each call receives the one argument value `args`, which stands for the whole argument pack; see `Events.Fire` under "## Left out" for when the program differs. |
| Events.FireAfterAttach | Event.hpp:81-112 | After an attach, a fire makes the calls it made before and then the new wrapper's call, last. |
| Events.DuplicateAttachFiresTwice | Event.hpp:81-112 | A wrapper attached twice is called twice, back to back, at the end of every fire. |
| Events.FireFollowsAttachOrder | Event.hpp:81-112 | After any sequence of attaches to a fresh event, a fire calls the wrappers exactly in attachment order. |
| Events.FireAfterDetach | Event.hpp:91-112 | Every call made by a fire after a detach was also made before it, and none comes from an entry with the probe's hash. |
| Demo.MainScenario | main.cpp:23-34 | If the two demo entries do not share a hash, the three fires call `onEvent` on `test` and then `staticFunction`, then only `staticFunction`, then nothing. |
| Demo.MainScenarioWithCollision | main.cpp:23-28 | If the two demo entries share a hash, the first detach already silences both. |

## Left out

- Byte-level hashing: the real hash sums, modulo 2^64, `std::hash<std::string>` values of C strings read from memory.
  - For a free function, the string is the function's machine code (Event.hpp:28).
  - For a member wrapper, one string is the receiver object's current contents (Event.hpp:57). The other is the bytes of
    the stored pointer-to-member value itself (Event.hpp:58), not bytes at the function.

  Each string ends at the first zero byte. The model abstracts all of this to an arbitrary deterministic `Hasher` of the
  wrapper's fields. Because the receiver part reads the object's contents, the real hash can change when the object
  changes between attach and detach. The model treats the hash as fixed.
- 64-bit target: the model assumes `size_t` and pointers are 64 bits wide. On such targets a probe built from the same
  arguments always matches its stored entry. For a member wrapper, that relies on the bytes of the stored
  pointer-to-member value containing a zero byte (Event.hpp:58), because that value is the wrapper's last field
  (Event.hpp:63-64). With a 4-byte pointer-to-member that has no zero byte, the read continues past the wrapper. That
  read is undefined behaviour, and the stored entry's hash and the probe's hash can then differ, so `detach` can leave
  the entry in place. The model does not describe that case.
- Callee bodies and their side effects, such as the printing in `main.cpp`: an invocation is only its `Call` record.
- Ownership and C++ mechanics: `std::unique_ptr`, virtual destructors, perfect forwarding, reference categories and
  variadic templates. One abstract argument type `A` stands for the whole argument pack.
- Events.Fire: the model passes one unchanging value `args` to every entry. This is what the program does for reference
  parameters, such as the `const int&` in `main.cpp`. For a by-value parameter of a movable type, the program forwards
  the arguments again on every iteration (Event.hpp:111, then 37 and 68). So the first callee may move from them, and
  later entries receive moved-from values. The model does not describe that case. The model also assumes every callee
  returns. A callee that throws ends the loop at Event.hpp:110-111, and later entries do not run.
- Null addresses: attaching a null free function or a null receiver is not checked. In the program it is undefined
  behaviour later. `getHash` builds a string from a null pointer (Event.hpp:28, 57), and every later `detach` hashes
  every entry (Event.hpp:94-97, 102-105). `fire` calls through the null pointer (Event.hpp:37, 68). The model gives
  defined results for address 0 in `Detach` and `Fire`. Those results do not describe the program.
- Attach or detach from inside a callback while a fire is iterating: the code does not define what the loop sees.
- Receiver lifetime and dangling receivers: nothing in the code tracks them.
- Distinct pointer types: free-function, member-function and object addresses are all modelled as natural numbers.
  Nothing compares them across kinds except through the hash.
