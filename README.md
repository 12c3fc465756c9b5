# ILABMultiDelegate registry, modelled in Dafny

ILABMultiDelegate stands in for a single delegate and forwards every message
to a list of real delegates. This project models the part that holds that
list:

- the ordered list of delegates (the `delegates` pointer array);
- the optional `protocol` that every delegate must conform to;
- the three initialisers;
- the operations that edit the list: `addDelegate`,
  `insertDelegate:beforeDelegate:`, `insertDelegate:afterDelegate:`,
  `insertDelegate:atIndex:`, `removeDelegate` and `removeAllDelegates`.

There are two modules:

- `DelegateList` (`delegate_list.dfy`) describes the list as a value. Its
  functions say what each edit does to the order. `Without` takes a delegate
  out. `MovedTo` takes a delegate out and puts it back at a position. On top
  of these sit `Appended`, `InsertedBefore` and `InsertedAfter`. The lemmas
  prove the header's rule that re-inserting a delegate moves it and never
  duplicates it. They also prove that an edit keeps the relative order of all
  other delegates, using `Before(s, x, y)`: "x is dispatched to before y".
- `ILABMultiDelegate` (`multi_delegate.dfy`) holds the class
  `MultiDelegate`. It has a mutable `delegates: seq<D>` field and a
  `protocol` constant. Each method edits the field in place, the way the
  source edits its pointer array. `Valid()` is the registry's invariant: no
  delegate is held twice, and every delegate conforms. Each mutator keeps
  `Valid()`, and its `ensures` ties the new list to the old one through the
  `DelegateList` functions.

Delegates are abstract identities: a type parameter `D` that has equality,
which stands for pointer identity. A protocol appears only through the
runtime's conformance test. `Protocol(conformedBy)` wraps that test as a
function. When no protocol is set, every delegate conforms.

The source raises an exception when a non-conforming delegate is added. Here
the method returns `accepted == false` and leaves the list unchanged. The
same conformance rule applies to all four operations that add a delegate.

The header is silent on several points, so the model states them as
preconditions:

- the anchor of `insertDelegate:beforeDelegate:` / `afterDelegate:` must be
  in the list, and must differ from the delegate being inserted;
- the index of `insertDelegate:atIndex:` must lie between 0 and the length of
  the list without the delegate being inserted. The index counts positions in
  the list after the delegate's old entry, if any, has been taken out.

## Model

| member | source | states |
|---|---|---|
| `ILABMultiDelegate.MultiDelegate.WithProtocol` | Source/ILABMultiDelegate.h:75-83 | the new registry is empty, is tied to the given protocol, and satisfies the invariant |
| `ILABMultiDelegate.MultiDelegate.WithDelegates` | Source/ILABMultiDelegate.h:85-92 | the new registry's list is exactly the given delegates, in order, and no protocol is set |
| `ILABMultiDelegate.MultiDelegate.WithDelegatesAndProtocol` | Source/ILABMultiDelegate.h:94-103 | the list is exactly the given delegates, which must conform, and the protocol is set |
| `ILABMultiDelegate.MultiDelegate.Find` | Source/ILABMultiDelegate.h:72 | a scan of the list returns None exactly when the delegate is absent, and otherwise the delegate's first position `IndexOf` |
| `ILABMultiDelegate.MultiDelegate.AddDelegate` | Source/ILABMultiDelegate.h:20-25 | a non-conforming delegate is refused and the list is unchanged; with no protocol every delegate is accepted; an accepted delegate ends up last, exactly once; every earlier delegate is still held; the other delegates keep their order; a new delegate is simply appended |
| `ILABMultiDelegate.MultiDelegate.InsertDelegateBefore` | Source/ILABMultiDelegate.h:27-33 | a non-conforming delegate is refused and the list is unchanged; otherwise the delegate sits immediately before the anchor and occurs once, the length grows only if it was new, and leaving it aside the list is as before (moved, not duplicated) |
| `ILABMultiDelegate.MultiDelegate.InsertDelegateAfter` | Source/ILABMultiDelegate.h:35-41 | a non-conforming delegate is refused and the list is unchanged; otherwise the delegate sits immediately after the anchor and occurs once, the length grows only if it was new, and leaving it aside the list is as before |
| `ILABMultiDelegate.MultiDelegate.InsertDelegateAtIndex` | Source/ILABMultiDelegate.h:43-49 | a non-conforming delegate is refused and the list is unchanged; otherwise the delegate is at the given index exactly once, the length grows only if it was new, and leaving it aside the list is as before |
| `ILABMultiDelegate.MultiDelegate.RemoveDelegate` | Source/ILABMultiDelegate.h:51-56 | the delegate is no longer held; the list shrinks by one exactly when it was held; every other pair of delegates keeps its relative order |
| `ILABMultiDelegate.MultiDelegate.RemoveAllDelegates` | Source/ILABMultiDelegate.h:58-61 | the list is empty and the invariant still holds |
| `ILABMultiDelegate.MultiDelegate.Conforms` | Source/ILABMultiDelegate.h:73-77 | whether a delegate may be registered: with no protocol set (the property is optional) every delegate conforms; otherwise the runtime's conformance test for the protocol decides |
| `ILABMultiDelegate.MultiDelegate.Valid` | Source/ILABMultiDelegate.h:72-73 | the registry's invariant, kept by every constructor and mutator: no delegate is held twice, and every held delegate conforms to the protocol |
| `DelegateList.InsertAt` | Source/ILABMultiDelegate.h:43-49 | the positional insert: the result is one longer, holds the delegate at the index, keeps the entries before the index and shifts the ones from the index on up by one |
| `DelegateList.MovedTo` | Source/ILABMultiDelegate.h:28 | the move rule shared by the inserts: the delegate sits at the requested index of the list without its old entry; the result is one longer than that list; with the delegate left aside the list is unchanged |
| `DelegateList.Appended` | Source/ILABMultiDelegate.h:20-25 | addDelegate's result: the delegate is last, and with it left aside the list is unchanged |
| `DelegateList.InsertedBefore` | Source/ILABMultiDelegate.h:27-33 | insert-before's result: both the delegate and the anchor are held, and with the delegate left aside the list is unchanged |
| `DelegateList.InsertedAfter` | Source/ILABMultiDelegate.h:35-41 | insert-after's result: both the delegate and the anchor are held, and with the delegate left aside the list is unchanged |
| `DelegateList.IndexOf` | Source/ILABMultiDelegate.h:72 | the result is a valid position holding the delegate, and no earlier position holds it |
| `DelegateList.Without` | Source/ILABMultiDelegate.h:51-56 | the result holds exactly the delegates of the input other than the removed one, and is no longer |
| `DelegateList.WithoutAbsent` | Source/ILABMultiDelegate.h:51-56 | removing a delegate that is not held leaves the list as it was |
| `DelegateList.WithoutAt` | Source/ILABMultiDelegate.h:51-56 | in a list without duplicates, removing a delegate is cutting its one position out of the list |
| `DelegateList.WithoutLength` | Source/ILABMultiDelegate.h:51-56 | in a list without duplicates, removal shortens the list by one exactly when the delegate was held |
| `DelegateList.WithoutDistinct` | Source/ILABMultiDelegate.h:51-56 | removal keeps the list free of duplicates |
| `DelegateList.WithoutKeepsOrder` | Source/ILABMultiDelegate.h:51-56 | for any two other delegates, x comes before y after the removal exactly when it did before |
| `DelegateList.InsertDistinct` | Source/ILABMultiDelegate.h:43-49 | placing a delegate that is not held, at any valid position, keeps the list free of duplicates |
| `DelegateList.WithoutInsertAt` | Source/ILABMultiDelegate.h:43-49 | removing a delegate just placed gives back the list it was placed into |
| `DelegateList.OccursOnce` | Source/ILABMultiDelegate.h:28 | in a list without duplicates, a held delegate occurs exactly once |
| `DelegateList.MovedToPlacesOnce` | Source/ILABMultiDelegate.h:27-49 | after a move (re-)insert, the list has no duplicates; the delegate is at the requested position and occurs once; the length is unchanged if the delegate was already held and one more if it was not |
| `DelegateList.MovedToKeepsOthers` | Source/ILABMultiDelegate.h:27-49 | after a move, the same delegates (plus the inserted one) are held; leaving the moved delegate aside the list is unchanged; every other pair keeps its relative order |
| `DelegateList.AppendedAtEnd` | Source/ILABMultiDelegate.h:20-25 | after add, the delegate is last; every earlier delegate is still held; a delegate not held before is simply appended |
| `DelegateList.InsertedBeforeAdjacent` | Source/ILABMultiDelegate.h:27-33 | after insert-before, the delegate's position plus one is the anchor's position |
| `DelegateList.InsertedAfterAdjacent` | Source/ILABMultiDelegate.h:35-41 | after insert-after, the anchor's position plus one is the delegate's position |

## Left out

- Message forwarding to the delegates (Source/ILABMultiDelegate.h:67-68) is not modelled. It relies on Objective-C runtime introspection, and the header does not say how calls are routed or which return value wins.
- The weak references of `NSPointerArray` are not modelled: entries that turn nil when a delegate is freed. Delegates are plain identities that stay alive.
- Protocol conformance is not computed. The runtime's `conformsToProtocol:` test is a foreign call, so the model takes it as the function carried by `Protocol`.
- The exception for a non-conforming delegate is modelled as a `false` result that leaves the list unchanged. Exception propagation itself is not modelled.
- A missing anchor, an anchor equal to the inserted delegate, a negative index and an index past the end are preconditions. The header promises no behaviour for them, so the model invents no error results.
- `ILABMultiDelegate.MultiDelegate.InsertDelegateAtIndex`: the header does not say what the index means when the delegate is already in the list. The model counts it in the list after the old entry is removed. Given the invariant, the index then ranges over 0 to `|delegates|`, minus one when the delegate is already held.
- `ILABMultiDelegate.MultiDelegate.AddDelegate`: the header does not say what adding a held delegate does. The model moves it to the end, matching the inserts' "moved, not duplicated" rule, so the list never holds a delegate twice.
- `ILABMultiDelegate.MultiDelegate.WithDelegates`: the initial array must be free of duplicates. The header does not say what the initialisers do with a repeated delegate.
- `ILABMultiDelegate.MultiDelegate.WithDelegatesAndProtocol`: the initial delegates must also conform to the protocol, as the parameter's documentation demands. The header only promises an exception for delegates added later.
- Only a single optional protocol is modelled, as the header declares it. Several protocols with a strict/any switch are not part of this header.
- `NSInteger` is a bounded machine integer. The index is modelled as an unbounded `int` limited by the precondition, so wrap-around cannot arise.
- Allocation and the `init` plumbing of Foundation beyond the initial list and protocol are not modelled. The implementation file is not part of this model, so the bodies follow the header's documented contract.
