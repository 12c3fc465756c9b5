/** The ILABMultiDelegate registry: an ordered list of delegates, optionally
    tied to a protocol every delegate must conform to, edited in place. */
module ILABMultiDelegate {
  import opened DelegateList

  datatype Option<T> = None | Some(value: T)

  /** A protocol, seen only through the runtime's answer to "does this object
      conform to it?". */
  datatype Protocol<!D> = Protocol(conformedBy: D -> bool)

  class MultiDelegate<D(==)> {
    /** The delegates, in dispatch order. */
    var delegates: seq<D>
    /** The protocol the delegates must conform to, if any. */
    const protocol: Option<Protocol<D>>

    /** May `d` be registered? With no protocol every delegate may. */
    predicate Conforms(d: D)
      ensures protocol.None? ==> Conforms(d)
    {
      protocol.None? || protocol.value.conformedBy(d)
    }

    /** The registry's invariant: no delegate twice, and each conforms. */
    ghost predicate Valid()
      reads this
    {
      Distinct(delegates) && forall d :: d in delegates ==> Conforms(d)
    }

    /** initWithProtocol: an empty registry tied to `protocol`. */
    constructor WithProtocol(protocol: Protocol<D>)
      ensures Valid()
      ensures this.protocol == Some(protocol) && delegates == []
    {
      this.protocol := Some(protocol);
      delegates := [];
    }

    /** initWithDelegates: a registry that starts as `delegates`, with no protocol. */
    constructor WithDelegates(delegates: seq<D>)
      requires Distinct(delegates)
      ensures Valid()
      ensures protocol == None && this.delegates == delegates
    {
      protocol := None;
      this.delegates := delegates;
    }

    /** initWithDelegates:protocol: a registry that starts as `delegates`,
        each of which conforms to `protocol`. */
    constructor WithDelegatesAndProtocol(delegates: seq<D>, protocol: Protocol<D>)
      requires Distinct(delegates)
      requires forall d :: d in delegates ==> protocol.conformedBy(d)
      ensures Valid()
      ensures this.protocol == Some(protocol) && this.delegates == delegates
    {
      this.protocol := Some(protocol);
      this.delegates := delegates;
    }

    /** The position of `d` in the list, found by a scan from the front. */
    method Find(d: D) returns (r: Option<nat>)
      ensures r == if d in delegates then Some(IndexOf(delegates, d)) else None
    {
      var i := 0;
      while i < |delegates|
        invariant 0 <= i <= |delegates|
        invariant d !in delegates[..i]
      {
        if delegates[i] == d {
          IndexOfFirst(delegates, d, i);
          return Some(i);
        }
        assert delegates[..i + 1] == delegates[..i] + [delegates[i]];
        i := i + 1;
      }
      assert delegates[..i] == delegates;
      return None;
    }

    /** removeDelegate: `d` is no longer held; removing one that is not held
        is no error and changes nothing. */
    method RemoveDelegate(d: D)
      requires Valid()
      modifies this
      ensures Valid()
      ensures delegates == Without(old(delegates), d)
      ensures d !in delegates
      ensures |delegates| == if d in old(delegates) then |old(delegates)| - 1 else |old(delegates)|
      ensures forall x, y :: x != d && y != d ==>
                (Before(delegates, x, y) <==> Before(old(delegates), x, y))
    {
      forall x, y | x != d && y != d
        ensures Before(Without(delegates, d), x, y) <==> Before(delegates, x, y)
      {
        WithoutKeepsOrder(delegates, d, x, y);
      }
      WithoutDistinct(delegates, d);
      WithoutLength(delegates, d);
      var k := Find(d);
      if k.Some? {
        WithoutAt(delegates, k.value);
        delegates := delegates[..k.value] + delegates[k.value + 1..];
      } else {
        WithoutAbsent(delegates, d);
      }
    }

    /** removeAllDelegates: the list is emptied. */
    method RemoveAllDelegates()
      requires Valid()
      modifies this
      ensures Valid()
      ensures delegates == []
    {
      delegates := [];
    }

    /** addDelegate: a delegate that does not conform is refused (the source
        raises an exception) and the list is left as it was; otherwise `d` is
        placed last, moved there if it was already held. */
    method AddDelegate(d: D) returns (accepted: bool)
      requires Valid()
      modifies this
      ensures Valid()
      ensures accepted == Conforms(d) && (protocol.None? ==> accepted)
      ensures accepted ==> Without(delegates, d) == Without(old(delegates), d)
      ensures !accepted ==> delegates == old(delegates)
      ensures accepted ==> delegates == Appended(old(delegates), d)
      ensures accepted ==> delegates[|delegates| - 1] == d && multiset(delegates)[d] == 1
      ensures accepted ==> forall x :: x in old(delegates) ==> x in delegates
      ensures accepted && d !in old(delegates) ==> delegates == old(delegates) + [d]
    {
      if !Conforms(d) {
        return false;
      }
      ghost var s := delegates;
      WithoutLength(s, d);
      MovedToPlacesOnce(s, d, |Without(s, d)|);
      MovedToKeepsOthers(s, d, |Without(s, d)|);
      AppendedAtEnd(s, d);
      RemoveDelegate(d);
      delegates := InsertAt(delegates, |delegates|, d);
      accepted := true;
    }

    /** insertDelegate:atIndex: `d` ends up at position `index` of the list,
        counted after `d`'s old entry, if any, is taken out. A delegate that
        does not conform is refused and the list is left as it was. */
    method InsertDelegateAtIndex(d: D, index: int) returns (accepted: bool)
      requires Valid()
      requires 0 <= index <= |Without(delegates, d)|
      modifies this
      ensures Valid()
      ensures accepted == Conforms(d)
      ensures accepted ==> Without(delegates, d) == Without(old(delegates), d)
      ensures !accepted ==> delegates == old(delegates)
      ensures accepted ==> delegates == MovedTo(old(delegates), d, index)
      ensures accepted ==> delegates[index] == d && multiset(delegates)[d] == 1
      ensures accepted ==> |delegates| == if d in old(delegates) then |old(delegates)| else |old(delegates)| + 1
    {
      if !Conforms(d) {
        return false;
      }
      WithoutLength(delegates, d);
      MovedToPlacesOnce(delegates, d, index);
      MovedToKeepsOthers(delegates, d, index);
      RemoveDelegate(d);
      delegates := InsertAt(delegates, index, d);
      accepted := true;
    }

    /** insertDelegate:beforeDelegate: `d` ends up immediately in front of
        `other`. A delegate that does not conform is refused and the list is
        left as it was. */
    method InsertDelegateBefore(d: D, other: D) returns (accepted: bool)
      requires Valid()
      requires other in delegates && d != other
      modifies this
      ensures Valid()
      ensures accepted == Conforms(d)
      ensures accepted ==> Without(delegates, d) == Without(old(delegates), d)
      ensures !accepted ==> delegates == old(delegates)
      ensures accepted ==> delegates == InsertedBefore(old(delegates), d, other)
      ensures accepted ==> other in delegates && IndexOf(delegates, d) + 1 == IndexOf(delegates, other)
      ensures accepted ==> multiset(delegates)[d] == 1
      ensures accepted ==> |delegates| == if d in old(delegates) then |old(delegates)| else |old(delegates)| + 1
    {
      if !Conforms(d) {
        return false;
      }
      ghost var s := delegates;
      ghost var i := IndexOf(Without(s, d), other);
      InsertedBeforeAdjacent(s, d, other);
      MovedToPlacesOnce(s, d, i);
      MovedToKeepsOthers(s, d, i);
      RemoveDelegate(d);
      assert other in delegates;
      var k := Find(other);
      IndexOfDistinct(delegates, k.value);
      assert k.value == i;
      delegates := InsertAt(delegates, k.value, d);
      assert delegates == MovedTo(s, d, i);
      assert delegates == InsertedBefore(s, d, other);
      accepted := true;
    }

    /** insertDelegate:afterDelegate: `d` ends up immediately behind `other`.
        A delegate that does not conform is refused and the list is left as
        it was. */
    method InsertDelegateAfter(d: D, other: D) returns (accepted: bool)
      requires Valid()
      requires other in delegates && d != other
      modifies this
      ensures Valid()
      ensures accepted == Conforms(d)
      ensures accepted ==> Without(delegates, d) == Without(old(delegates), d)
      ensures !accepted ==> delegates == old(delegates)
      ensures accepted ==> delegates == InsertedAfter(old(delegates), d, other)
      ensures accepted ==> other in delegates && IndexOf(delegates, other) + 1 == IndexOf(delegates, d)
      ensures accepted ==> multiset(delegates)[d] == 1
      ensures accepted ==> |delegates| == if d in old(delegates) then |old(delegates)| else |old(delegates)| + 1
    {
      if !Conforms(d) {
        return false;
      }
      ghost var s := delegates;
      ghost var i := IndexOf(Without(s, d), other) + 1;
      InsertedAfterAdjacent(s, d, other);
      MovedToPlacesOnce(s, d, i);
      MovedToKeepsOthers(s, d, i);
      RemoveDelegate(d);
      assert other in delegates;
      var k := Find(other);
      IndexOfDistinct(delegates, k.value);
      assert k.value + 1 == i;
      delegates := InsertAt(delegates, k.value + 1, d);
      assert delegates == MovedTo(s, d, i);
      assert delegates == InsertedAfter(s, d, other);
      accepted := true;
    }
  }
}
