/**
 The registry of decoded-frame listeners (class CANBusSubscriber in main.py):
 an ordered list of callbacks without duplicates, to which every received
 frame is dispatched in registration order.

 A callback is an opaque identity compared with `==`, which stands for
 Python's `in` and `list.remove`.
 */
module Subscribers {

  predicate NoDuplicates<T(==)>(s: seq<T>)
  {
    forall i, j :: 0 <= i < j < |s| ==> s[i] != s[j]
  }

  /** Python's `list.remove(c)` on a list that holds `c`: drop the first occurrence. */
  function RemoveFirst<T(==)>(s: seq<T>, c: T): (r: seq<T>)
    ensures c in s ==> |r| == |s| - 1
    ensures c !in s ==> r == s
    ensures multiset(r) == multiset(s) - multiset{c}
  {
    if s == [] then []
    else
      assert s == [s[0]] + s[1..];
      if s[0] == c then s[1..] else [s[0]] + RemoveFirst(s[1..], c)
  }

  /** Removing the first occurrence cuts exactly that position and keeps the
      relative order of everything else. */
  lemma {:induction false} RemoveFirstAt<T>(s: seq<T>, c: T, i: nat)
    requires i < |s| && s[i] == c && c !in s[..i]
    ensures RemoveFirst(s, c) == s[..i] + s[i + 1..]
  {
    if i > 0 {
      assert s[0] != c by { assert s[..i][0] == s[0]; }
      assert s[1..][..i - 1] == s[1..i];
      assert c !in s[1..][..i - 1] by { assert s[1..i] == s[..i][1..]; }
      RemoveFirstAt(s[1..], c, i - 1);
      assert [s[0]] + s[1..i] == s[..i];
    }
  }

  /** On a duplicate-free list, removal leaves no trace of the callback and no duplicate. */
  lemma RemoveFirstNoDuplicates<T>(s: seq<T>, c: T)
    requires NoDuplicates(s)
    ensures c !in RemoveFirst(s, c)
    ensures NoDuplicates(RemoveFirst(s, c))
  {
    if c in s {
      var i :| 0 <= i < |s| && s[i] == c;
      assert c !in s[..i];
      RemoveFirstAt(s, c, i);
      var r := s[..i] + s[i + 1..];
      forall a, b | 0 <= a < b < |r| ensures r[a] != r[b] {
        var a' := if a < i then a else a + 1;
        var b' := if b < i then b else b + 1;
        assert r[a] == s[a'] && r[b] == s[b'];
      }
    }
  }

  /** In a duplicate-free list every member occurs exactly once. */
  lemma {:induction false} NoDuplicatesOccursOnce<T>(s: seq<T>, c: T)
    requires NoDuplicates(s) && c in s
    ensures multiset(s)[c] == 1
  {
    assert s == [s[0]] + s[1..];
    if s[0] == c {
      assert c !in s[1..];
    } else {
      NoDuplicatesOccursOnce(s[1..], c);
    }
  }

  /** The list after subscribing `c`: appended at the end unless already present. */
  function Subscribed<T(==)>(s: seq<T>, c: T): (r: seq<T>)
    ensures c in r && s <= r && |r| <= |s| + 1
    ensures c in s ==> r == s
    ensures NoDuplicates(s) ==> NoDuplicates(r)
  {
    if c in s then s else s + [c]
  }

  /** The list of registered callbacks. */
  class CanBusSubscriber<C(==)> {
    var subscribers: seq<C>

    /** The registry never holds a callback twice. */
    ghost predicate Valid()
      reads this
    {
      NoDuplicates(subscribers)
    }

    constructor ()
      ensures Valid() && subscribers == []
    {
      subscribers := [];
    }

    /** Appends `callback` unless it is already registered. */
    method Subscribe(callback: C)
      requires Valid()
      modifies this
      ensures Valid()
      ensures subscribers == Subscribed(old(subscribers), callback)
      ensures callback in old(subscribers) ==> subscribers == old(subscribers)
      ensures callback !in old(subscribers) ==> subscribers == old(subscribers) + [callback]
      ensures multiset(subscribers)[callback] == 1
    {
      if callback !in subscribers {
        subscribers := subscribers + [callback];
      }
      NoDuplicatesOccursOnce(subscribers, callback);
    }

    /** Removes `callback` if it is registered; does nothing otherwise. */
    method Unsubscribe(callback: C)
      requires Valid()
      modifies this
      ensures Valid()
      ensures subscribers == RemoveFirst(old(subscribers), callback)
      ensures callback !in subscribers
      ensures forall i :: 0 <= i < |old(subscribers)| && old(subscribers)[i] == callback ==>
                subscribers == old(subscribers)[..i] + old(subscribers)[i + 1..]
    {
      RemoveFirstNoDuplicates(subscribers, callback);
      if callback in subscribers {
        ghost var i :| 0 <= i < |subscribers| && subscribers[i] == callback;
        RemoveFirstAt(subscribers, callback, i);
        subscribers := RemoveFirst(subscribers, callback);
      }
    }

    /** Awaits every registered callback with `message`, in registration order; the
        result is the sequence of calls made. */
    method NotifySubscribers<M>(message: M) returns (calls: seq<(C, M)>)
      requires Valid()
      ensures |calls| == |subscribers|
      ensures forall i :: 0 <= i < |calls| ==> calls[i] == (subscribers[i], message)
      ensures NoDuplicates(calls)
    {
      calls := [];
      for i := 0 to |subscribers|
        invariant |calls| == i
        invariant forall j :: 0 <= j < i ==> calls[j] == (subscribers[j], message)
      {
        calls := calls + [(subscribers[i], message)];
      }
    }
  }

  /** Subscribing twice is subscribing once. */
  lemma SubscribeIdempotent<T>(s: seq<T>, c: T)
    ensures Subscribed(Subscribed(s, c), c) == Subscribed(s, c)
  {
  }

  /** A callback subscribed twice is dispatched to once per frame. */
  lemma SubscribeTwiceDispatchedOnce<T>(s: seq<T>, c: T)
    requires NoDuplicates(s)
    ensures multiset(Subscribed(Subscribed(s, c), c))[c] == 1
  {
    NoDuplicatesOccursOnce(Subscribed(s, c), c);
  }

  /** Unsubscribing twice is unsubscribing once. */
  lemma UnsubscribeIdempotent<T>(s: seq<T>, c: T)
    requires NoDuplicates(s)
    ensures RemoveFirst(RemoveFirst(s, c), c) == RemoveFirst(s, c)
  {
    RemoveFirstNoDuplicates(s, c);
  }

  /** Unsubscribing a freshly subscribed callback restores the registry. */
  lemma UnsubscribeUndoesSubscribe<T>(s: seq<T>, c: T)
    requires c !in s
    ensures RemoveFirst(Subscribed(s, c), c) == s
  {
    var t := s + [c];
    assert t[..|s|] == s;
    RemoveFirstAt(t, c, |s|);
  }
}
