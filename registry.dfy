/** The subscriber registry of a value container and what notifying it does.

    The registry is a JavaScript `Map` used as a set of handles: `set` adds a
    key at the end unless it is already there, `delete` removes it, and
    iteration walks the keys in insertion order. It is modelled as a sequence
    of handles without duplicates. */
module Registry {

  /** Opaque, stable identity of one component instance (its state setter). */
  type Handle = nat

  /** No handle occurs twice: the registry is the key set of a `Map`. */
  predicate NoDup(hs: seq<Handle>)
  {
    forall i, j :: 0 <= i < j < |hs| ==> hs[i] != hs[j]
  }

  /** The tail of a duplicate-free registry is duplicate-free and misses the head. */
  lemma NoDupTail(hs: seq<Handle>)
    requires hs != []
    ensures NoDup(hs) ==> hs[0] !in hs[1..] && NoDup(hs[1..])
  {
    if NoDup(hs) {
      var rest := hs[1..];
      forall k | 0 <= k < |rest| ensures rest[k] != hs[0] {
        assert rest[k] == hs[k + 1];
      }
      forall i, j | 0 <= i < j < |rest| ensures rest[i] != rest[j] {
        assert rest[i] == hs[i + 1] && rest[j] == hs[j + 1];
      }
    }
  }

  /** `Map.set(h)`: adds `h` at the end; a handle already present keeps its place. */
  function Register(hs: seq<Handle>, h: Handle): (r: seq<Handle>)
    ensures h in r
    ensures forall g :: g in r <==> g in hs || g == h
    ensures |hs| <= |r| <= |hs| + 1 && r[..|hs|] == hs
    ensures h in hs ==> |r| == |hs|
    ensures NoDup(hs) ==> NoDup(r)
  {
    if h in hs then hs else hs + [h]
  }

  /** `Map.delete(h)`: removes `h` and keeps every other handle in its order. */
  function Unregister(hs: seq<Handle>, h: Handle): (r: seq<Handle>)
    ensures forall g :: g in r <==> g in hs && g != h
    ensures |r| <= |hs|
    ensures h !in hs ==> r == hs
    ensures NoDup(hs) ==> NoDup(r)
  {
    if hs == [] then []
    else if hs[0] == h then Unregister(hs[1..], h)
    else
      NoDupTail(hs);
      [hs[0]] + Unregister(hs[1..], h)
  }

  /** The calls made when the handles `hs` are walked in order with value `v`. */
  function Notifications<V>(hs: seq<Handle>, v: V): (r: seq<(Handle, V)>)
    ensures |r| == |hs|
    ensures forall k :: 0 <= k < |hs| ==> r[k] == (hs[k], v)
  {
    if hs == [] then [] else [(hs[0], v)] + Notifications(hs[1..], v)
  }

  /** How many of the calls in `log` went to handle `h`. */
  function Count<V>(log: seq<(Handle, V)>, h: Handle): (n: nat)
    ensures n == 0 <==> forall i :: 0 <= i < |log| ==> log[i].0 != h
  {
    if log == [] then 0
    else (if log[0].0 == h then 1 else 0) + Count(log[1..], h)
  }

  /** The instances' local states after each handle of `hs` was called with `v`:
      a handle is a state setter, so calling it makes its instance hold `v`. */
  function Deliver<V>(local: map<Handle, V>, hs: seq<Handle>, v: V): (r: map<Handle, V>)
    decreases |hs|
    ensures forall g :: g in r <==> g in local || g in hs
    ensures forall g :: g in hs ==> r[g] == v
    ensures forall g :: g in local && g !in hs ==> r[g] == local[g]
  {
    if hs == [] then local else Deliver(local[hs[0] := v], hs[1..], v)
  }

  lemma {:induction false} CountAppend<V>(a: seq<(Handle, V)>, b: seq<(Handle, V)>, h: Handle)
    ensures Count(a + b, h) == Count(a, h) + Count(b, h)
  {
    if a != [] {
      assert (a + b)[0] == a[0] && (a + b)[1..] == a[1..] + b;
      CountAppend(a[1..], b, h);
    } else {
      assert a + b == b;
    }
  }

  /** A handle that is not registered is never called. */
  lemma {:induction false} UnregisteredNotNotified<V>(hs: seq<Handle>, v: V, h: Handle)
    requires h !in hs
    ensures Count(Notifications(hs, v), h) == 0
  {
    if hs != [] {
      assert h !in hs[1..];
      UnregisteredNotNotified(hs[1..], v, h);
    }
  }

  /** Walking a registry calls each registered handle exactly once, and no other. */
  lemma {:induction false} NotifiedExactlyOnce<V>(hs: seq<Handle>, v: V, h: Handle)
    requires NoDup(hs)
    ensures Count(Notifications(hs, v), h) == if h in hs then 1 else 0
  {
    if hs != [] {
      var rest := hs[1..];
      NoDupTail(hs);
      assert Notifications(hs, v)[1..] == Notifications(rest, v);
      if hs[0] == h {
        UnregisteredNotNotified(rest, v, h);
      } else {
        NotifiedExactlyOnce(rest, v, h);
      }
    }
  }

  /** A handle removed from the registry is not called by a later walk. */
  lemma {:induction false} CleanedUpNotNotified<V>(hs: seq<Handle>, v: V, h: Handle)
    ensures Count(Notifications(Unregister(hs, h), v), h) == 0
  {
    UnregisteredNotNotified(Unregister(hs, h), v, h);
  }

  /** Removing a handle from a registry with one more handle at the end. */
  lemma {:induction false} UnregisterAppend(hs: seq<Handle>, x: Handle, h: Handle)
    ensures Unregister(hs + [x], h) == Unregister(hs, h) + (if x == h then [] else [x])
  {
    if hs == [] {
      assert [x][1..] == [];
    } else {
      assert (hs + [x])[1..] == hs[1..] + [x];
      UnregisterAppend(hs[1..], x, h);
    }
  }

  /** Removing the handle at index `k` leaves the others in place and in order. */
  lemma {:induction false} UnregisterAt(hs: seq<Handle>, k: nat)
    requires NoDup(hs) && k < |hs|
    ensures Unregister(hs, hs[k]) == hs[..k] + hs[k + 1..]
  {
    var rest := hs[1..];
    NoDupTail(hs);
    if k > 0 {
      assert rest[k - 1] == hs[k];
      UnregisterAt(rest, k - 1);
      assert hs[..k] == [hs[0]] + rest[..k - 1];
      assert rest[k..] == hs[k + 1..];
    }
  }

  /** A cleanup right after the first commit of an instance restores the registry. */
  lemma CleanupUndoesCommit(hs: seq<Handle>, h: Handle)
    requires h !in hs
    ensures Unregister(Register(hs, h), h) == hs
  {
    UnregisterAppend(hs, h, h);
  }

  /** Commits and cleanups of two different instances do not interfere. */
  lemma CommitCleanupCommute(hs: seq<Handle>, g: Handle, h: Handle)
    requires g != h
    ensures Unregister(Register(hs, h), g) == Register(Unregister(hs, g), h)
  {
    if h !in hs {
      UnregisterAppend(hs, h, g);
    }
  }

  /** Committing twice registers the instance once. */
  lemma RegisterIdempotent(hs: seq<Handle>, h: Handle)
    ensures Register(Register(hs, h), h) == Register(hs, h)
  {
  }

  /** Walking the registry one handle further extends the call log by that call. */
  lemma NotificationsSnoc<V>(hs: seq<Handle>, x: Handle, v: V)
    ensures Notifications(hs + [x], v) == Notifications(hs, v) + [(x, v)]
  {
    assert forall k :: 0 <= k < |hs| ==> (hs + [x])[k] == hs[k];
  }

  /** Calling one handle more updates one more instance. */
  lemma DeliverSnoc<V>(local: map<Handle, V>, hs: seq<Handle>, x: Handle, v: V)
    ensures Deliver(local, hs + [x], v) == Deliver(local, hs, v)[x := v]
  {
    var a, b := Deliver(local, hs + [x], v), Deliver(local, hs, v)[x := v];
    assert forall g :: g in hs + [x] <==> g in hs || g == x;
    assert a.Keys == b.Keys;
  }
}
