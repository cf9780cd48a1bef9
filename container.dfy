/** A single-value container shared by component instances, and the
    per-instance binding that subscribes an instance to it.

    The host framework's per-instance state is the map `local`; its
    render, commit and unmount phases are the explicit calls `Render`,
    `Commit` and `Cleanup`. A call that `Dispatch` makes to a registered
    handle is recorded in `notified` and, since a handle is the instance's
    state setter, sets that instance's entry of `local`. The reconcile call
    in `Commit` sets `local` only. */
module NanoState {
  import opened Registry

  class ValueContainer<V(==)> {
    /** The shared value; only `Dispatch` writes it. */
    var value: V
    /** Handles of the subscribed instances, in registration order. */
    var registry: seq<Handle>
    /** The state each instance holds for this container. */
    var local: map<Handle, V>
    /** The calls `Dispatch` made to registered handles, oldest first; a
        specification-only record, the source keeps no such log. */
    ghost var notified: seq<(Handle, V)>

    ghost predicate Valid()
      reads this
    {
      NoDup(registry)
    }

    /** Every subscribed instance holds the container's value. */
    ghost predicate InSync()
      reads this
    {
      forall h :: h in registry ==> h in local && local[h] == value
    }

    /** `createValueContainer(initial)`. */
    constructor (initial: V)
      ensures Valid() && InSync()
      ensures value == initial && registry == [] && local == map[] && notified == []
    {
      value := initial;
      registry := [];
      local := map[];
      notified := [];
    }

    /** The render part of `useValue`: the first render of an instance takes
        the container's value as its state, later renders show that state. */
    method Render(h: Handle) returns (rendered: V)
      modifies this`local
      ensures rendered == if h in old(local) then old(local)[h] else value
      ensures local == old(local)[h := rendered]
      ensures old(InSync()) ==> InSync()
    {
      if h !in local {
        local := local[h := value];
      }
      rendered := local[h];
    }

    /** The container's `dispatch`: a value equal to the current one changes
        nothing; another value is stored, the registry is emptied, and every
        handle registered before the call is called with it, in order. */
    method Dispatch(v: V)
      requires Valid()
      modifies this`value, this`registry, this`local, this`notified
      ensures Valid()
      ensures v == old(value) ==>
        value == old(value) && registry == old(registry) &&
        local == old(local) && notified == old(notified)
      ensures v != old(value) ==>
        value == v && registry == [] &&
        notified == old(notified) + Notifications(old(registry), v) &&
        local == Deliver(old(local), old(registry), v)
      ensures v != old(value) ==> forall h ::
        Count(notified, h) == Count(old(notified), h) + if h in old(registry) then 1 else 0
      ensures old(InSync()) ==> InSync()
    {
      if v == value {
        return;
      }
      value := v;
      var pending := registry;
      registry := [];
      var i := 0;
      while i < |pending|
        invariant 0 <= i <= |pending|
        invariant value == v && registry == []
        invariant notified == old(notified) + Notifications(pending[..i], v)
        invariant local == Deliver(old(local), pending[..i], v)
      {
        var h := pending[i];
        assert pending[..i + 1] == pending[..i] + [h];
        NotificationsSnoc(pending[..i], h, v);
        DeliverSnoc(old(local), pending[..i], h, v);
        notified := notified + [(h, v)];
        local := local[h := v];
        i := i + 1;
      }
      assert pending[..i] == pending;
      forall h
        ensures Count(notified, h) == Count(old(notified), h) + if h in pending then 1 else 0
      {
        CountAppend(old(notified), Notifications(pending, v), h);
        NotifiedExactlyOnce(pending, v, h);
      }
    }

    /** The effect of `useValue` after an instance committed a render that
        showed `rendered`: if the container moved on meanwhile, the instance
        takes the container's value; then its handle is registered. */
    method Commit(h: Handle, rendered: V)
      requires Valid()
      modifies this`registry, this`local
      ensures Valid()
      ensures rendered != value ==> local == old(local)[h := value]
      ensures rendered == value ==> local == old(local)
      ensures registry == Register(old(registry), h)
      ensures old(InSync()) &&
        (rendered != value || h in old(registry) || (h in old(local) && old(local)[h] == value))
        ==> InSync()
    {
      if rendered != value {
        local := local[h := value];
      }
      registry := Register(registry, h);
    }

    /** The cleanup of `useValue`'s effect: forgets the instance's handle. */
    method Cleanup(h: Handle)
      requires Valid()
      modifies this`registry
      ensures Valid()
      ensures registry == Unregister(old(registry), h)
      ensures old(InSync()) ==> InSync()
    {
      registry := Unregister(registry, h);
    }
  }
}
