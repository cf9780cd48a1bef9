/** Two runs of the container and the binding, written as clients that
    see only the contracts of `NanoState.ValueContainer`. */
module Scenarios {
  import opened Registry
  import opened NanoState

  /** The values the scenarios dispatch. */
  datatype Text = Hello | World | Done

  /** One render of instance `h` followed by the commit of that render:
      the instance ends up showing the container's value and subscribed. */
  method RenderAndCommit<V(==)>(c: ValueContainer<V>, h: Handle)
    requires c.Valid()
    modifies c
    ensures c.Valid()
    ensures c.value == old(c.value) && c.notified == old(c.notified)
    ensures c.registry == Register(old(c.registry), h)
    ensures c.local == old(c.local)[h := c.value]
  {
    var shown := c.Render(h);
    c.Commit(h, shown);
  }

  /** Instances 1 and 2 mount on a fresh container holding Hello, then
      World is dispatched: both are called once, in mounting order. */
  method MountBothThenDispatch() returns (c: ValueContainer<Text>)
    ensures fresh(c) && c.Valid()
    ensures c.value == World && c.registry == []
    ensures c.notified == [(1, World), (2, World)]
    ensures c.local == map[1 := World, 2 := World]
  {
    c := new ValueContainer<Text>(Hello);
    RenderAndCommit(c, 1);
    RenderAndCommit(c, 2);
    assert c.registry == [1, 2];
    c.Dispatch(World);
  }

  /** Two instances subscribe to a container holding Hello; World is
      dispatched; both re-render, and each effect's cleanup runs before the
      effect commits again; the first unmounts;
      Done is dispatched. Only the second instance receives Done. */
  method SharedValue() returns (ghost log: seq<(Handle, Text)>, first: Text, second: Text)
    ensures log == [(1, World), (2, World), (2, Done)]
    ensures first == World && second == Done
  {
    var c := MountBothThenDispatch();
    c.Cleanup(1);
    RenderAndCommit(c, 1);
    c.Cleanup(2);
    RenderAndCommit(c, 2);
    assert c.registry == [1, 2];
    c.Cleanup(1);
    assert Unregister([1, 2], 1) == [2] by {
      assert [1, 2][1..] == [2];
    }
    c.Dispatch(Done);
    log := c.notified;
    first, second := c.local[1], c.local[2];
  }

  /** An instance renders Hello, another part of the tree dispatches World
      before the instance's effect runs, so nobody is notified; the effect
      then brings the instance up to date and subscribes it. */
  method LateCommit() returns (ghost log: seq<(Handle, Text)>, shown: Text, subscribed: seq<Handle>)
    ensures log == [] && shown == World && subscribed == [7]
  {
    var c := new ValueContainer<Text>(Hello);
    var r := c.Render(7);
    c.Dispatch(World);
    c.Commit(7, r);
    log := c.notified;
    shown, subscribed := c.local[7], c.registry;
  }

  /** The one case a commit leaves a subscribed instance out of step: the
      instance rendered Hello and subscribed, World reached it, Hello was
      dispatched again while it was unsubscribed, and the effect of a render
      that showed Hello then commits. The instance holds World, subscribed to
      a container that holds Hello. */
  method StaleCommit() returns (shown: Text, current: Text, subscribed: seq<Handle>)
    ensures shown == World && current == Hello && subscribed == [1]
  {
    var c := new ValueContainer<Text>(Hello);
    RenderAndCommit(c, 1);
    c.Dispatch(World);
    c.Dispatch(Hello);
    c.Commit(1, Hello);
    shown, current, subscribed := c.local[1], c.value, c.registry;
  }
}
