/**
 * The provider component `createPublishProvider` builds for a topic. Each
 * mount is one container instance: it holds the topic's current value, knows
 * whether it is still mounted, and mirrors every change of the value into the
 * session store while mounted when the topic persists.
 */
module Container {
  import opened Topics
  import opened Storage
  import opened Accessors

  /** `SetStateAction`: a new value, or a function from the current value to the next. */
  datatype Action = SetTo(v: Value) | Apply(f: Value -> Value)

  /** The value a state update asks for: the given value, or the updater applied to the current one. */
  function Requested(action: Action, current: Value): Value {
    match action
    case SetTo(v) => v
    case Apply(f) => f(current)
  }

  class ContainerInstance {
    const topic: string
    const persist: bool
    const setter: SetterId
    var value: Value
    /** The `isMounted` ref: set on mount, cleared by the cleanup effect. */
    var mounted: bool

    /**
     * Mounting: the state starts at the topic's resolved default, and the
     * value effect runs once with it, writing it to the store when the topic
     * persists.
     */
    constructor Mount(name: string, record: Topic, setter: SetterId, store: SessionStore, stringify: Serializer)
      modifies store
      ensures topic == name && persist == record.persist && this.setter == setter
      ensures value == record.defaultValue && mounted
      ensures store.items == if record.persist then old(store.items)[name := stringify(record.defaultValue)]
                             else old(store.items)
    {
      topic := name;
      persist := record.persist;
      this.setter := setter;
      value := record.defaultValue;
      mounted := true;
      new;
      if mounted && persist {
        store.SetItem(topic, stringify(value));
      }
    }

    /** The tuple this instance publishes into its topic's context. */
    function State(): PubSub
      reads this
    {
      PubSub(value, setter)
    }

    /**
     * Calling the setter. The value becomes the requested one; the value
     * effect runs only when that differs from the previous value, and writes
     * the store only while the instance is mounted and the topic persists.
     * After unmount the store is never written.
     */
    method Publish(action: Action, store: SessionStore, stringify: Serializer)
      modifies this, store
      ensures value == Requested(action, old(value)) && mounted == old(mounted)
      ensures store.items ==
        if old(mounted) && persist && value != old(value) then old(store.items)[topic := stringify(value)]
        else old(store.items)
      ensures !old(mounted) ==> store.items == old(store.items)
    {
      var next := Requested(action, value);
      if next != value {
        value := next;
        if mounted && persist {
          store.SetItem(topic, stringify(value));
        }
      }
    }

    /** The cleanup effect: the instance counts as unmounted from now on. */
    method Unmount()
      modifies this
      ensures !mounted && value == old(value)
    {
      mounted := false;
    }
  }

  /**
   * Persistence across a lifecycle: the store ends up holding the last value
   * published while mounted, and an update after unmount leaves it alone.
   * (When `v` equals the default, the mount already wrote its text.)
   */
  method PostUnmountSilence(name: string, record: Topic, v: Value, w: Value,
                            store: SessionStore, stringify: Serializer)
    requires record.persist
    modifies store
    ensures store.items == old(store.items)[name := stringify(v)]
  {
    var instance := new ContainerInstance.Mount(name, record, 0, store, stringify);
    instance.Publish(SetTo(v), store, stringify);
    instance.Unmount();
    instance.Publish(SetTo(w), store, stringify);
  }
}
