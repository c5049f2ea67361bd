/**
 * Whole-library walks: registration, a publisher, its container instances
 * and the hooks below it, put together as an application would.
 */
module Scenarios {
  import opened Wrappers
  import opened Topics
  import opened Storage
  import opened Publisher
  import opened Accessors
  import opened Registry
  import opened Container

  /**
   * Register "count" with default 0, mount the publisher for all topics, read
   * the value through the hooks, publish 5 and read again. `usePubSub`
   * hands out the mounted container's own setter.
   */
  method CountScenario(store: SessionStore, parse: Parser, stringify: Serializer)
    returns (pubsub: Result<PubSub, PubSubError>, setter: SetterId,
             before: Result<Value, PubSubError>, after: Result<Value, PubSubError>)
    modifies store
    ensures pubsub == Success(PubSub(Num(0.0), setter))
    ensures before == Success(Num(0.0)) && after == Success(Num(5.0))
  {
    var name := "count";
    var registry := new TopicRegistry();
    registry.AddTopic(name, Num(0.0), false, store, parse);
    var keys, topics := registry.keys, registry.topics;
    assert keys == [name] && name in Select(keys, None);
    var publisher := registry.GetPublisher(None);
    var nest := publisher.value;
    var instance := new ContainerInstance.Mount(name, topics[name], 0, store, stringify);
    setter := instance.setter;
    var t := instance.State();
    pubsub, before := ReadThrough(keys, topics, registry.nextContext, nest, _ => t, name);
    instance.Publish(SetTo(Num(5.0)), store, stringify);
    var t' := instance.State();
    var _, after' := ReadThrough(keys, topics, registry.nextContext, nest, _ => t', name);
    after := after';
  }

  /**
   * `usePubSub(name)` and `useSub(name)` below a publisher for all topics,
   * whose container for each topic `n` holds `state(n)`: the tuple and the
   * value of `name`'s own container.
   */
  method ReadThrough(keys: seq<string>, topics: map<string, Topic>, nextContext: nat,
                     nest: Element, state: string -> PubSub, name: string)
    returns (pubsub: Result<PubSub, PubSubError>, r: Result<Value, PubSubError>)
    requires WellFormed(keys, topics, nextContext) && name in keys
    requires Frames(nest) == keys && RecordsMatch(nest, topics)
    ensures pubsub == Success(state(name))
    ensures r == Success(state(name).value)
  {
    PublisherScoping(keys, topics, nextContext, None, nest, [], state, name);
    pubsub := UsePubSub(topics, Inside(nest, [], state), name);
    r := UseSub(topics, Inside(nest, [], state), name);
  }

  /**
   * Persistence round trip: a persisting topic updated to `v` is registered
   * again by a fresh process over the same store; its default is `v` when the
   * parser inverts the serializer on `v`.
   */
  method RoundTripScenario(name: string, initial: Value, v: Value, store: SessionStore,
                           parse: Parser, stringify: Serializer)
    returns (restored: Value)
    requires parse(stringify(v)) == Some(v)
    modifies store
    ensures restored == v
  {
    var first := new TopicRegistry();
    first.AddTopic(name, initial, true, store, parse);
    var instance := new ContainerInstance.Mount(name, first.topics[name], 0, store, stringify);
    instance.Publish(SetTo(v), store, stringify);
    assert name in store.items && store.items[name] == stringify(v);
    instance.Unmount();

    var second := new TopicRegistry();
    second.AddTopic(name, initial, true, store, parse);
    restored := second.topics[name].defaultValue;
  }
}
