/**
 * `topicsCache` and the two operations of the default export that use it:
 * `addTopic` writes it, `getPublisher` reads it.
 */
module Registry {
  import opened Wrappers
  import opened Topics
  import opened Storage
  import opened Publisher

  /**
   * The process-wide topic cache. `keys` is the cache's key order (the order
   * of first registration) and `topics` its entries; `nextContext` is the
   * identity the next `createContext` call will return.
   */
  class TopicRegistry {
    var keys: seq<string>
    var topics: map<string, Topic>
    var nextContext: ContextId

    ghost predicate Valid()
      reads this
    {
      WellFormed(keys, topics, nextContext)
    }

    /** The cache starts empty. */
    constructor ()
      ensures Valid() && keys == [] && topics == map[]
    {
      keys := [];
      topics := map[];
      nextContext := 0;
    }

    /** Whether `addTopic` has registered `name`. */
    function HasTopic(name: string): (b: bool)
      reads this
      requires Valid()
      ensures b <==> name in keys
    {
      name in topics
    }

    /**
     * `addTopic`: a new name gets a fresh context and the default resolved
     * against the session store, and is appended to the key order. A name
     * already registered changes nothing: the first default and persistence
     * flag stay. No entry is ever removed or altered.
     */
    method AddTopic(name: string, defaultValue: Value, persist: bool, store: SessionStore, parse: Parser)
      requires Valid()
      modifies this
      ensures Valid()
      ensures HasTopic(name)
      ensures name in old(topics) ==>
        keys == old(keys) && topics == old(topics) && nextContext == old(nextContext)
      ensures name !in old(topics) ==>
        && keys == old(keys) + [name]
        && nextContext == old(nextContext) + 1
        && topics == old(topics)[name := Topic(old(nextContext),
                                               ResolveDefault(name, defaultValue, persist, store.items, parse),
                                               persist)]
      ensures forall n :: n in old(topics) ==> n in topics && topics[n] == old(topics)[n]
    {
      if name !in topics {
        var context := nextContext;
        nextContext := nextContext + 1;
        var normDefault := ResolveDefault(name, defaultValue, persist, store.items, parse);
        topics := topics[name := Topic(context, normDefault, persist)];
        keys := keys + [name];
        assert NoDuplicates(keys) by {
          assert forall i :: 0 <= i < |keys| - 1 ==> keys[i] in old(keys);
        }
      }
    }

    /**
     * `getPublisher(requested)` as rendered against the current cache: the
     * nest of the selected topics' providers. The not-added error inside the
     * fold is unreachable, and the nest holds the selection, innermost first.
     */
    function GetPublisher(requested: Option<seq<string>>): (r: Result<Element, PubSubError>)
      reads this
      requires Valid()
      ensures r.Success?
      ensures Frames(r.value) == Select(keys, requested)
      ensures NoDuplicates(Frames(r.value)) && RecordsMatch(r.value, topics)
    {
      ComposeNeverFails(keys, topics, nextContext, requested);
      Nest(Select(keys, requested), topics)
    }
  }

  /** Registering the same name twice keeps the first registration, whatever the second asks for. */
  method RegisterTwice(name: string, first: Value, second: Value, store: SessionStore, parse: Parser)
    returns (registry: TopicRegistry)
    ensures registry.Valid() && registry.keys == [name]
    ensures registry.topics[name].defaultValue == first && !registry.topics[name].persist
  {
    registry := new TopicRegistry();
    registry.AddTopic(name, first, false, store, parse);
    registry.AddTopic(name, second, true, store, parse);
  }
}
