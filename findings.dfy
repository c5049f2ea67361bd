/**
 * The cache is a plain JavaScript object, and `!topicsCache[name]` asks
 * whether the property lookup yields a falsy value. A lookup also finds the
 * properties every object inherits from `Object.prototype`, so for those
 * names the test says "already there" although no topic was ever added.
 * This module models the test as written; the rest of the model uses the
 * intended own-entry test (`name in topics`).
 */
module Findings {
  import opened Wrappers
  import opened Topics
  import opened Accessors
  import opened Storage
  import opened Registry

  /** Property names a plain object inherits from `Object.prototype`. */
  const InheritedNames: set<string> := {
    "constructor", "hasOwnProperty", "isPrototypeOf", "propertyIsEnumerable",
    "toLocaleString", "toString", "valueOf", "__proto__",
    "__defineGetter__", "__defineSetter__", "__lookupGetter__", "__lookupSetter__"
  }

  /** `topicsCache[name]` is truthy: an own entry, or an inherited property. */
  predicate LookupIsTruthy(topics: map<string, Topic>, name: string) {
    name in topics || name in InheritedNames
  }

  /** `addTopic` with its guard as written, on the cache's key order, entries and context counter. */
  function AddTopicAsWritten(keys: seq<string>, topics: map<string, Topic>, nextContext: ContextId,
                             name: string, defaultValue: Value, persist: bool,
                             stored: map<string, string>, parse: Parser)
    : (r: (seq<string>, map<string, Topic>, ContextId))
    ensures name in topics || name in InheritedNames ==> r == (keys, topics, nextContext)
    ensures name !in topics && name !in InheritedNames ==>
      && r.0 == keys + [name]
      && r.1 == topics[name := Topic(nextContext, ResolveDefault(name, defaultValue, persist, stored, parse), persist)]
      && r.2 == nextContext + 1
  {
    if LookupIsTruthy(topics, name) then (keys, topics, nextContext)
    else
      var record := Topic(nextContext, ResolveDefault(name, defaultValue, persist, stored, parse), persist);
      (keys + [name], topics[name := record], nextContext + 1)
  }

  /** An inherited name can never be registered: `addTopic("toString", …)` is silently ignored. */
  lemma InheritedNameNeverAdded(keys: seq<string>, topics: map<string, Topic>, nextContext: ContextId,
                                name: string, defaultValue: Value, persist: bool,
                                stored: map<string, string>, parse: Parser)
    requires name in InheritedNames && name !in topics
    ensures name !in AddTopicAsWritten(keys, topics, nextContext, name, defaultValue, persist, stored, parse).1
  {
  }

  /**
   * Off the inherited names, `addTopic` as written and the intended
   * `AddTopic` make the same change to the key order, the entries and the
   * context counter.
   */
  method AsWrittenAgreesOffInherited(registry: TopicRegistry, name: string, defaultValue: Value,
                                     persist: bool, store: SessionStore, parse: Parser)
    requires registry.Valid() && name !in InheritedNames
    modifies registry
    ensures (registry.keys, registry.topics, registry.nextContext)
         == AddTopicAsWritten(old(registry.keys), old(registry.topics), old(registry.nextContext),
                              name, defaultValue, persist, store.items, parse)
  {
    registry.AddTopic(name, defaultValue, persist, store, parse);
  }

  /** The registration check of the three hooks as written: `None` when it lets the call through. */
  function AccessorCheckAsWritten(topics: map<string, Topic>, name: string): (r: Option<PubSubError>)
    ensures r.None? <==> name in topics || name in InheritedNames
    ensures r.Some? ==> r.value == TopicNotAdded(name)
  {
    if !LookupIsTruthy(topics, name) then Some(TopicNotAdded(name)) else None
  }

  /**
   * For an unregistered inherited name the hooks' check as written lets the
   * call through (the code then reads `.context` of a function and passes
   * `undefined` to `useContext`), where the intended check fails it with
   * `TopicNotAdded`.
   */
  lemma InheritedNamePassesAccessorCheck(topics: map<string, Topic>, scope: Scope, name: string)
    requires name in InheritedNames && name !in topics
    ensures AccessorCheckAsWritten(topics, name).None?
    ensures UsePubSub(topics, scope, name) == Failure(TopicNotAdded(name))
  {
  }
}
