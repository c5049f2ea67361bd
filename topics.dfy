/**
 * The data the topic registry is built from: the values topics carry, the
 * record kept per topic, the two errors the library throws, and the
 * resolution of a topic's effective default value at registration time.
 */
module Topics {
  import opened Wrappers

  /** A JavaScript value of the kind `JSON.parse` produces, plus `undefined`. */
  datatype Value =
    | Undefined
    | Null
    | Bool(b: bool)
    | Num(x: real)
    | Str(s: string)
    | Arr(items: seq<Value>)
    | Obj(fields: seq<(string, Value)>)

  /** `JSON.parse`: `None` where it throws. */
  type Parser = string -> Option<Value>

  /** `JSON.stringify`. */
  type Serializer = Value -> string

  /** The identity of a context object made by `createContext`. */
  type ContextId = nat

  /** The identity of a state setter (one per mounted container instance). */
  type SetterId = nat

  /**
   * What `topicsCache` keeps for one topic. The provider component is a
   * closure over the topic's name, context, resolved default and persistence
   * flag, so the record holds those and the name is the registry key.
   */
  datatype Topic = Topic(context: ContextId, defaultValue: Value, persist: bool)

  /** The two errors the library throws; their message text is not modelled. */
  datatype PubSubError =
    | TopicNotAdded(topic: string)
    | NoPublisher(topic: string)

  ghost predicate NoDuplicates(s: seq<string>) {
    forall i, j :: 0 <= i < j < |s| ==> s[i] != s[j]
  }

  /**
   * The registry's invariant: `keys` lists every registered name exactly
   * once, and every topic owns its own context, allocated below `nextContext`.
   */
  ghost predicate WellFormed(keys: seq<string>, topics: map<string, Topic>, nextContext: nat) {
    && NoDuplicates(keys)
    && (forall n :: n in topics <==> n in keys)
    && (forall n :: n in topics ==> topics[n].context < nextContext)
    && DistinctContexts(topics)
  }

  ghost predicate DistinctContexts(topics: map<string, Topic>) {
    forall m, n :: m in topics && n in topics && m != n ==> topics[m].context != topics[n].context
  }

  /**
   * The effective default chosen by `addTopic`: the requested default unless
   * persistence is asked for and the store holds text under the topic's name;
   * then the parsed text, or the raw text where parsing fails. Never fails.
   */
  function ResolveDefault(name: string, requested: Value, persist: bool,
                          stored: map<string, string>, parse: Parser): (r: Value)
    ensures !persist ==> r == requested
    ensures persist && name !in stored ==> r == requested
    ensures persist && name in stored && parse(stored[name]).Some? ==> r == parse(stored[name]).value
    ensures persist && name in stored && parse(stored[name]).None? ==> r == Str(stored[name])
  {
    if persist && name in stored then
      match parse(stored[name])
      case Some(v) => v
      case None => Str(stored[name])
    else
      requested
  }

  /** Only the store's entry under the topic's own name is ever consulted. */
  lemma ResolveReadsOnlyOwnEntry(name: string, requested: Value, persist: bool,
                                 s1: map<string, string>, s2: map<string, string>, parse: Parser)
    requires name in s1 <==> name in s2
    requires name in s1 ==> s1[name] == s2[name]
    ensures ResolveDefault(name, requested, persist, s1, parse)
         == ResolveDefault(name, requested, persist, s2, parse)
  {
  }

  /**
   * Persistence round trip: once `v` has been written as `stringify(v)`, a
   * later registration with persistence resolves to `v` when the parser
   * inverts the serializer on it, to the written text when it cannot parse
   * it, and otherwise to whatever the parser returns (JSON drops `undefined`
   * fields and turns a `Date` into a string). Nothing here assumes the parser
   * does any of these.
   */
  lemma PersistedValueRoundTrip(name: string, v: Value, requested: Value,
                                stored: map<string, string>, parse: Parser, stringify: Serializer)
    ensures parse(stringify(v)) == Some(v) ==>
      ResolveDefault(name, requested, true, stored[name := stringify(v)], parse) == v
    ensures parse(stringify(v)) == None ==>
      ResolveDefault(name, requested, true, stored[name := stringify(v)], parse) == Str(stringify(v))
    ensures parse(stringify(v)).Some? ==>
      ResolveDefault(name, requested, true, stored[name := stringify(v)], parse) == parse(stringify(v)).value
  {
  }
}
