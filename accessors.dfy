/**
 * `usePubSub`, `useSub` and `usePub`: the hooks a component calls to reach a
 * topic's state. The framework's context lookup is made explicit as a stack
 * of provider frames, searched from the nearest enclosing provider outwards.
 */
module Accessors {
  import opened Wrappers
  import opened Topics
  import opened Publisher

  /** The `[value, setter]` tuple a provider publishes into its context. */
  datatype PubSub = PubSub(value: Value, setter: SetterId)

  /** One mounted provider: the context it fills and the tuple it supplies. */
  datatype Frame = Frame(context: ContextId, state: PubSub)

  /** The providers enclosing a call site, outermost first: the last frame is the nearest. */
  type Scope = seq<Frame>

  /** `useContext`: the tuple of the nearest enclosing provider of `context`, `None` for none. */
  function Nearest(scope: Scope, context: ContextId): (r: Option<PubSub>)
    ensures r.None? <==> forall i :: 0 <= i < |scope| ==> scope[i].context != context
    decreases |scope|
  {
    if scope == [] then None
    else if scope[|scope| - 1].context == context then Some(scope[|scope| - 1].state)
    else Nearest(scope[..|scope| - 1], context)
  }

  /** The frame `Nearest` finds is the innermost one for that context. */
  lemma {:induction false} NearestIsInnermost(scope: Scope, context: ContextId, i: nat)
    requires i < |scope| && scope[i].context == context
    requires forall j :: i < j < |scope| ==> scope[j].context != context
    ensures Nearest(scope, context) == Some(scope[i].state)
    decreases |scope|
  {
    if i < |scope| - 1 {
      NearestIsInnermost(scope[..|scope| - 1], context, i);
    }
  }

  /**
   * `usePubSub`: fails with `TopicNotAdded` for an unregistered name whatever
   * the scope, then with `NoPublisher` when no provider of the topic encloses
   * the call site; otherwise yields the nearest provider's tuple.
   */
  function UsePubSub(topics: map<string, Topic>, scope: Scope, name: string): (r: Result<PubSub, PubSubError>)
    ensures name in topics ==>
      (r == Failure(NoPublisher(name)) <==>
       forall i :: 0 <= i < |scope| ==> scope[i].context != topics[name].context)
    ensures r.Success? ==> name in topics && Some(r.value) == Nearest(scope, topics[name].context)
    ensures name in topics && Nearest(scope, topics[name].context).Some? ==>
      r == Success(Nearest(scope, topics[name].context).value)
    ensures r == Failure(TopicNotAdded(name)) <==> name !in topics
  {
    if name !in topics then Failure(TopicNotAdded(name))
    else
      match Nearest(scope, topics[name].context)
      case None => Failure(NoPublisher(name))
      case Some(tuple) => Success(tuple)
  }

  /** `useSub`: the same checks as `usePubSub`, then the tuple's value. */
  function UseSub(topics: map<string, Topic>, scope: Scope, name: string): (r: Result<Value, PubSubError>)
    ensures name in topics ==>
      (r == Failure(NoPublisher(name)) <==>
       forall i :: 0 <= i < |scope| ==> scope[i].context != topics[name].context)
    ensures r.Success? ==>
      name in topics && Nearest(scope, topics[name].context).Some? &&
      r.value == Nearest(scope, topics[name].context).value.value
    ensures name in topics && Nearest(scope, topics[name].context).Some? ==>
      r == Success(Nearest(scope, topics[name].context).value.value)
    ensures r == Failure(TopicNotAdded(name)) <==> name !in topics
  {
    if name !in topics then Failure(TopicNotAdded(name))
    else
      match Nearest(scope, topics[name].context)
      case None => Failure(NoPublisher(name))
      case Some(tuple) => Success(tuple.value)
  }

  /** `usePub`: the same checks as `usePubSub`, then the tuple's setter. */
  function UsePub(topics: map<string, Topic>, scope: Scope, name: string): (r: Result<SetterId, PubSubError>)
    ensures name in topics ==>
      (r == Failure(NoPublisher(name)) <==>
       forall i :: 0 <= i < |scope| ==> scope[i].context != topics[name].context)
    ensures r.Success? ==>
      name in topics && Nearest(scope, topics[name].context).Some? &&
      r.value == Nearest(scope, topics[name].context).value.setter
    ensures name in topics && Nearest(scope, topics[name].context).Some? ==>
      r == Success(Nearest(scope, topics[name].context).value.setter)
    ensures r == Failure(TopicNotAdded(name)) <==> name !in topics
  {
    if name !in topics then Failure(TopicNotAdded(name))
    else
      match Nearest(scope, topics[name].context)
      case None => Failure(NoPublisher(name))
      case Some(tuple) => Success(tuple.setter)
  }

  /** `useSub` and `usePub` fail exactly as `usePubSub` does and otherwise project its tuple. */
  lemma ProjectionsAgree(topics: map<string, Topic>, scope: Scope, name: string)
    ensures UsePubSub(topics, scope, name).Failure? ==>
      UseSub(topics, scope, name) == Failure(UsePubSub(topics, scope, name).error) &&
      UsePub(topics, scope, name) == Failure(UsePubSub(topics, scope, name).error)
    ensures UsePubSub(topics, scope, name).Success? ==>
      UseSub(topics, scope, name) == Success(UsePubSub(topics, scope, name).value.value) &&
      UsePub(topics, scope, name) == Success(UsePubSub(topics, scope, name).value.setter)
  {
  }

  /**
   * The scope seen by the children of a mounted nest: each provider, outermost
   * first, pushes a frame for its topic's context holding that container
   * instance's current tuple.
   */
  function Inside(e: Element, outer: Scope, state: string -> PubSub): (r: Scope)
    ensures |r| == |outer| + |Frames(e)|
    ensures r[..|outer|] == outer
    ensures forall i :: 0 <= i < |Frames(e)| ==> r[|r| - 1 - i].state == state(Frames(e)[i])
  {
    match e
    case Children => outer
    case Provider(name, record, inner) =>
      var outer' := outer + [Frame(record.context, state(name))];
      var r := Inside(inner, outer', state);
      assert r[..|outer|] == r[..|outer'|][..|outer|];
      assert forall i :: 0 <= i < |Frames(e)| ==> r[|r| - 1 - i].state == state(Frames(e)[i]) by {
        forall i | 0 <= i < |Frames(e)| ensures r[|r| - 1 - i].state == state(Frames(e)[i]) {
          if i == |Frames(inner)| {
            assert r[|r| - 1 - i] == r[..|outer'|][|outer|];
          }
        }
      }
      r
  }

  /**
   * Below a nest of registered providers, the frame pushed for the i-th
   * topic from the inside carries that topic's registered context and its
   * container's tuple.
   */
  lemma {:induction false} InsideFramesRegistered(e: Element, topics: map<string, Topic>, outer: Scope,
                                                  state: string -> PubSub)
    requires RecordsMatch(e, topics)
    ensures forall i :: 0 <= i < |Frames(e)| ==>
      Frames(e)[i] in topics &&
      Inside(e, outer, state)[|outer| + |Frames(e)| - 1 - i] == Frame(topics[Frames(e)[i]].context, state(Frames(e)[i]))
  {
    match e
    case Children =>
    case Provider(name, record, inner) =>
      var outer' := outer + [Frame(record.context, state(name))];
      InsideFramesRegistered(inner, topics, outer', state);
      var r := Inside(e, outer, state);
      forall i | 0 <= i < |Frames(e)|
        ensures Frames(e)[i] in topics &&
                r[|outer| + |Frames(e)| - 1 - i] == Frame(topics[Frames(e)[i]].context, state(Frames(e)[i]))
      {
        if i == |Frames(inner)| {
          assert r[..|outer'|] == outer';
          assert r[|outer|] == r[..|outer'|][|outer|];
        }
      }
  }

  /**
   * Inside a nest whose providers are the registered ones, the context of a
   * topic resolves to that topic's container when the nest provides the topic,
   * and to whatever encloses the nest when it does not.
   */
  lemma {:induction false} InsideResolves(e: Element, topics: map<string, Topic>, outer: Scope,
                                         state: string -> PubSub, name: string)
    requires RecordsMatch(e, topics) && DistinctContexts(topics) && name in topics
    ensures Nearest(Inside(e, outer, state), topics[name].context)
         == if name in Frames(e) then Some(state(name)) else Nearest(outer, topics[name].context)
  {
    match e
    case Children =>
    case Provider(n, record, inner) =>
      var outer' := outer + [Frame(record.context, state(n))];
      InsideResolves(inner, topics, outer', state, name);
      assert outer'[..|outer'| - 1] == outer;
  }

  /**
   * Scoping through `getPublisher(requested)`, whose nest holds the selected
   * topics' registered providers (`ComposeNeverFails`): below the publisher,
   * a hook on a registered topic the publisher serves gets that container's
   * tuple; on any other topic it behaves exactly as it would above the
   * publisher, so a topic filtered out still fails with `NoPublisher` when
   * nothing else provides it.
   */
  lemma PublisherScoping(keys: seq<string>, topics: map<string, Topic>, nextContext: nat,
                         requested: Option<seq<string>>, nest: Element, outer: Scope,
                         state: string -> PubSub, name: string)
    requires WellFormed(keys, topics, nextContext)
    requires Frames(nest) == Select(keys, requested) && RecordsMatch(nest, topics)
    ensures name in Select(keys, requested) ==>
      UsePubSub(topics, Inside(nest, outer, state), name) == Success(state(name))
    ensures name !in Select(keys, requested) ==>
      UsePubSub(topics, Inside(nest, outer, state), name) == UsePubSub(topics, outer, name)
  {
    if name in topics {
      InsideResolves(nest, topics, outer, state, name);
    }
  }

  /**
   * Shadowing: a provider mounted directly around the call site hides every
   * enclosing provider of the same topic and is transparent to other topics.
   */
  lemma InnermostProviderWins(topics: map<string, Topic>, scope: Scope, name: string,
                              other: string, tuple: PubSub)
    requires DistinctContexts(topics) && name in topics && other in topics
    ensures UsePubSub(topics, scope + [Frame(topics[name].context, tuple)], name) == Success(tuple)
    ensures other != name ==>
      UsePubSub(topics, scope + [Frame(topics[name].context, tuple)], other) == UsePubSub(topics, scope, other)
  {
  }
}
