# treblehook topic registry — a Dafny model

treblehook is a small publish/subscribe layer over React context. An
application registers named *topics* with `addTopic`, mounts the component
returned by `getPublisher` above the components that share state, and those
components read and write a topic's state with the hooks `usePubSub`,
`useSub` and `usePub`. A topic may persist its latest value in
`sessionStorage`. Then a later registration starts from the persisted value.

This project models the bookkeeping in `src/index.tsx`:

- **Topic registry** (`Registry.TopicRegistry`): the process-wide
  `topicsCache`, as a key order plus a map from name to topic record. Each
  record is a context identity, the resolved default and the persistence
  flag. Registration is idempotent and nothing is ever removed.
- **Default resolution** (`Topics.ResolveDefault`): the session store is a
  `map<string, string>`. `JSON.parse` and `JSON.stringify` are parameters
  (`Parser`, `Serializer`). When the stored text does not parse, the raw
  text (`Str`) is the default.
- **Publisher composition** (`Publisher`): the selection of topics is a
  filter over the registry's own key order. The nest of providers is the
  left fold that wraps each selected topic's provider around the previous
  nest, with the children innermost. Over a well-formed registry the fold's
  not-added error is unreachable.
- **Hooks** (`Accessors`): React's context lookup is an explicit scope stack
  of `(context, [value, setter])` frames, searched from the nearest provider
  outwards. `Inside` gives the stack that the children of a mounted nest
  see.
- **Provider instances** (`Container.ContainerInstance`): the state of one
  mounted provider, its `isMounted` flag, and the store writes of its value
  effect. Mount, setter calls and unmount are explicit methods acting on a
  `Storage.SessionStore`.
- `Findings` models the registration test `!topicsCache[name]` as written
  (see "## Findings"). `Scenarios` puts the pieces together as an
  application would.

When the stored text does not parse, the default becomes the raw stored
text, whatever wrote it. The registration test `!topicsCache[name]` is
replaced by the intended own-entry test; the test as written is modelled
separately (see "## Findings").

## Model

| member | source | states |
|---|---|---|
| `Topics.ResolveDefault` | src/index.tsx:42-64 | Without persistence, or with no stored entry, the default is the requested one. With a stored entry it is the parsed text, or the raw text when parsing fails. A failing parse never throws (a failing `getItem` is not modelled). |
| `Topics.ResolveReadsOnlyOwnEntry` | src/index.tsx:52-62 | Resolution depends only on the store's entry under the topic's own name. |
| `Topics.PersistedValueRoundTrip` | src/index.tsx:52-62 | After the store holds `stringify(v)` under the name, a persisting registration resolves to `v` if the parser inverts the serializer on it, to the stored text if the parser rejects it, and otherwise to whatever the parser returns. |
| `Storage.SessionStore.constructor` | src/index.tsx:52 | The store starts with the given entries. |
| `Storage.SessionStore.SetItem` | src/index.tsx:262 | `setItem` replaces the one entry under the key. |
| `Registry.TopicRegistry.constructor` | src/index.tsx:16 | The cache starts empty and well formed. |
| `Registry.TopicRegistry.HasTopic` | src/index.tsx:31 | A name is registered exactly when it is in the key order. |
| `Registry.TopicRegistry.AddTopic` | src/index.tsx:29-75 | A new name is appended to the key order, with a fresh context and the resolved default. A registered name changes nothing. Afterwards the name is registered, and every earlier entry is still there, unchanged. The cache stays well formed. |
| `Registry.TopicRegistry.GetPublisher` | src/index.tsx:84-118 | Against the current cache, the publisher's nest always builds. Its frames, innermost first, are exactly the selection: each selected topic once, with its registered provider. |
| `Registry.RegisterTwice` | src/index.tsx:31-73 | A second `addTopic` with another default and persistence leaves the first registration in place. |
| `Publisher.Filter` | src/index.tsx:95 | A key is kept exactly when some requested name equals it. |
| `Publisher.Select` | src/index.tsx:94-96 | With the request omitted or empty, the selection is all keys in order. Otherwise a name is selected exactly when it is both registered and requested. |
| `Publisher.FilterIsSubsequence` | src/index.tsx:95 | Filtering keeps the registry order. |
| `Publisher.SelectIsOrderedSubset` | src/index.tsx:94-96 | The selection is a subsequence of the registry keys and names no topic twice. |
| `Publisher.Nest` | src/index.tsx:98-110 | The fold succeeds exactly when every selected name is registered. Its frames, innermost first, are then the selection, each with its registered provider. |
| `Publisher.NestReportsFirstMissing` | src/index.tsx:100-104 | Otherwise the fold throws not-added for the first unregistered name in order. |
| `Publisher.ComposeNeverFails` | src/index.tsx:94-110 | Over a well-formed registry the fold's not-added branch is unreachable. The nest holds each selected topic once, the children innermost and the last selected topic outermost. |
| `Accessors.Nearest` | src/index.tsx:136-138 | The context lookup finds nothing exactly when no enclosing frame is for that context. |
| `Accessors.NearestIsInnermost` | src/index.tsx:136-138 | When the lookup finds a tuple, it is the one of the innermost frame for that context. |
| `Accessors.UsePubSub` | src/index.tsx:128-146 | Fails with not-added exactly when the name is unregistered, whatever encloses the call. A registered name fails with no-publisher exactly when no provider of its context encloses the call. Otherwise it succeeds with the nearest provider's tuple. |
| `Accessors.UseSub` | src/index.tsx:152-170 | The same two failures, under the same conditions and in the same order. Otherwise it succeeds with the nearest provider's value. |
| `Accessors.UsePub` | src/index.tsx:176-194 | The same two failures, under the same conditions and in the same order. Otherwise it succeeds with the nearest provider's setter. |
| `Accessors.ProjectionsAgree` | src/index.tsx:128-194 | `useSub` and `usePub` fail exactly when `usePubSub` does, with its error. Otherwise they return its first and second components. |
| `Accessors.Inside` | src/index.tsx:106-108 | Mounting a nest keeps the enclosing scope as a prefix and pushes one frame per provider. The i-th frame from the top carries the tuple of the i-th topic from the inside. |
| `Accessors.InsideFramesRegistered` | src/index.tsx:268 | Below a nest of registered providers, each pushed frame carries its topic's registered context and that topic's container tuple. |
| `Accessors.InsideResolves` | src/index.tsx:268 | Below a nest of registered providers, a topic the nest provides resolves to that topic's container. Any other topic resolves as it does above the nest. |
| `Accessors.PublisherScoping` | src/index.tsx:84-118 | Below `getPublisher(requested)`, hooks on a selected topic see its container's tuple. Hooks on any other topic behave as they do above it, so a filtered-out topic with no outer provider still fails with no-publisher. |
| `Accessors.InnermostProviderWins` | src/index.tsx:136-138 | A provider directly around the call site shadows outer providers of its topic and is transparent to other topics. |
| `Container.ContainerInstance.Mount` | src/index.tsx:240-266 | A mount starts at the resolved default and is mounted; the tuple it publishes is its value with its own setter. The store gets the serialized default exactly when the topic persists. |
| `Container.ContainerInstance.Publish` | src/index.tsx:252-266 | The value becomes the requested one: the given value, or the updater applied to the current value (`SetStateAction`, src/index.tsx:205). The store is written with the serialized new value only when the value changed, the topic persists and the instance is still mounted. After unmount it is never written. |
| `Container.ContainerInstance.Unmount` | src/index.tsx:246-250 | The cleanup clears the mounted flag and leaves the value alone. |
| `Container.PostUnmountSilence` | src/index.tsx:244-266 | For a persisting topic, with any `v` and `w`: mount, publish `v`, unmount, publish `w`. The store ends up holding the text of `v`. |
| `Findings.AddTopicAsWritten` | src/index.tsx:29-75 | With the guard as written (the lookup is truthy for a registered name and for every name a plain object inherits from `Object.prototype`), a registered or inherited name changes nothing. Any other name is appended with a fresh context and the resolved default, leaving the other entries alone. |
| `Findings.AsWrittenAgreesOffInherited` | src/index.tsx:29-75 | For any name not inherited from `Object.prototype`, `AddTopic` changes the key order, the entries and the context counter exactly as `addTopic` with the guard as written does; the two differ only on inherited names. |
| `Findings.InheritedNameNeverAdded` | src/index.tsx:31 | An inherited name such as `toString` can never be registered. |
| `Findings.AccessorCheckAsWritten` | src/index.tsx:130-132 | The hooks' registration check as written lets a call through exactly when the name is registered or inherited from `Object.prototype`; otherwise it throws not-added. |
| `Findings.InheritedNamePassesAccessorCheck` | src/index.tsx:154-156 | For an unregistered inherited name that check lets the call through, where the intended check fails it with not-added. |
| `Scenarios.ReadThrough` | src/index.tsx:128-170 | Below a publisher for all topics, `usePubSub(name)` returns `name`'s own container tuple and `useSub(name)` its value, whatever the other containers hold. |
| `Scenarios.CountScenario` | src/index.tsx:240-268 | Register "count" with default 0 and mount the publisher. `usePubSub` gives 0 with the mounted container's own setter, and a read gives 0. After publishing 5, a read gives 5. |
| `Scenarios.RoundTripScenario` | src/index.tsx:44-62 | A persisted value `v` becomes the default of a fresh registration over the same store, when the parser inverts the serializer on `v`. |

## Left out

- React rendering, reconciliation, re-render scheduling and effect timing. Mount, state updates and unmount are explicit method calls. The children of a publisher are an opaque `Children` leaf.
- React drops state updates to unmounted components. The model lets such an update change the value, and the `isMounted` guard alone keeps the store silent. The guard is what the code relies on.
- React's bail-out on an unchanged state compares with `Object.is`. The model compares `Value`s structurally, so a fresh but equal object counts as unchanged.
- Real `sessionStorage` I/O: the store is a `SessionStore` object holding a map. A failing `getItem` (storage blocked or absent, outside the `try` at src/index.tsx:52) or `setItem` (quota, permissions) is not modelled; the code catches neither, so either error leaves `addTopic` or the value effect.
- `JSON.parse` and `JSON.stringify` internals are parameters. No round trip between them is assumed; the round-trip lemmas take it as a hypothesis.
- `JSON.stringify` failing is not modelled: `Serializer` is total, but the real call throws on a cyclic value or a BigInt inside the value effect (src/index.tsx:262), and nothing catches it. `JSON.stringify(undefined)` yields no string, so `setItem` stores `"undefined"`; the model leaves that to the serializer parameter.
- Per-topic TypeScript generics: all topics carry one `Value` type.
- The text of the two error messages (src/index.tsx:274-282): only the error kinds are modelled.
- `Object.keys` lists integer-like names first, in numeric order. The model takes registry order to be registration order; this is an assumption.
- Context and setter objects are abstract identities (`ContextId`, `SetterId`). Context identities come from a counter in the registry.
- `getPublisher` returns a component that recomputes its nest on every render. The model computes the nest from the registry at the time `GetPublisher` is called, i.e. at mount.
- Concurrency is out of scope: the library is single-threaded.
- lib/index.js is a stale build output of src/index.tsx; lib/index.d.ts holds declarations only; jest.config.js is test configuration. None is part of this model.

## Findings

| source | as written | input that shows it | evidently intended | confidence | as-written member | corrected member |
|---|---|---|---|---|---|---|
| src/index.tsx:31 | `!topicsCache[name]` reads the property on a plain object, so it is also truthy for names inherited from `Object.prototype` | `addTopic("toString", 1)` on an empty cache leaves `toString` unregistered, silently | a name is registered when the cache has its own entry (a `Map` or a null-prototype object gives that; an own-property test alone still lets `__proto__` change the prototype) | medium, not executed | `Findings.InheritedNameNeverAdded` | `Registry.TopicRegistry.AddTopic` |
| src/index.tsx:130 | the hooks' check uses the same truthiness test | `useSub("toString")` with no such topic passes the check and goes on to read `.context` of a function | fail with the not-added error | medium, not executed | `Findings.InheritedNamePassesAccessorCheck` | `Accessors.UsePubSub` |
