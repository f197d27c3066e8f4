# Graphpulse write path, modelled in Dafny

Graphpulse is a small real-time chat server. Clients post messages through a
GraphQL mutation and receive them live through a subscription backed by a
publish/subscribe broker (in-process or Redis). The logic the repository
itself owns is the write path, and this project models it:

- the in-memory message store (`server/src/store/messages.js`). It is a
  module-level, append-only array with `list` and `create`. Here it is the
  class `Store.MessageStore`, holding a `seq<Message>` plus a ghost history
  of the `create` calls. The function `Store.Replay` specifies the store's
  contents from that history.
- the `postMessage` resolver (`server/src/resolvers/mutation.js`). It appends
  the record to the store, then publishes `{ messagePosted: record }` on
  `MESSAGE_TOPIC`, then returns the record. Here it is the method
  `Mutation.PostMessage`. It works over the store and an abstract broker,
  `PubSub.Broker`, which is a log of accepted publications. The pure
  `Mutation.PostStep` / `Mutation.Run` describe one call and a sequence of
  calls.

Modelling choices:

- Message ids are natural numbers. The record exposes them as decimal text:
  `Store.IdText` uses `Decimal.Render`, which plays the part of
  JavaScript's `String(n)`. `Decimal.Parse` is its inverse.
- The `author` argument is `Option<string>`. GraphQL passes it as null or
  undefined when omitted. The falsy values are `None` and the empty string,
  and both become `"anonymous"`.
- `createdAt` (`new Date().toISOString()`) is an opaque string parameter.
- Whether the broker accepts a publish is a parameter, `BusStatus`
  (`Up` or `Down(reason)`).
- `MESSAGE_TOPIC` comes from `server/src/pubsub/constants`, which is not part
  of this model. It is the fixed constant `PubSub.MESSAGE_TOPIC`, and only
  its being one fixed name matters.
- `content` is stored verbatim, the empty string included: neither the
  resolver (`server/src/resolvers/mutation.js:7`) nor `create`
  (`server/src/store/messages.js:11`) validates it.
- The broker is bound, when it is made, to the process's message store
  (`PubSub.Broker.observed`, the one store the resolver appends to). Its
  ghost field `seen` records what that store held at each publish call. This
  lets the contract of `Mutation.PostMessage` state that the record is
  already stored when it is published.

## Model

| member | source | states |
|---|---|---|
| `Store.ResolveAuthor` | server/src/store/messages.js:12 | A supplied non-empty author is kept. An absent or empty author (JavaScript falsy) becomes "anonymous". The result is never empty, and any result other than "anonymous" is the caller's own author. |
| `Store.IdText` | server/src/store/messages.js:10 | The textual id is a non-empty decimal numeral that parses back to the record's numeric id. |
| `Store.NewRecord` | server/src/store/messages.js:9-14 | The record built on a store of `count` records: id `count + 1`, content and timestamp as given, and an author that is never empty and is the caller's own whenever the caller's is non-empty. |
| `Store.Append` | server/src/store/messages.js:15 | The push: exactly one record more, the old records kept as a prefix, the new record last. Sequential ids stay sequential. |
| `Store.Replay` | server/src/store/messages.js:2-17 | After n `create` calls the store holds exactly n records. |
| `Store.ReplayRecord` | server/src/store/messages.js:9-15 | The k-th stored record is the one the k-th `create` built: id k+1, content verbatim, author resolved as above, that call's timestamp. Later calls never change it. |
| `Store.ReplayIds` | server/src/store/messages.js:10 | Ids are 1, 2, 3, ... in insertion order, so they strictly increase and are pairwise distinct. |
| `Store.ReplayPrefix` | server/src/store/messages.js:15 | More `create` calls only add records at the end: the earlier list is a prefix of the later one. |
| `Store.ReplaySnoc` | server/src/store/messages.js:15 | One more `create` appends exactly one record (id = previous length + 1) and keeps all previous records. |
| `Store.IdTextsDistinct` | server/src/store/messages.js:10 | Because ids are sequential and `String(n)` is injective, the textual ids of stored records are pairwise distinct. |
| `Store.MessageStore.constructor` | server/src/store/messages.js:2 | The store starts empty, with an empty call history. |
| `Store.MessageStore.List` | server/src/store/messages.js:4-6 | Returns all records in insertion order (the k-th with id k+1). It changes nothing. |
| `Store.MessageStore.Create` | server/src/store/messages.js:8-17 | Appends exactly one record and returns that same record. Its id is the old length + 1, its content is verbatim and its author is resolved. Older records are untouched, and the store invariant is kept. |
| `Decimal.Render` | server/src/store/messages.js:10 | `String(n)` for a natural number: a non-empty string of decimal digits with no leading zero (unless n is 0). |
| `Decimal.ParseRender` | server/src/store/messages.js:10 | Parsing the rendered id gives the number back (round trip). |
| `Decimal.RenderInjective` | server/src/store/messages.js:10 | Two ids render to the same text exactly when they are equal. |
| `PubSub.Broker.constructor` | server/src/resolvers/mutation.js:5 | The broker handed to the resolver starts with no publications and no recorded publish calls, bound to the process's message store. |
| `PubSub.Broker.Publish` | server/src/resolvers/mutation.js:8 | A publish that the transport accepts adds exactly one publication `(topic, payload)` to the broker log. A failed publish rejects with the transport's reason and adds nothing. Either way the call records, in `seen`, what the broker's bound store holds at that moment. |
| `Mutation.PostStep` | server/src/resolvers/mutation.js:7-8 | The effect of one call. The store always gains exactly the new record, whatever the publish does (no rollback). The publications keep their earlier entries and gain exactly one, only when the publish succeeds. That one is `Announce(m)`, i.e. `(MESSAGE_TOPIC, { messagePosted: m })` for the new record m. |
| `Mutation.PostResult` | server/src/resolvers/mutation.js:8-9 | The call returns a record exactly when the publish succeeds. That record is the one stored and the one announced. Otherwise the call rejects with an error on MESSAGE_TOPIC and nothing is published. |
| `Mutation.Run` | server/src/resolvers/mutation.js:5-10 | Any sequence of calls adds exactly one stored record per call and keeps the earlier records as a prefix. |
| `Mutation.PostMessage` | server/src/resolvers/mutation.js:5-10 | Calls `create` once with the caller's content and author and ignores `user`. It publishes `{messagePosted: m}` on MESSAGE_TOPIC exactly once. The broker must be bound to this same store. The broker's `seen` entry for that publish is the old store plus m, so the append precedes the publish. It returns that same m exactly when the publish succeeds. On failure the error propagates, the record stays stored and the broker log is unchanged. |
| `Mutation.PostStepConsistent` | server/src/resolvers/mutation.js:7-9 | One call, whether its publish succeeds or fails, keeps the write-path invariant: ids are sequential; every publication is on MESSAGE_TOPIC and announces a record the store holds; publications come in increasing id order. |
| `Mutation.RunConsistent` | server/src/resolvers/mutation.js:7-9 | Any sequence of calls keeps that invariant. |
| `Mutation.RunStoresEveryPost` | server/src/resolvers/mutation.js:7-8 | No rollback: from an empty store, the stored records after any sequence of calls equal those of the same `create` calls, whatever the publishes did. |
| `Mutation.RunPublishesOncePerDelivery` | server/src/resolvers/mutation.js:8 | Exactly one publication is added per call whose publish succeeds, none for the others, and earlier publications are kept. |
| `Mutation.RunLossless` | server/src/resolvers/mutation.js:7-9 | While every publish succeeds, the announced records are exactly the stored records, in store order, each on MESSAGE_TOPIC. |

## Left out

- Subscriptions (`server/src/resolvers/subscription.js`): they are a single call into the library's `asyncIterator`. Fan-out, delivery and cancellation live in the library.
- Broker selection and the Redis client (`server/src/pubsub/index.js`): these are foreign libraries and network I/O. The broker is reduced to a log of accepted publications, with success or failure given as a parameter.
- `server/src/pubsub/constants` is not part of this model. The topic name is a fixed constant whose actual value is not known here.
- Server startup, transport, bearer-token stripping and JWT verification (`server/src/index.js`, `server/src/auth/jwt.js`): these are framework wiring and foreign code. The resolver's `user` is an opaque parameter that it ignores.
- Client UI and transport (`client/`): presentation only.
- `createdAt`: the clock and ISO date formatting are not modelled. The timestamp is a parameter.
- Concurrency around `await pubsub.publish`: each call is one sequential step, with a publish that either succeeds or fails. Interleavings of concurrent requests are not modelled.
- `Store.MessageStore.List`: `list()` returns the live array itself, so a caller's reference also sees later appends. The model returns a snapshot value and does not capture this aliasing.
- `Store.MessageStore.Create`: a JavaScript array holds at most 2^32 - 1 elements. At that size `messages.push` throws a RangeError after the record is built, so the store stops growing. The model's store is unbounded and `Create` never fails. Ids therefore stay far below 10^21, where `String(n)` would switch to exponent notation, which `Decimal.Render` does not model.
- `Mutation.PostMessage`: a publish that fails part-way (for example, a Redis command that reached the server but whose reply was lost) is modelled as adding nothing to the log.
