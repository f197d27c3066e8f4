/**
 * The `postMessage` resolver: create the record in the store, then publish
 * it on MESSAGE_TOPIC, then return it. A failed publish rejects the call
 * but the record stays stored. The caller's identity is not consulted.
 */
module Mutation {
  import opened Wrappers
  import opened Store
  import opened PubSub

  /** The identity a request context carries (absent for anonymous callers). */
  datatype User = User(id: string, email: string, roles: seq<string>)

  /** One `postMessage` call: its arguments and clock reading, and how the publish fares. */
  datatype Post = Post(draft: Draft, bus: BusStatus)

  /** The state the write path changes: the store's records and the broker's publications. */
  datatype World = World(stored: seq<Message>, published: seq<Publication>)

  const Fresh: World := World([], [])

  /** The publication announcing record `m`. */
  function Announce(m: Message): (p: Publication) {
    Publication(MESSAGE_TOPIC, Payload(m))
  }

  /** The state after one `postMessage` call: always one more record; one more publication only if the publish succeeds. */
  function PostStep(w: World, p: Post): (r: World)
    ensures r.stored == Append(w.stored, p.draft)
    ensures w.published <= r.published
    ensures |r.published| == |w.published| + (if p.bus.Up? then 1 else 0)
    ensures p.bus.Up? ==> r.published[|w.published|] == Announce(r.stored[|w.stored|])
  {
    var m := NewRecord(|w.stored|, p.draft);
    World(Append(w.stored, p.draft), if p.bus.Up? then w.published + [Announce(m)] else w.published)
  }

  /** What one `postMessage` call returns: the new record, or the publish error. */
  function PostResult(w: World, p: Post): (r: Result<Message, PublishError>)
    ensures r.Ok? <==> p.bus.Up?
    ensures r.Ok? ==> PostStep(w, p).stored == w.stored + [r.value]
                      && PostStep(w, p).published == w.published + [Announce(r.value)]
    ensures r.Err? ==> r.error.topic == MESSAGE_TOPIC && PostStep(w, p).published == w.published
  {
    match p.bus
    case Up => Ok(NewRecord(|w.stored|, p.draft))
    case Down(reason) => Err(PublishError(MESSAGE_TOPIC, reason))
  }

  /** The state after the given calls, in order, starting from `start`. */
  function Run(start: World, posts: seq<Post>): (r: World)
    ensures |r.stored| == |start.stored| + |posts| && start.stored <= r.stored
    decreases |posts|
  {
    if posts == [] then start else PostStep(Run(start, posts[..|posts| - 1]), posts[|posts| - 1])
  }

  /** The `create` arguments of the given calls. */
  function Drafts(posts: seq<Post>): (drafts: seq<Draft>) {
    seq(|posts|, i requires 0 <= i < |posts| => posts[i].draft)
  }

  /** How many of the given calls published successfully. */
  function Deliveries(posts: seq<Post>): (count: nat)
    decreases |posts|
  {
    if posts == [] then 0 else Deliveries(posts[..|posts| - 1]) + (if posts[|posts| - 1].bus.Up? then 1 else 0)
  }

  /** A publication the write path could have made for the records in `stored`. */
  ghost predicate AnnouncesStored(stored: seq<Message>, p: Publication) {
    var m := p.payload.messagePosted;
    p.topic == MESSAGE_TOPIC && 1 <= m.id <= |stored| && stored[m.id - 1] == m
  }

  /**
   * The write path's invariant: ids are sequential, every publication is on
   * MESSAGE_TOPIC and announces a record the store holds, and publications
   * come in increasing id order (each record announced at most once).
   */
  ghost predicate Consistent(w: World) {
    && IdsSequential(w.stored)
    && (forall i :: 0 <= i < |w.published| ==> AnnouncesStored(w.stored, w.published[i]))
    && (forall i, j :: 0 <= i < j < |w.published| ==>
          w.published[i].payload.messagePosted.id < w.published[j].payload.messagePosted.id)
  }

  /** Every stored record was announced, in store order, and nothing else was. */
  ghost predicate Lossless(w: World) {
    |w.published| == |w.stored| && forall i :: 0 <= i < |w.stored| ==> w.published[i] == Announce(w.stored[i])
  }

  /** One call keeps the invariant, whether or not its publish succeeds. */
  lemma PostStepConsistent(w: World, p: Post)
    requires Consistent(w)
    ensures Consistent(PostStep(w, p))
  {
    var w' := PostStep(w, p);
    var m := NewRecord(|w.stored|, p.draft);
    assert w'.stored == w.stored + [m];
    forall i | 0 <= i < |w.published|
      ensures AnnouncesStored(w'.stored, w.published[i])
      ensures w.published[i].payload.messagePosted.id < m.id
    {
      assert AnnouncesStored(w.stored, w.published[i]);
    }
  }

  /** Any sequence of calls keeps the invariant. */
  lemma {:induction false} RunConsistent(start: World, posts: seq<Post>)
    requires Consistent(start)
    ensures Consistent(Run(start, posts))
    decreases |posts|
  {
    if posts != [] {
      RunConsistent(start, posts[..|posts| - 1]);
      PostStepConsistent(Run(start, posts[..|posts| - 1]), posts[|posts| - 1]);
    }
  }

  /**
   * No rollback: from an empty store, the records after any sequence of
   * calls are exactly what the same sequence of `create` calls gives,
   * whatever happened to the publishes.
   */
  lemma {:induction false} RunStoresEveryPost(posts: seq<Post>)
    ensures Run(Fresh, posts).stored == Replay(Drafts(posts))
    decreases |posts|
  {
    if posts != [] {
      var n := |posts| - 1;
      RunStoresEveryPost(posts[..n]);
      assert Drafts(posts) == Drafts(posts[..n]) + [posts[n].draft];
      ReplaySnoc(Drafts(posts[..n]), posts[n].draft);
    }
  }

  /** Exactly one publication per successful call; earlier publications are kept. */
  lemma {:induction false} RunPublishesOncePerDelivery(start: World, posts: seq<Post>)
    ensures |Run(start, posts).published| == |start.published| + Deliveries(posts)
    ensures start.published <= Run(start, posts).published
    decreases |posts|
  {
    if posts != [] {
      RunPublishesOncePerDelivery(start, posts[..|posts| - 1]);
    }
  }

  /** While every publish succeeds, the announced records are exactly the stored records, in order. */
  lemma {:induction false} RunLossless(start: World, posts: seq<Post>)
    requires Lossless(start)
    requires forall i :: 0 <= i < |posts| ==> posts[i].bus.Up?
    ensures Lossless(Run(start, posts))
    decreases |posts|
  {
    if posts != [] {
      var n := |posts| - 1;
      RunLossless(start, posts[..n]);
      var w := Run(start, posts[..n]);
      assert Run(start, posts) == PostStep(w, posts[n]);
    }
  }

  /**
   * `postMessage`: appends the record built from `content`, `author` and
   * the clock reading, then publishes `{ messagePosted: record }` on
   * MESSAGE_TOPIC, then returns the record. `user` is accepted and ignored:
   * no authorization and no validation precede the append. The broker's
   * `seen` entry for this publish shows the store already holding the
   * record it announces.
   */
  method PostMessage(store: MessageStore, pubsub: Broker, user: Option<User>,
                     content: string, author: Option<string>, createdAt: string, bus: BusStatus)
    returns (r: Result<Message, PublishError>)
    requires store.Valid()
    requires pubsub.observed == store
    modifies store, pubsub
    ensures store.Valid()
    ensures store.history == old(store.history) + [Draft(content, author, createdAt)]
    ensures World(store.messages, pubsub.log)
         == PostStep(World(old(store.messages), old(pubsub.log)), Post(Draft(content, author, createdAt), bus))
    ensures r == PostResult(World(old(store.messages), old(pubsub.log)), Post(Draft(content, author, createdAt), bus))
    ensures pubsub.seen == old(pubsub.seen) + [old(store.messages) + [NewRecord(|old(store.messages)|, Draft(content, author, createdAt))]]
    ensures r.Ok? <==> bus.Up?
    ensures r.Ok? ==> (store.messages == old(store.messages) + [r.value]
                       && pubsub.log == old(pubsub.log) + [Announce(r.value)])
    ensures r.Err? ==> pubsub.log == old(pubsub.log)
  {
    var message := store.Create(content, author, createdAt);
    var published := pubsub.Publish(MESSAGE_TOPIC, Payload(message), bus);
    match published
    case Pass =>
      r := Ok(message);
    case Fail(e) =>
      r := Err(e);
  }
}
