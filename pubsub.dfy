/**
 * The publish side of the message broker, seen from the write path. The
 * broker itself is a library (in-process or Redis-backed); here it is an
 * append-only log of the publications it accepted. Whether the transport
 * accepts a publication is an input, `BusStatus`.
 */
module PubSub {
  import opened Wrappers
  import Store

  /**
   * The topic new messages are announced on. Its value is defined in
   * server/src/pubsub/constants, which is not part of this model; only its
   * being one fixed name matters here.
   */
  const MESSAGE_TOPIC: string := "MESSAGE_POSTED"

  /** The event body `{ messagePosted: message }`. */
  datatype Payload = Payload(messagePosted: Store.Message)

  /** One accepted publication: the topic and the payload sent on it. */
  datatype Publication = Publication(topic: string, payload: Payload)

  /** Whether the broker's transport accepts a publish at the moment of the call. */
  datatype BusStatus = Up | Down(reason: string)

  /** The rejection a failed publish surfaces to its caller. */
  datatype PublishError = PublishError(topic: string, reason: string)

  /**
   * The broker, reduced to the record of what it has published. `observed`
   * is the process's message store, fixed when the broker is made; `seen`
   * records, for every publish call in order, that store's records at the
   * moment of the call, so that callers can state what the store held when
   * they published.
   */
  class Broker {
    var log: seq<Publication>
    ghost const observed: Store.MessageStore
    ghost var seen: seq<seq<Store.Message>>

    constructor (ghost observed: Store.MessageStore)
      ensures log == [] && seen == [] && this.observed == observed
    {
      log := [];
      this.observed := observed;
      seen := [];
    }

    /**
     * Publishes `payload` on `topic`. When the transport is up the
     * publication is added to the log, once; when it is down the call fails
     * with the transport's reason and the log is unchanged. Either way the
     * call notes what the observed store holds at that moment.
     */
    method Publish(topic: string, payload: Payload, bus: BusStatus) returns (r: Outcome<PublishError>)
      modifies this
      ensures seen == old(seen) + [observed.messages]
      ensures r.Pass? <==> bus.Up?
      ensures r.Fail? ==> r.error == PublishError(topic, bus.reason)
      ensures log == if bus.Up? then old(log) + [Publication(topic, payload)] else old(log)
    {
      seen := seen + [observed.messages];
      match bus
      case Up =>
        log := log + [Publication(topic, payload)];
        r := Pass;
      case Down(reason) =>
        r := Fail(PublishError(topic, reason));
    }
  }
}
