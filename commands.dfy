/** The commands a producer writes. Their byte encoding lives in a file that is
    not part of this model, so they stay abstract values here. */
module Commands {
  datatype Command =
    | Magic                                            // protocol version token, sent on connect
    | Nop                                              // answer to a heartbeat
    | Pub(topic: string, body: string)                 // one message
    | Mpub(topic: string, bodies: seq<string>)         // a batch of messages
    | Dpub(topic: string, body: string, delay: int)    // one message, delivered after `delay` ms
}
