/** `connection/ConnectOption.java` and `SocketConfiguration.java` as plain
    records: only the fields the modelled code reads. Filters and listeners
    configured on the socket are (filter key, filter, listener) triples. The
    connect option is null unless the builder's `setSkSocketOption` was
    called. */
module Configs {
  import opened JavaTypes
  import opened Wrappers
  import opened Filters
  import opened PacketRouters

  datatype ConnectOption = ConnectOption(
    reconnectAllowed: bool,
    reconnectMaxAttemptTimes: int32,
    reconnectInterval: int64,
    pulseFrequency: int64)

  datatype SocketConfiguration = SocketConfiguration(
    isServer: bool,
    option: Option<ConnectOption>,
    registrations: seq<(ObjId, Filter, ObjId)>)

  /** `isClient` is the negation of `isServer`. */
  predicate IsClient(c: SocketConfiguration)
  {
    !c.isServer
  }
}
