/** The shapes the engine works on: a peer record, a registry snapshot, the
    configuration, and the abstract inputs that stand for the clock and the
    network. */
module Model {

  datatype Option<T> = None | Some(value: T)

  /** Success, or an error carrying the message the source throws. */
  datatype Outcome<E> = Pass | Fail(error: E)

  type Minute = m: int | 0 <= m < 60

  /** A JavaScript Date as the engine reads it: the instant, and the minute
      field that getMinutes() returns for it. */
  datatype Date = Date(time: int, minutes: Minute)

  /** A peer record (Client in the source). */
  datatype Client = Client(
    id: string,
    name: string,
    addr: string,
    createdAt: string,
    updatedAt: string,
    refreshedAt: Date)

  /** What the `state` getter returns and what every notification carries. */
  datatype State = State(current: Client, clients: seq<Client>)

  /** Config; `lookup` and `scan` are optional fields. */
  datatype Config = Config(
    name: string,
    addr: string,
    key: string,
    lookup: Option<string>,
    scan: Option<bool>)

  /** The outcome of one POST to a peer: the decoded response body and the local
      clock when it arrived, or a failure of any kind (refused, timed out,
      non-2xx status, malformed body). */
  datatype Reply = Ok(data: State, at: Date) | Failed

  /** One outbound request: the peer address it goes to, the body and the
      X-Signature header. */
  datatype Post = Post(peer: string, body: Client, signature: string)

  /** JavaScript truthiness of an optional string: absent and "" are false. */
  predicate IsSetString(s: Option<string>)
  {
    s.Some? && s.value != ""
  }

  /** JavaScript truthiness of an optional boolean. */
  predicate IsSetFlag(b: Option<bool>)
  {
    b == Some(true)
  }
}
