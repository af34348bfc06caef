/** Values shared by every store: messages, receipt handles, time. */
module StoreTypes {

  datatype Option<+T> = None | Some(value: T)

  /** Times and durations are whole nanoseconds. */
  const SECOND := 1_000_000_000
  const MILLISECOND := 1_000_000

  /** The largest value of Go's int. */
  const MAX_INT := 0x7FFF_FFFF_FFFF_FFFF

  /** A receipt handle; NO_HANDLE stands for the empty string.
      GenerateReceiptHandle mixes in a random nonce, so handles are modelled as fresh tokens. */
  type Handle = nat
  const NO_HANDLE: Handle := 0

  const DEFAULT_RETENTION := 345600
  const DEDUP_WINDOW := 300 * SECOND

  /** The fields of a message that the stores read or write.
      sequenceNumber 0 stands for the empty string. */
  datatype Message = Message(
    id: string,
    body: string,
    groupId: string,
    dedupId: string,
    sequenceNumber: nat,
    sentTimestamp: int,
    isVisible: bool,
    receiptHandle: Handle,
    receiveCount: nat,
    receivedTimestamp: int,
    firstReceived: int)

  /** What a store is configured with when its queue is created. */
  datatype Config = Config(
    isFifo: bool,
    contentBasedDeduplication: bool,
    visibilityTimeout: int,
    maxReceiveCount: int,
    hasRedrive: bool,
    retentionPeriod: int)
  {
    /** The oldest send time that a receive at time `now` still keeps. */
    function Cutoff(now: int): int {
      now - (if retentionPeriod <= 0 then DEFAULT_RETENTION else retentionPeriod) * SECOND
    }

    function EffectiveVisibility(requested: int): int {
      if requested <= 0 then visibilityTimeout else requested
    }

    predicate RedriveDue(receiveCount: nat) {
      maxReceiveCount > 0 && receiveCount >= maxReceiveCount && hasRedrive
    }
  }

  /** Stands for the hex SHA-256 of the body, taken to be collision free. */
  function ContentBasedDedupId(body: string): string {
    "sha256:" + body
  }

  /** The deduplication id a FIFO store uses for a message; empty when there is none. */
  function EffectiveDedupId(cfg: Config, msg: Message): string {
    if msg.dedupId == "" && cfg.contentBasedDeduplication then ContentBasedDedupId(msg.body) else msg.dedupId
  }

  /** Resets a message before it is handed to another queue. */
  function PrepareForRedrive(msg: Message): Message {
    msg.(receiptHandle := NO_HANDLE, isVisible := true, receiveCount := 0)
  }

  function Max0(x: int): nat {
    if x > 0 then x else 0
  }
}
