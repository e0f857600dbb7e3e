/** Optional values, used where the server code holds a possibly-NULL pointer
    or a response that may not be built. */
module Options {
  datatype Option<T> = None | Some(value: T)
}

/** The request and response layouts of the wmediumd control server, and the
    symbolic result and action codes it exchanges. The numeric values and the
    wire encoding live in wserver.h and the message codec, which are not part
    of this model. */
module Messages {
  /** An unsigned 8-bit value (`u8` in the server). */
  type U8 = x: int | 0 <= x < 256

  /** A 6-byte hardware address, compared byte for byte as `memcmp` does. */
  type MacAddr = s: seq<U8> | |s| == 6 witness [0, 0, 0, 0, 0, 0]

  /** The `WUPDATE_*` result codes carried in every response. */
  datatype UpdateResult = Success | IntfNotFound | IntfDuplicate

  datatype SnrUpdateRequest = SnrUpdateRequest(fromAddr: MacAddr, toAddr: MacAddr, snr: int)
  datatype DelByIdRequest = DelByIdRequest(id: U8)
  datatype DelByMacRequest = DelByMacRequest(addr: MacAddr)
  datatype AddRequest = AddRequest(addr: MacAddr)

  /** A response echoes the request it answers and carries a result code;
      the add response also carries the id of the created station. */
  datatype Response =
    | SnrUpdateResponse(update: SnrUpdateRequest, result: UpdateResult)
    | DelByIdResponse(delId: DelByIdRequest, result: UpdateResult)
    | DelByMacResponse(delMac: DelByMacRequest, result: UpdateResult)
    | AddResponse(add: AddRequest, result: UpdateResult, createdId: U8)

  /** A request as tagged by its header. The payload of a tagged kind is the one
      the payload read delivers when it succeeds. */
  datatype Message =
    | ShutdownMsg
    | UpdateMsg(update: SnrUpdateRequest)
    | DelByMacMsg(delMac: DelByMacRequest)
    | DelByIdMsg(delId: DelByIdRequest)
    | AddMsg(add: AddRequest)
    | UnknownMsg
  {
    /** The kinds for which the server reads a payload after the header. */
    predicate HasPayload() {
      UpdateMsg? || DelByMacMsg? || DelByIdMsg? || AddMsg?
    }
  }

  /** Does `resp` carry `msg`'s request unchanged? */
  predicate Echoes(resp: Response, msg: Message) {
    match resp
    case SnrUpdateResponse(r, _) => msg == UpdateMsg(r)
    case DelByIdResponse(r, _) => msg == DelByIdMsg(r)
    case DelByMacResponse(r, _) => msg == DelByMacMsg(r)
    case AddResponse(r, _, _) => msg == AddMsg(r)
  }

  /** The values of `WACTION_DISCONNECTED`, `WACTION_ERROR` and `WACTION_CLOSE`.
      They are kept symbolic: nothing here depends on what the numbers are. */
  datatype ActionCodes = ActionCodes(disconnected: int, error: int, close: int) {
    predicate Distinct() {
      disconnected != error && error != close && disconnected != close
    }
  }

  /** What the collaborators report while one request is served: the header
      read, the message it tags, the payload read, the station registry call
      (delete or add) and the response send. A field the server does not look
      at for this message is ignored. */
  datatype Incoming = Incoming(baseRet: int, msg: Message, restRet: int, registryRet: int, sendRet: int)
}

/** The two pieces of I/O state the server changes: a client's socket and the
    server's event loop. */
module Io {
  import opened Messages

  /** An accepted client socket: the responses handed to the send routine on it
      and how many times it has been closed. */
  class ClientSocket {
    var sent: seq<Response>
    var closeCount: nat

    constructor ()
      ensures sent == [] && closeCount == 0
    {
      sent := [];
      closeCount := 0;
    }
  }

  /** The server's event base; `loopBreak` records that a break of its
      dispatch loop has been requested. */
  class EventBase {
    var loopBreak: bool

    constructor ()
      ensures !loopBreak
    {
      loopBreak := false;
    }
  }
}
