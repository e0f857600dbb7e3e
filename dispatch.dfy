/** Request dispatch of the control server: how the outcome of reading the
    header and the payload, and the message kind, decide between returning an
    action code at once and calling a handler. */
module Dispatch {
  import opened Options
  import opened Messages
  import opened Handlers
  import opened SnrUpdate
  import opened Io

  /** `parse_recv_msg_rest_error`: a positive payload-read result is passed on,
      anything else is an error. */
  function ParseRecvMsgRestError(value: int, k: ActionCodes): (r: int)
    ensures 0 < value ==> r == value
    ensures value <= 0 ==> r == k.error
  {
    if value > 0 then value else k.error
  }

  /** Either the action code the dispatcher returns without calling a handler,
      or the decision to call the handler of the message's kind. */
  datatype Route = Finish(action: int) | Handle

  /** The decisions of `receive_handle_request` before any handler runs. */
  function RouteRequest(baseRet: int, msg: Message, restRet: int, k: ActionCodes): (r: Route)
    ensures r == Handle <==> baseRet == 0 && msg.HasPayload() && restRet == 0
    ensures 0 < baseRet ==> r == Finish(baseRet)
    ensures baseRet < 0 ==> r == Finish(k.error)
    ensures baseRet == 0 && msg.ShutdownMsg? ==> r == Finish(k.close)
    ensures baseRet == 0 && msg.UnknownMsg? ==> r == Finish(-1)
    ensures baseRet == 0 && msg.HasPayload() && restRet != 0 ==> r == Finish(ParseRecvMsgRestError(restRet, k))
  {
    if baseRet > 0 then Finish(baseRet)
    else if baseRet < 0 then Finish(k.error)
    else
      match msg
      case ShutdownMsg => Finish(k.close)
      case UnknownMsg => Finish(-1)
      case _ => if restRet != 0 then Finish(ParseRecvMsgRestError(restRet, k)) else Handle
  }

  /** The registry call of a delete or add request failed in a way its handler
      treats as fatal, so no response is built. */
  predicate RegistryFailed(inc: Incoming) {
    ((inc.msg.DelByIdMsg? || inc.msg.DelByMacMsg?) && inc.registryRet != 0 && inc.registryRet != -ENODEV) ||
    (inc.msg.AddMsg? && inc.registryRet < 0 && inc.registryRet != -EEXIST)
  }

  /** What serving one request leads to, over the given station list: the
      response handed to the send routine, if any, and the action code. */
  function RequestOutcome(stations: seq<Station>, inc: Incoming, k: ActionCodes): (o: Outcome)
    ensures o.reply.Some? ==> Echoes(o.reply.value, inc.msg)
    ensures o.reply.Some? ==> o.action == SendAction(inc.sendRet, k)
    ensures o.reply.None? <==> RouteRequest(inc.baseRet, inc.msg, inc.restRet, k).Finish? || RegistryFailed(inc)
    ensures RouteRequest(inc.baseRet, inc.msg, inc.restRet, k).Finish? ==>
              o.action == RouteRequest(inc.baseRet, inc.msg, inc.restRet, k).action
    ensures RouteRequest(inc.baseRet, inc.msg, inc.restRet, k) == Handle && RegistryFailed(inc) ==> o.action == k.error
    ensures o.reply.Some? && inc.msg.UpdateMsg? ==>
              o.reply.value.result == (if Present(stations, inc.msg.update.fromAddr) && Present(stations, inc.msg.update.toAddr)
                                       then Success else IntfNotFound)
  {
    var route := RouteRequest(inc.baseRet, inc.msg, inc.restRet, k);
    if route.Finish? then
      Outcome(None, route.action)
    else
      match inc.msg
      case UpdateMsg(r) => UpdateOutcome(stations, r, inc.sendRet, k)
      case DelByMacMsg(r) => HandleDeleteByMac(r, inc.registryRet, inc.sendRet, k)
      case DelByIdMsg(r) => HandleDeleteById(r, inc.registryRet, inc.sendRet, k)
      case AddMsg(r) => HandleAdd(r, inc.registryRet, inc.sendRet, k)
  }

  /** The SNR matrix after serving one request: only an update request that
      reaches its handler changes it. */
  function MatrixAfter(m: seq<int>, stations: seq<Station>, numStas: int, inc: Incoming, k: ActionCodes): (r: seq<int>)
    requires Shaped(stations, numStas, |m|)
    ensures |r| == |m|
    ensures !(inc.msg.UpdateMsg? && RouteRequest(inc.baseRet, inc.msg, inc.restRet, k) == Handle) ==> r == m
  {
    if inc.msg.UpdateMsg? && RouteRequest(inc.baseRet, inc.msg, inc.restRet, k) == Handle then
      UpdatedMatrix(m, stations, numStas, inc.msg.update)
    else
      m
  }

  /** The responses a reply option puts on the socket. */
  function ReplyLog(reply: Option<Response>): (r: seq<Response>)
    ensures |r| <= 1
  {
    match reply
    case None => []
    case Some(resp) => [resp]
  }

  /** `receive_handle_request`: read the header, then (for a kind with a
      payload) the payload, and call the kind's handler; the response the
      handler builds is sent on `sock`. */
  method ReceiveHandleRequest(m: Medium, sock: ClientSocket, inc: Incoming, k: ActionCodes) returns (action: int)
    requires m.Valid()
    modifies m.snrMatrix, sock
    ensures m.Valid()
    ensures action == RequestOutcome(m.stations, inc, k).action
    ensures sock.sent == old(sock.sent) + ReplyLog(RequestOutcome(m.stations, inc, k).reply)
    ensures sock.closeCount == old(sock.closeCount)
    ensures m.snrMatrix[..] == MatrixAfter(old(m.snrMatrix[..]), m.stations, m.numStas, inc, k)
  {
    var route := RouteRequest(inc.baseRet, inc.msg, inc.restRet, k);
    if route.Finish? {
      return route.action;
    }
    var o: Outcome;
    match inc.msg {
      case UpdateMsg(r) =>
        o := m.HandleUpdateRequest(r, inc.sendRet, k);
      case DelByMacMsg(r) =>
        o := HandleDeleteByMac(r, inc.registryRet, inc.sendRet, k);
      case DelByIdMsg(r) =>
        o := HandleDeleteById(r, inc.registryRet, inc.sendRet, k);
      case AddMsg(r) =>
        o := HandleAdd(r, inc.registryRet, inc.sendRet, k);
    }
    if o.reply.Some? {
      sock.sent := sock.sent + [o.reply.value];
    }
    action := o.action;
  }

  /** Every request with a payload that is read successfully gets exactly one
      response, unless its registry call failed fatally; a shutdown request
      and a failed read never get one. */
  lemma ReplyExactlyWhenHandled(stations: seq<Station>, inc: Incoming, k: ActionCodes)
    ensures RequestOutcome(stations, inc, k).reply.Some? <==>
              inc.baseRet == 0 && inc.msg.HasPayload() && inc.restRet == 0 && !RegistryFailed(inc)
    ensures inc.msg.ShutdownMsg? ==> RequestOutcome(stations, inc, k).reply.None?
  {
  }
}
