/** The delete and add request handlers of the control server. The station
    registry calls and the send routine are collaborators: their return values
    are inputs here. */
module Handlers {
  import opened Options
  import opened Messages

  /** errno values on Linux. */
  const ENODEV: int := 19
  const EEXIST: int := 17

  /** What a handler does: the response it hands to the send routine, if any,
      and the action code it returns to the worker loop. */
  datatype Outcome = Outcome(reply: Option<Response>, action: int)

  /** The action a handler returns once it has sent its response: a failed
      send (negative result) is an error, any other result is passed on. */
  function SendAction(sendRet: int, k: ActionCodes): (a: int)
    ensures sendRet < 0 ==> a == k.error
    ensures 0 <= sendRet ==> a == sendRet
  {
    if sendRet < 0 then k.error else sendRet
  }

  /** The result code a delete reports for the registry's return value, or
      None when the registry failed in a way the handler treats as fatal. */
  function DeleteResult(ret: int): (r: Option<UpdateResult>)
    ensures r == Some(Success) <==> ret == 0
    ensures r == Some(IntfNotFound) <==> ret == -ENODEV
    ensures r.None? <==> ret != 0 && ret != -ENODEV
    ensures r != Some(IntfDuplicate)
  {
    if ret != 0 then
      if ret == -ENODEV then Some(IntfNotFound) else None
    else
      Some(Success)
  }

  /** `handle_delete_by_id_request`, given what `del_station_by_id` and the
      send routine return. */
  function HandleDeleteById(request: DelByIdRequest, delRet: int, sendRet: int, k: ActionCodes): (o: Outcome)
    ensures o.reply.Some? <==> delRet == 0 || delRet == -ENODEV
    ensures o.reply.Some? ==> o.reply.value.DelByIdResponse? && o.reply.value.delId == request
    ensures o.reply.Some? ==> (o.reply.value.result == Success <==> delRet == 0)
    ensures o.reply.Some? ==> (o.reply.value.result == IntfNotFound <==> delRet == -ENODEV)
    ensures o.reply.Some? ==> o.action == SendAction(sendRet, k)
    ensures o.reply.None? ==> o.action == k.error
  {
    match DeleteResult(delRet)
    case None => Outcome(None, k.error)
    case Some(res) => Outcome(Some(DelByIdResponse(request, res)), SendAction(sendRet, k))
  }

  /** `handle_delete_by_mac_request`, given what `del_station_by_mac` and the
      send routine return. */
  function HandleDeleteByMac(request: DelByMacRequest, delRet: int, sendRet: int, k: ActionCodes): (o: Outcome)
    ensures o.reply.Some? <==> delRet == 0 || delRet == -ENODEV
    ensures o.reply.Some? ==> o.reply.value.DelByMacResponse? && o.reply.value.delMac == request
    ensures o.reply.Some? ==> (o.reply.value.result == Success <==> delRet == 0)
    ensures o.reply.Some? ==> (o.reply.value.result == IntfNotFound <==> delRet == -ENODEV)
    ensures o.reply.Some? ==> o.action == SendAction(sendRet, k)
    ensures o.reply.None? ==> o.action == k.error
  {
    match DeleteResult(delRet)
    case None => Outcome(None, k.error)
    case Some(res) => Outcome(Some(DelByMacResponse(request, res)), SendAction(sendRet, k))
  }

  /** The result code and created id an add reports for the registry's return
      value, or None when the registry failed in a way the handler treats as
      fatal. A non-negative station id is truncated to 8 bits. */
  function AddResult(ret: int): (r: Option<(UpdateResult, U8)>)
    ensures r.Some? <==> 0 <= ret || ret == -EEXIST
    ensures r == Some((IntfDuplicate, 0)) <==> ret == -EEXIST
    ensures 0 <= ret ==> r == Some((Success, ret % 256))
    ensures r.Some? ==> r.value.0 != IntfNotFound
  {
    if ret < 0 then
      if ret == -EEXIST then Some((IntfDuplicate, 0)) else None
    else
      Some((Success, ret % 256))
  }

  /** `handle_add_request`, given what `add_station` and the send routine
      return. */
  function HandleAdd(request: AddRequest, addRet: int, sendRet: int, k: ActionCodes): (o: Outcome)
    ensures o.reply.Some? <==> 0 <= addRet || addRet == -EEXIST
    ensures o.reply.Some? ==> o.reply.value.AddResponse? && o.reply.value.add == request
    ensures addRet == -EEXIST ==> o.reply == Some(AddResponse(request, IntfDuplicate, 0))
    ensures 0 <= addRet ==> o.reply == Some(AddResponse(request, Success, addRet % 256))
    ensures o.reply.Some? ==> o.action == SendAction(sendRet, k)
    ensures o.reply.None? ==> o.action == k.error
  {
    match AddResult(addRet)
    case None => Outcome(None, k.error)
    case Some((res, id)) => Outcome(Some(AddResponse(request, res, id)), SendAction(sendRet, k))
  }

  /** The created id is the registry's id exactly when that id fits in 8 bits;
      an id of 256 is reported as 0, the same id a duplicate add reports. */
  lemma CreatedIdTruncates(request: AddRequest, addRet: int, sendRet: int, k: ActionCodes)
    requires 0 <= addRet
    ensures HandleAdd(request, addRet, sendRet, k).reply.value.createdId == addRet <==> addRet < 256
    ensures addRet == 256 ==> HandleAdd(request, addRet, sendRet, k).reply.value.createdId ==
                              HandleAdd(request, -EEXIST, sendRet, k).reply.value.createdId
  {
  }
}
