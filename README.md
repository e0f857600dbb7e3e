# wmediumd control server: request handling core

This project models the sequential core of wmediumd's control server
(`wmediumd/wserver.c`). A client connects over a UNIX socket and sends
requests: update the SNR between two stations, delete a station by id or by
MAC address, add a station, or shut the server down. One worker per
connection reads each request, calls the matching handler, sends the
response, and decides from the returned action code whether to go on.

The model has seven modules in five files:

- `Messages`, with `Options` and `Io` (all three in `messages.dfy`), defines the data:
  - the request and response records, the `WUPDATE_*` result codes, and the
    message kinds;
  - `ActionCodes`, which stands for the values of `WACTION_DISCONNECTED`,
    `WACTION_ERROR` and `WACTION_CLOSE`. They are kept symbolic, so no proof
    depends on the numbers.
  - `Incoming`, which carries what the collaborators return while one request
    is served: the header read, the payload read, the station-registry call
    and the send.
  - `ClientSocket`, which records the responses sent and how many times the
    socket was closed.
  - `EventBase`, which records whether a break of the server's event loop was
    requested.
- `Handlers` (`handlers.dfy`) holds the delete and add handlers. Each is a
  pure mapping from the registry's return value and the send result to the
  response and to the action code.
- `SnrUpdate` (`snr_update.dfy`) holds the SNR update. A `Medium` class holds
  the station list, `num_stas` and the flat SNR matrix as an `array<int>`.
  `HandleUpdateRequest` scans the whole list as the C loop does, then writes
  the matrix in place.
- `Dispatch` (`dispatch.dfy`) holds `parse_recv_msg_rest_error` and
  `receive_handle_request`:
  - a pure routing function;
  - the outcome of one request;
  - the method that calls the handler, updates the matrix and puts the
    response on the socket.
- `Worker` (`worker.dfy`) holds the loop of `handle_accepted_connection`. It
  runs over a sequence of incoming requests, stops on a disconnect, an error
  or a close, raises the loop break on a close, and then closes the socket
  once.

The worker's result is tied to pure reference functions:

- `StopIndex`: the first request whose action ends the loop;
- `RepliesOf`: the responses sent;
- `MatrixAfterAll`: the matrix after all the writes.

## Model

| member | source | states |
|---|---|---|
| SnrUpdate.LastMatch | wmediumd/wserver.c:149-156 | a found position holds a station with the searched address |
| SnrUpdate.LastMatchIsLast | wmediumd/wserver.c:149-156 | the scan without a break ends at the last station in list order with the address; it finds nothing exactly when no station has the address |
| SnrUpdate.LastMatchStep | wmediumd/wserver.c:149-156 | scanning one more station moves the pointer to that station exactly when its address matches |
| SnrUpdate.LastMatchIsUnique | wmediumd/wserver.c:149-156 | the last match is unique, and it is what the scan finds |
| SnrUpdate.CellInRange | wmediumd/wserver.c:166 | the cell `sender.index * num_stas + receiver.index` of two in-range indices lies inside the `num_stas * num_stas` matrix |
| SnrUpdate.UpdateResultFor | wmediumd/wserver.c:158-167 | the result is WUPDATE_SUCCESS exactly when both addresses are in the list, and WUPDATE_INTF_NOTFOUND otherwise |
| SnrUpdate.UpdatedMatrix | wmediumd/wserver.c:158-167 | the matrix keeps its length |
| SnrUpdate.UpdatedMatrixWritesLastMatches | wmediumd/wserver.c:149-167 | if an address is missing, the matrix is unchanged; otherwise exactly the cell of the last matching sender and receiver is set to `snr`, and every other cell is kept |
| SnrUpdate.SameAddressWritesDiagonal | wmediumd/wserver.c:149-166 | when from equals to, the diagonal cell `index * (num_stas + 1)` of the last matching station is written |
| SnrUpdate.UpdateOutcome | wmediumd/wserver.c:140-175 | the update always builds a response; it echoes the request; its code is SUCCESS exactly when both addresses are present and NOTFOUND exactly when one is missing; the action is SendAction of the send result |
| SnrUpdate.Medium.HandleUpdateRequest | wmediumd/wserver.c:139-176 | the loop over the list leaves the array equal to UpdatedMatrix of the old contents; the outcome is UpdateOutcome; the list and the matrix shape are kept |
| Handlers.SendAction | wmediumd/wserver.c:170-175 | a negative send result gives WACTION_ERROR; any other result is returned unchanged |
| Handlers.DeleteResult | wmediumd/wserver.c:181-195 | 0 gives WUPDATE_SUCCESS, -ENODEV gives WUPDATE_INTF_NOTFOUND, and every other value gives no response, each in both directions |
| Handlers.HandleDeleteById | wmediumd/wserver.c:178-202 | there is a response exactly when the registry returned 0 or -ENODEV; it echoes the request, and its code is SUCCESS exactly for 0 and NOTFOUND exactly for -ENODEV; with a response the action is SendAction, without one it is WACTION_ERROR |
| Handlers.HandleDeleteByMac | wmediumd/wserver.c:204-228 | the same mapping for delete by MAC, with a delete-by-MAC response that echoes the request |
| Handlers.AddResult | wmediumd/wserver.c:231-249 | -EEXIST gives DUPLICATE with created id 0 (both directions); a non-negative id gives SUCCESS with the id mod 256; any other negative value gives no response |
| Handlers.HandleAdd | wmediumd/wserver.c:230-256 | there is a response exactly when the id is non-negative or -EEXIST; it echoes the request with DUPLICATE and id 0, or SUCCESS and the id truncated to 8 bits; the action is SendAction with a response and WACTION_ERROR without one |
| Handlers.CreatedIdTruncates | wmediumd/wserver.c:247 | the created id equals the registry's id exactly when the id is below 256; id 256 is reported as 0, the same id a duplicate reports |
| Dispatch.ParseRecvMsgRestError | wmediumd/wserver.c:258-265 | a positive payload-read result is passed through; zero or negative gives WACTION_ERROR |
| Dispatch.RouteRequest | wmediumd/wserver.c:267-313 | a handler is called exactly when the header read returned 0, the kind has a payload and the payload read returned 0; a positive header result is passed through, a negative one gives WACTION_ERROR, shutdown gives WACTION_CLOSE, an unknown kind gives -1, and a failed payload read gives ParseRecvMsgRestError |
| Dispatch.RequestOutcome | wmediumd/wserver.c:267-313 | a response always echoes the request; there is no response exactly when routing finished early or the registry failed fatally; the early action is the route's; a response means the action is SendAction; an update's code is SUCCESS exactly when both addresses are present |
| Dispatch.MatrixAfter | wmediumd/wserver.c:276-285 | only an update request that reaches its handler can change the matrix |
| Dispatch.ReplyLog | wmediumd/wserver.c:170 | a request puts at most one response on the socket |
| Dispatch.ReceiveHandleRequest | wmediumd/wserver.c:267-313 | the returned action is RequestOutcome's; the socket gets exactly its response, if any; the matrix becomes MatrixAfter of the old contents; the socket is not closed |
| Dispatch.ReplyExactlyWhenHandled | wmediumd/wserver.c:267-313 | a response is sent exactly when the header and payload reads returned 0, the kind has a payload and the registry did not fail fatally; shutdown never gets one |
| Worker.Classify | wmediumd/wserver.c:332-342 | the action is classified in the loop's test order: disconnected, then error, then close, otherwise keep serving |
| Worker.StopIndex | wmediumd/wserver.c:328-343 | the first position whose action ends the loop: every earlier action keeps serving, and the action there does not |
| Worker.StopIndexAt | wmediumd/wserver.c:328-343 | any position with StopIndex's defining property is StopIndex |
| Worker.ActionsOf | wmediumd/wserver.c:331 | one action per request |
| Worker.RepliesOf | wmediumd/wserver.c:331 | no more responses than requests |
| Worker.MatrixAfterAll | wmediumd/wserver.c:331 | the matrix keeps its length after any number of requests |
| Worker.ServedOneMore | wmediumd/wserver.c:328-331 | serving one more request appends its response and applies its matrix write |
| Worker.LoopExit | wmediumd/wserver.c:328-343 | when the loop leaves, it has served up to and including StopIndex, or it ran out of input with nothing stopping it |
| Worker.ServeRequest | wmediumd/wserver.c:331-342 | one turn ends the loop exactly when the action is disconnected, error or close; the loop break is raised exactly on close; the response and matrix write are those of RequestOutcome and MatrixAfter |
| Worker.ServeNext | wmediumd/wserver.c:328-343 | one iteration moves the loop's state (Progress) forward by exactly one request |
| Worker.HandleAcceptedConnection | wmediumd/wserver.c:322-347 | the loop stops exactly at the first request whose action is disconnected, error or close, and serves nothing after it; the loop break is raised exactly when that action is close; the socket is closed exactly once after a stop; the socket gets exactly RepliesOf the requests served; the matrix is MatrixAfterAll of them |
| Worker.ShutdownClosesServer | wmediumd/wserver.c:276-341 | with distinct action codes, a shutdown request ends the loop at once, classified as close, and sends no response |
| Worker.UnrecognisedKindKeepsServing | wmediumd/wserver.c:310-342 | an unknown kind yields -1; unless -1 is one of the three action codes, the loop goes on, and no response is sent |

## Left out

- Socket creation, bind, listen, unlink and accept (wmediumd/wserver.c:89-137): operating-system I/O.
- The libevent event base, the accept callback and `run_wserver`/`stop_wserver` (wmediumd/wserver.c:349-404). The only effect kept is `event_base_loopbreak`, as the `loopBreak` flag.
- Thread creation and cancellation: concurrency is not modelled, and a single worker runs.
- The `snr_lock` mutex: the update is treated as atomic.
- Installing and restoring the SIGINT handler, and `exit`: process signals.
- `shutdown_wserver`: not modelled, and in particular not claimed to be idempotent or to run once. Both `run_wserver` and `stop_wserver` can call it, and it has no guard.
- Logging through `w_logf`: it has no effect that can be observed.
- The wire codec (`wserver_send_msg`, `wserver_recv_msg_base`, `wserver_recv_msg_rest`) and the station registry (`add_station`, `del_station_by_id`, `del_station_by_mac`). These are not part of this model; their return values are inputs (`Incoming`), and a successful payload read delivers the request carried in `Message`.
- The numeric values of `WACTION_*`, `WUPDATE_*` and the message type tags (`wserver.h` is not part of this model): the action codes are symbolic parameters; the result codes and kinds are datatype constructors.
- ENODEV and EEXIST take their Linux values, 19 and 17.
- The `snr` field of an update request is an unbounded integer; its C width is not modelled, because the server only copies it.
- SnrUpdate.Medium.constructor: the station list, `num_stas` and the matrix are set up elsewhere in wmediumd; the constructor only stands for that setup.
- A station's state other than the address and the index is not modelled.
- Worker.HandleAcceptedConnection: the station list and `num_stas` are held fixed for the whole connection, together with the matrix's shape. In wmediumd, a successful `del_station_by_mac`, `del_station_by_id` or `add_station` (wmediumd/wserver.c:181, 207, 231) changes them for every later update. For example, after a successful delete of X, an update X to X gets WUPDATE_INTF_NOTFOUND and writes nothing (wmediumd/wserver.c:149-162). The model instead reports success and writes the cell. The model's replies and matrix are therefore those of the connection only while no add or delete succeeds before an update. This is because the registry's effect on the list and the matrix lives in code that is not part of this model.
- Worker.MatrixAfterAll: the same holds. Every update is folded over the one station list and `num_stas` the connection started with, so after a successful add or delete the later writes, and the matrix's length, are not the program's.
- Worker.RepliesOf: the same holds. The update codes after a successful add or delete are computed over the initial station list.
- Dispatch.ReceiveHandleRequest: its frame changes only the matrix contents and the socket. The station list change that a successful delete or add makes through the registry is not modelled.
- SnrUpdate.Medium.HandleUpdateRequest: the method requires `Valid()`. That means every station index lies in `[0, num_stas)` and the matrix has exactly `num_stas * num_stas` cells. The C write at wmediumd/wserver.c:166 does not check this. The model takes it as an invariant the simulator keeps elsewhere, and it does not model the unchecked out-of-range write a station outside it would cause.
- Worker.HandleAcceptedConnection: the C loop runs until an action stops it. The model serves a finite sequence of requests. When the sequence runs out before a stop, it returns with the socket still open, which corresponds to the worker still waiting for the next request.
- Freeing the accept context (wmediumd/wserver.c:345): memory management.

An unknown message kind returns -1 (wmediumd/wserver.c:310-311). Whether that ends the
connection depends on whether -1 is one of the `WACTION_*` values; the model
keeps both possibilities (Worker.UnrecognisedKindKeepsServing covers the
case where -1 is none of them).
