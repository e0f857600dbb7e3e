/** The per-connection worker of the control server: serve requests one after
    another until one of them yields a disconnect, an error or a close, then
    close the client socket. */
module Worker {
  import opened Messages
  import opened SnrUpdate
  import opened Dispatch
  import opened Io

  /** How the worker loop treats an action code, tested in the order the loop
      tests it. */
  datatype LoopStep = ClientDisconnected | ClientError | CloseServer | KeepServing

  function Classify(action: int, k: ActionCodes): (s: LoopStep)
    ensures s == ClientDisconnected <==> action == k.disconnected
    ensures s == ClientError <==> action != k.disconnected && action == k.error
    ensures s == CloseServer <==> action != k.disconnected && action != k.error && action == k.close
  {
    if action == k.disconnected then ClientDisconnected
    else if action == k.error then ClientError
    else if action == k.close then CloseServer
    else KeepServing
  }

  /** The position of the first action that ends the loop, or the length of the
      sequence when none does. */
  function StopIndex(actions: seq<int>, k: ActionCodes): (r: nat)
    ensures r <= |actions|
    ensures forall i :: 0 <= i < r ==> Classify(actions[i], k) == KeepServing
    ensures r < |actions| ==> Classify(actions[r], k) != KeepServing
  {
    if actions == [] then 0
    else if Classify(actions[0], k) != KeepServing then 0
    else 1 + StopIndex(actions[1..], k)
  }

  /** Any position satisfying StopIndex's contract is StopIndex. */
  lemma {:induction false} StopIndexAt(actions: seq<int>, k: ActionCodes, n: nat)
    requires n <= |actions|
    requires forall i :: 0 <= i < n ==> Classify(actions[i], k) == KeepServing
    requires n < |actions| ==> Classify(actions[n], k) != KeepServing
    ensures StopIndex(actions, k) == n
  {
    if n > 0 {
      assert Classify(actions[0], k) == KeepServing;
      StopIndexAt(actions[1..], k, n - 1);
    }
  }

  /** Where the loop stands after `calls` requests: every action before the
      last one served kept it going, and `ended` says the last one stopped it. */
  predicate LoopState(actions: seq<int>, k: ActionCodes, calls: nat, ended: bool) {
    calls <= |actions| && (ended ==> 0 < calls) &&
    (forall i :: 0 <= i < (if ended then calls - 1 else calls) ==> Classify(actions[i], k) == KeepServing) &&
    (ended ==> Classify(actions[calls - 1], k) != KeepServing)
  }

  /** Once the loop has left, it stopped at StopIndex or ran out of input. */
  lemma LoopExit(actions: seq<int>, k: ActionCodes, calls: nat, ended: bool)
    requires LoopState(actions, k, calls, ended) && (ended || calls == |actions|)
    ensures ended <==> StopIndex(actions, k) < |actions|
    ensures calls == if ended then StopIndex(actions, k) + 1 else |actions|
  {
    StopIndexAt(actions, k, if ended then calls - 1 else calls);
  }

  /** The action codes the requests lead to, in order. */
  function ActionsOf(stations: seq<Station>, incoming: seq<Incoming>, k: ActionCodes): (r: seq<int>)
    ensures |r| == |incoming|
  {
    seq(|incoming|, i requires 0 <= i < |incoming| => RequestOutcome(stations, incoming[i], k).action)
  }

  /** The responses serving the requests in order sends. */
  function RepliesOf(stations: seq<Station>, incoming: seq<Incoming>, k: ActionCodes): (r: seq<Response>)
    ensures |r| <= |incoming|
  {
    if incoming == [] then []
    else RepliesOf(stations, incoming[..|incoming| - 1], k) +
         ReplyLog(RequestOutcome(stations, incoming[|incoming| - 1], k).reply)
  }

  /** The SNR matrix after serving the requests in order. */
  function MatrixAfterAll(m: seq<int>, stations: seq<Station>, numStas: int, incoming: seq<Incoming>, k: ActionCodes): (r: seq<int>)
    requires Shaped(stations, numStas, |m|)
    ensures |r| == |m|
  {
    if incoming == [] then m
    else MatrixAfter(MatrixAfterAll(m, stations, numStas, incoming[..|incoming| - 1], k),
                     stations, numStas, incoming[|incoming| - 1], k)
  }

  /** Serving one more request extends the prefix by its reply and its matrix
      write. */
  lemma ServedOneMore(m: seq<int>, stations: seq<Station>, numStas: int, incoming: seq<Incoming>, n: nat, k: ActionCodes)
    requires Shaped(stations, numStas, |m|)
    requires n < |incoming|
    ensures RepliesOf(stations, incoming[..n + 1], k) ==
              RepliesOf(stations, incoming[..n], k) + ReplyLog(RequestOutcome(stations, incoming[n], k).reply)
    ensures MatrixAfterAll(m, stations, numStas, incoming[..n + 1], k) ==
              MatrixAfter(MatrixAfterAll(m, stations, numStas, incoming[..n], k), stations, numStas, incoming[n], k)
  {
    assert incoming[..n + 1][..n] == incoming[..n];
    assert incoming[..n + 1][n] == incoming[n];
  }

  /** One turn of the worker loop: serve a request, then end the loop on a
      disconnect, an error or a close, raising the server's loop break on a
      close. */
  method ServeRequest(base: EventBase, sock: ClientSocket, m: Medium, inc: Incoming, k: ActionCodes) returns (ended: bool)
    requires m.Valid()
    modifies base, sock, m.snrMatrix
    ensures m.Valid()
    ensures ended <==> Classify(RequestOutcome(m.stations, inc, k).action, k) != KeepServing
    ensures base.loopBreak == (old(base.loopBreak) || Classify(RequestOutcome(m.stations, inc, k).action, k) == CloseServer)
    ensures sock.closeCount == old(sock.closeCount)
    ensures sock.sent == old(sock.sent) + ReplyLog(RequestOutcome(m.stations, inc, k).reply)
    ensures m.snrMatrix[..] == MatrixAfter(old(m.snrMatrix[..]), m.stations, m.numStas, inc, k)
  {
    var action := ReceiveHandleRequest(m, sock, inc, k);
    ended := true;
    if action == k.disconnected {
    } else if action == k.error {
    } else if action == k.close {
      base.loopBreak := true;
    } else {
      ended := false;
    }
  }

  /** The state the worker loop keeps after `calls` requests, against the state
      it started from (`loopBreak0`, `sent0`, `closeCount0`, `matrix0`): the
      loop break raised exactly when the last request served was a close, no
      close of the socket yet, the replies of the requests served so far sent,
      and their matrix writes done. */
  ghost predicate Progress(base: EventBase, sock: ClientSocket, m: Medium, incoming: seq<Incoming>, k: ActionCodes,
                           stations: seq<Station>, numStas: int, loopBreak0: bool, sent0: seq<Response>,
                           closeCount0: nat, matrix0: seq<int>, calls: nat, ended: bool)
    reads base, sock, m, m.snrMatrix
  {
    m.Valid() && m.stations == stations && m.numStas == numStas && Shaped(stations, numStas, |matrix0|) &&
    calls <= |incoming| &&
    LoopState(ActionsOf(stations, incoming, k), k, calls, ended) &&
    base.loopBreak == (loopBreak0 || (ended && Classify(ActionsOf(stations, incoming, k)[calls - 1], k) == CloseServer)) &&
    sock.closeCount == closeCount0 &&
    sock.sent == sent0 + RepliesOf(stations, incoming[..calls], k) &&
    m.snrMatrix[..] == MatrixAfterAll(matrix0, stations, numStas, incoming[..calls], k)
  }

  /** One iteration of the worker loop, seen from the loop's state: serving the
      next request moves Progress on by one request. */
  method ServeNext(base: EventBase, sock: ClientSocket, m: Medium, incoming: seq<Incoming>, k: ActionCodes,
                   ghost stations: seq<Station>, ghost numStas: int, ghost loopBreak0: bool, ghost sent0: seq<Response>,
                   ghost closeCount0: nat, ghost matrix0: seq<int>, calls: nat)
    returns (ended: bool)
    requires calls < |incoming|
    requires Progress(base, sock, m, incoming, k, stations, numStas, loopBreak0, sent0, closeCount0, matrix0, calls, false)
    modifies base, sock, m.snrMatrix
    ensures Progress(base, sock, m, incoming, k, stations, numStas, loopBreak0, sent0, closeCount0, matrix0, calls + 1, ended)
  {
    ServedOneMore(matrix0, stations, numStas, incoming, calls, k);
    ended := ServeRequest(base, sock, m, incoming[calls], k);
  }

  /** `handle_accepted_connection`, run over the requests the client sends.
      When one of them ends the loop, the socket is closed once and nothing
      after it is served; when the sequence runs out first, the worker is still
      waiting for the next request and the socket stays open. */
  method HandleAcceptedConnection(base: EventBase, sock: ClientSocket, m: Medium, incoming: seq<Incoming>, k: ActionCodes)
    returns (calls: nat, ended: bool)
    requires m.Valid()
    modifies base, sock, m.snrMatrix
    ensures m.Valid()
    ensures ended <==> StopIndex(ActionsOf(m.stations, incoming, k), k) < |incoming|
    ensures calls == if ended then StopIndex(ActionsOf(m.stations, incoming, k), k) + 1 else |incoming|
    ensures base.loopBreak ==
              (old(base.loopBreak) || (ended && Classify(ActionsOf(m.stations, incoming, k)[calls - 1], k) == CloseServer))
    ensures sock.closeCount == old(sock.closeCount) + (if ended then 1 else 0)
    ensures sock.sent == old(sock.sent) + RepliesOf(m.stations, incoming[..calls], k)
    ensures m.snrMatrix[..] == MatrixAfterAll(old(m.snrMatrix[..]), m.stations, m.numStas, incoming[..calls], k)
  {
    ghost var stations, numStas, matrix0 := m.stations, m.numStas, m.snrMatrix[..];
    ghost var loopBreak0, sent0, closeCount0 := base.loopBreak, sock.sent, sock.closeCount;
    calls, ended := 0, false;
    assert incoming[..0] == [];
    while !ended && calls < |incoming|
      invariant Progress(base, sock, m, incoming, k, stations, numStas, loopBreak0, sent0, closeCount0, matrix0, calls, ended)
    {
      ended := ServeNext(base, sock, m, incoming, k, stations, numStas, loopBreak0, sent0, closeCount0, matrix0, calls);
      calls := calls + 1;
    }
    LoopExit(ActionsOf(stations, incoming, k), k, calls, ended);
    if ended {
      sock.closeCount := sock.closeCount + 1;
    }
  }

  /** A shutdown request whose header is read ends the loop at once, raises
      the server's loop break and gets no response. */
  lemma ShutdownClosesServer(stations: seq<Station>, incoming: seq<Incoming>, k: ActionCodes)
    requires k.Distinct()
    requires 0 < |incoming| && incoming[0].baseRet == 0 && incoming[0].msg.ShutdownMsg?
    ensures StopIndex(ActionsOf(stations, incoming, k), k) == 0
    ensures Classify(ActionsOf(stations, incoming, k)[0], k) == CloseServer
    ensures RepliesOf(stations, incoming[..1], k) == []
  {
    assert incoming[..1][..0] == [];
  }

  /** An unrecognised message kind yields -1, which ends the loop only if -1
      happens to be one of the three action codes; otherwise the worker goes on
      to read the next header. */
  lemma UnrecognisedKindKeepsServing(stations: seq<Station>, inc: Incoming, k: ActionCodes)
    requires inc.baseRet == 0 && inc.msg.UnknownMsg?
    requires -1 != k.disconnected && -1 != k.error && -1 != k.close
    ensures Classify(RequestOutcome(stations, inc, k).action, k) == KeepServing
    ensures RequestOutcome(stations, inc, k).reply.None?
  {
  }
}
