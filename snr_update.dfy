/** The SNR update of the control server: a lookup of the sender and receiver
    in the simulator's station list and a write into its flat SNR matrix. */
module SnrUpdate {
  import opened Options
  import opened Messages
  import opened Handlers

  /** A station of the simulator, as far as the update needs it. */
  datatype Station = Station(addr: MacAddr, index: int)

  /** Some station in the list has address `addr`. */
  predicate Present(stations: seq<Station>, addr: MacAddr) {
    exists i :: 0 <= i < |stations| && stations[i].addr == addr
  }

  /** Position `i` holds the last station in list order with address `addr`. */
  predicate IsLastMatch(stations: seq<Station>, addr: MacAddr, i: int) {
    0 <= i < |stations| && stations[i].addr == addr &&
    forall j :: i < j < |stations| ==> stations[j].addr != addr
  }

  /** The station a full scan of the list that keeps overwriting its pointer on
      every match ends up holding, or None when nothing matched. */
  function LastMatch(stations: seq<Station>, addr: MacAddr): (r: Option<nat>)
    ensures r.Some? ==> r.value < |stations| && stations[r.value].addr == addr
    decreases |stations|
  {
    if stations == [] then None
    else if stations[|stations| - 1].addr == addr then Some(|stations| - 1)
    else LastMatch(stations[..|stations| - 1], addr)
  }

  /** The scan finds the last station with the address, and finds nothing
      exactly when no station has it. */
  lemma {:induction false} LastMatchIsLast(stations: seq<Station>, addr: MacAddr)
    ensures LastMatch(stations, addr).Some? ==> IsLastMatch(stations, addr, LastMatch(stations, addr).value)
    ensures LastMatch(stations, addr).None? <==> !Present(stations, addr)
    decreases |stations|
  {
    if stations != [] && stations[|stations| - 1].addr != addr {
      var prefix := stations[..|stations| - 1];
      LastMatchIsLast(prefix, addr);
      assert forall j :: 0 <= j < |prefix| ==> prefix[j] == stations[j];
    }
  }

  /** Scanning one more station: it becomes the match if its address matches. */
  lemma LastMatchStep(stations: seq<Station>, addr: MacAddr, i: nat)
    requires i < |stations|
    ensures LastMatch(stations[..i + 1], addr) ==
              if stations[i].addr == addr then Some(i) else LastMatch(stations[..i], addr)
  {
    assert stations[..i + 1][..i] == stations[..i];
  }

  /** There is only one last match, and the scan finds it. */
  lemma LastMatchIsUnique(stations: seq<Station>, addr: MacAddr)
    ensures forall i :: IsLastMatch(stations, addr, i) ==> LastMatch(stations, addr) == Some(i)
  {
    forall i | IsLastMatch(stations, addr, i)
      ensures LastMatch(stations, addr) == Some(i)
    {
      var r := LastMatch(stations, addr);
      LastMatchIsLast(stations, addr);
      assert Present(stations, addr);
      assert IsLastMatch(stations, addr, r.value);
    }
  }

  /** The shape the simulator keeps: `numStas` stations' worth of square matrix,
      and every station index within it. */
  predicate Shaped(stations: seq<Station>, numStas: int, len: int) {
    0 <= numStas && len == numStas * numStas &&
    forall i :: 0 <= i < |stations| ==> 0 <= stations[i].index < numStas
  }

  /** The cell of a pair of in-range indices lies inside the square matrix. */
  lemma CellInRange(a: int, b: int, n: int)
    requires 0 <= a < n && 0 <= b < n
    ensures 0 <= a * n + b < n * n
  {
    assert a * n + b < a * n + n == (a + 1) * n;
    assert (a + 1) * n <= n * n;
  }

  /** The result code of an SNR update over this station list. */
  function UpdateResultFor(stations: seq<Station>, request: SnrUpdateRequest): (r: UpdateResult)
    ensures r == Success <==> Present(stations, request.fromAddr) && Present(stations, request.toAddr)
    ensures r == Success || r == IntfNotFound
  {
    LastMatchIsLast(stations, request.fromAddr);
    LastMatchIsLast(stations, request.toAddr);
    if LastMatch(stations, request.fromAddr).None? || LastMatch(stations, request.toAddr).None? then
      IntfNotFound
    else
      Success
  }

  /** What `handle_update_request` hands back: the response, echoing the
      request with the update's result code, and the action the send leads to. */
  function UpdateOutcome(stations: seq<Station>, request: SnrUpdateRequest, sendRet: int, k: ActionCodes): (o: Outcome)
    ensures o.reply.Some? && o.reply.value.SnrUpdateResponse? && o.reply.value.update == request
    ensures o.reply.value.result == Success <==> Present(stations, request.fromAddr) && Present(stations, request.toAddr)
    ensures o.reply.value.result == IntfNotFound <==> !(Present(stations, request.fromAddr) && Present(stations, request.toAddr))
    ensures o.action == SendAction(sendRet, k)
  {
    Outcome(Some(SnrUpdateResponse(request, UpdateResultFor(stations, request))), SendAction(sendRet, k))
  }

  /** The matrix after an SNR update, as the scan's two pointers decide it. */
  function UpdatedMatrix(m: seq<int>, stations: seq<Station>, numStas: int, request: SnrUpdateRequest): (r: seq<int>)
    requires Shaped(stations, numStas, |m|)
    ensures |r| == |m|
  {
    var s := LastMatch(stations, request.fromAddr);
    var t := LastMatch(stations, request.toAddr);
    if s.Some? && t.Some? then
      CellInRange(stations[s.value].index, stations[t.value].index, numStas);
      m[stations[s.value].index * numStas + stations[t.value].index := request.snr]
    else
      m
  }

  /** An SNR update leaves the matrix unchanged unless both addresses are
      present, and otherwise writes `snr` into the one cell of the last
      matching sender and receiver. */
  lemma UpdatedMatrixWritesLastMatches(m: seq<int>, stations: seq<Station>, numStas: int, request: SnrUpdateRequest)
    requires Shaped(stations, numStas, |m|)
    ensures !(Present(stations, request.fromAddr) && Present(stations, request.toAddr)) ==>
              UpdatedMatrix(m, stations, numStas, request) == m
    ensures forall i, j :: IsLastMatch(stations, request.fromAddr, i) && IsLastMatch(stations, request.toAddr, j) ==>
              0 <= stations[i].index * numStas + stations[j].index < |m| &&
              UpdatedMatrix(m, stations, numStas, request) == m[stations[i].index * numStas + stations[j].index := request.snr]
  {
    LastMatchIsLast(stations, request.fromAddr);
    LastMatchIsLast(stations, request.toAddr);
    forall i, j | IsLastMatch(stations, request.fromAddr, i) && IsLastMatch(stations, request.toAddr, j)
      ensures 0 <= stations[i].index * numStas + stations[j].index < |m|
      ensures UpdatedMatrix(m, stations, numStas, request) == m[stations[i].index * numStas + stations[j].index := request.snr]
    {
      LastMatchIsUnique(stations, request.fromAddr);
      LastMatchIsUnique(stations, request.toAddr);
      assert LastMatch(stations, request.fromAddr) == Some(i);
      assert LastMatch(stations, request.toAddr) == Some(j);
      CellInRange(stations[i].index, stations[j].index, numStas);
    }
  }

  /** When sender and receiver are the same address, the update writes the
      diagonal cell of that station. */
  lemma SameAddressWritesDiagonal(m: seq<int>, stations: seq<Station>, numStas: int, request: SnrUpdateRequest, i: int)
    requires Shaped(stations, numStas, |m|)
    requires request.fromAddr == request.toAddr && IsLastMatch(stations, request.fromAddr, i)
    ensures 0 <= stations[i].index * (numStas + 1) < |m|
    ensures UpdatedMatrix(m, stations, numStas, request) == m[stations[i].index * (numStas + 1) := request.snr]
  {
    LastMatchIsUnique(stations, request.fromAddr);
    assert LastMatch(stations, request.fromAddr) == Some(i);
    var a := stations[i].index;
    CellInRange(a, a, numStas);
    MulSucc(a, numStas);
  }

  lemma MulSucc(a: int, n: int)
    ensures a * (n + 1) == a * n + a
  {
  }

  /** The simulator state the update touches: its station list, the number of
      stations and the flat `numStas * numStas` SNR matrix. */
  class Medium {
    var stations: seq<Station>
    var numStas: int
    var snrMatrix: array<int>

    ghost predicate Valid()
      reads this
    {
      Shaped(stations, numStas, snrMatrix.Length)
    }

    /** The state as the simulator sets it up (outside this model). */
    constructor (stations: seq<Station>, numStas: int)
      requires Shaped(stations, numStas, numStas * numStas)
      ensures Valid() && fresh(snrMatrix)
      ensures this.stations == stations && this.numStas == numStas
    {
      this.stations := stations;
      this.numStas := numStas;
      snrMatrix := new int[numStas * numStas];
    }

    /** `handle_update_request`: scan the whole list for both addresses, write
        the matrix cell when both were found, and send the response. */
    method HandleUpdateRequest(request: SnrUpdateRequest, sendRet: int, k: ActionCodes) returns (o: Outcome)
      requires Valid()
      modifies snrMatrix
      ensures Valid()
      ensures o == UpdateOutcome(stations, request, sendRet, k)
      ensures snrMatrix[..] == UpdatedMatrix(old(snrMatrix[..]), stations, numStas, request)
    {
      var sender: Option<nat> := None;
      var receiver: Option<nat> := None;
      var i := 0;
      while i < |stations|
        invariant 0 <= i <= |stations|
        invariant sender == LastMatch(stations[..i], request.fromAddr)
        invariant receiver == LastMatch(stations[..i], request.toAddr)
        invariant unchanged(snrMatrix)
      {
        LastMatchStep(stations, request.fromAddr, i);
        LastMatchStep(stations, request.toAddr, i);
        if stations[i].addr == request.fromAddr {
          sender := Some(i);
        }
        if stations[i].addr == request.toAddr {
          receiver := Some(i);
        }
        i := i + 1;
      }
      assert stations[..i] == stations;
      var result: UpdateResult;
      if sender.None? || receiver.None? {
        result := IntfNotFound;
      } else {
        var a, b := stations[sender.value].index, stations[receiver.value].index;
        CellInRange(a, b, numStas);
        snrMatrix[a * numStas + b] := request.snr;
        assert snrMatrix[..] == old(snrMatrix[..])[a * numStas + b := request.snr];
        result := Success;
      }
      o := Outcome(Some(SnrUpdateResponse(request, result)), SendAction(sendRet, k));
    }
  }
}
