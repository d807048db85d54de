/** The server side of the JSON-RPC codec (jsonrpc/jsonrpc-server.go). */
module ServerCodec {
  import opened Common
  import opened Wire
  import opened Addressing

  datatype State = State(seqNo: nat, pending: map<nat, Id>, channels: map<nat, string>)

  const INITIAL := State(0, map[], map[])

  /** The number the next request gets: a uint64 that wraps. */
  function NextSeq(s: State): nat {
    (s.seqNo + 1) % UINT64_LIMIT
  }

  function Accept(s: State, r: Request): State {
    var n := NextSeq(s);
    State(n, s.pending[n := r.id], s.channels[n := ChannelOf(r.methodName)])
  }

  /** An error text replaces the result; a null result is an absent one. */
  function ResponseTo(id: Id, channel: string, error: string, result: Json): Response {
    Response(id, Some(channel), if error == "" && result != "null" then Some(result) else None,
             if error == "" then Absent else Text(error))
  }

  function Forget(s: State, seqNo: nat): State {
    s.(pending := s.pending - {seqNo}, channels := s.channels - {seqNo})
  }

  /** What WriteResponse encodes; `None` is "invalid sequence number in response". */
  function Answer(s: State, seqNo: nat, error: string, result: Json): Option<Response> {
    if seqNo in s.pending && seqNo in s.channels then
      Some(ResponseTo(s.pending[seqNo], s.channels[seqNo], error, result))
    else None
  }

  /** The end of a call to ReadRequestBody: nothing wanted, the argument set, no parameters in the
      request, or parameters that do not fit. */
  datatype Body = Untouched | Argument(value: Json) | MissingParams | Unfit

  class Codec {
    var seqNo: nat
    var pending: map<nat, Id>
    var pendingChannel: map<nat, string>
    var req: Option<Request>

    ghost function View(): State reads this {
      State(seqNo, pending, pendingChannel)
    }

    constructor ()
      ensures View() == INITIAL && req == None
    {
      seqNo, pending, pendingChannel, req := 0, map[], map[], None;
    }

    /** The id moves from the work space to the pending map. */
    method ReadRequestHeader(wire: Request) returns (serviceMethod: string, number: nat)
      modifies this
      ensures View() == Accept(old(View()), wire)
      ensures serviceMethod == wire.methodName && number == seqNo
      ensures req == Some(wire.(id := Null))
    {
      req := Some(wire);
      serviceMethod := wire.methodName;
      var index := Index(serviceMethod, '.');
      var channel := serviceMethod;
      if index > 0 {
        channel := serviceMethod[..index];
      }
      seqNo := (seqNo + 1) % UINT64_LIMIT;
      pending := pending[seqNo := wire.id];
      pendingChannel := pendingChannel[seqNo := channel];
      req := Some(wire.(id := Null));
      number := seqNo;
    }

    /** The parameters of the request read last; `fits` says which JSON values decode into the
        argument of the method called. */
    method ReadRequestBody(wanted: bool, fits: Json -> bool) returns (body: Body)
      ensures body == if !wanted then Untouched
                      else if req == None || req.value.params == None then MissingParams
                      else if fits(req.value.params.value) then Argument(req.value.params.value)
                      else Unfit
    {
      if !wanted {
        return Untouched;
      }
      if req == None || req.value.params == None {
        return MissingParams;
      }
      if !fits(req.value.params.value) {
        return Unfit;
      }
      return Argument(req.value.params.value);
    }

    method WriteResponse(answered: nat, error: string, result: Json) returns (wire: Option<Response>)
      modifies this
      ensures View() == Forget(old(View()), answered)
      ensures wire == Answer(old(View()), answered, error, result)
      ensures req == old(req)
    {
      if answered !in pending || answered !in pendingChannel {
        pending := pending - {answered};
        pendingChannel := pendingChannel - {answered};
        return None;
      }
      var id := pending[answered];
      var channel := pendingChannel[answered];
      pending := pending - {answered};
      pendingChannel := pendingChannel - {answered};
      var resp := Response(id, Some(channel), None, Absent);
      if error == "" {
        resp := resp.(result := if result == "null" then None else Some(result));
      } else {
        resp := resp.(error := Text(error));
      }
      return Some(resp);
    }
  }

  // ----- Runs of the codec alone, driven by any client and any RPC layer -----

  datatype Op = Read(request: Request) | Write(seqNo: nat, error: string, result: Json)

  function Step(s: State, op: Op): State {
    match op
    case Read(r) => Accept(s, r)
    case Write(n, _, _) => Forget(s, n)
  }

  function Run(ops: seq<Op>): State {
    if ops == [] then INITIAL else Step(Run(ops[..|ops| - 1]), ops[|ops| - 1])
  }

  function Reads(ops: seq<Op>): nat {
    if ops == [] then 0 else Reads(ops[..|ops| - 1]) + (if ops[|ops| - 1].Read? then 1 else 0)
  }

  /** The request at `i` was given the number `n`: the counter is taken modulo 2^64. */
  predicate IssuedAt(ops: seq<Op>, i: int, n: nat) {
    0 <= i < |ops| && ops[i].Read? && NumberAfter(Reads(ops[..i])) == n
  }

  /** The number of the request that comes after `earlier` others. */
  function NumberAfter(earlier: nat): nat {
    (earlier + 1) % UINT64_LIMIT
  }

  /** The request at `i` has the number `n` and has not been answered. */
  ghost predicate OutstandingSince(ops: seq<Op>, i: int, n: nat) {
    IssuedAt(ops, i, n) && forall j :: i < j < |ops| ==> !IsWriteOf(ops[j], n)
  }

  /** Moreover no later request was given the same number. */
  ghost predicate HeldSince(ops: seq<Op>, i: int, n: nat) {
    OutstandingSince(ops, i, n) && forall j :: i < j < |ops| ==> !IssuedAt(ops, j, n)
  }

  ghost predicate Outstanding(ops: seq<Op>, n: nat) {
    exists i :: OutstandingSince(ops, i, n)
  }

  predicate IsWriteOf(op: Op, n: nat) {
    op.Write? && op.seqNo == n
  }

  /** The two maps always have the same keys, whatever is asked of the codec. */
  lemma {:induction false} MapsInLockStep(ops: seq<Op>)
    ensures Run(ops).pending.Keys == Run(ops).channels.Keys
  {
    if ops != [] { MapsInLockStep(ops[..|ops| - 1]); }
  }

  /** The counter is the number of requests read, modulo 2^64. */
  lemma {:induction false} SeqCountsReads(ops: seq<Op>)
    ensures Run(ops).seqNo == Reads(ops) % UINT64_LIMIT
    ensures NextSeq(Run(ops)) == NumberAfter(Reads(ops))
  {
    if ops != [] { SeqCountsReads(ops[..|ops| - 1]); }
    WrapStep(Reads(ops));
  }

  lemma WrapStep(x: nat)
    ensures (x % UINT64_LIMIT + 1) % UINT64_LIMIT == (x + 1) % UINT64_LIMIT
  {
  }

  /** Below 2^64 requests, the numbers are 1, 2, ... in order of arrival. */
  lemma {:induction false} NumbersInOrder(ops: seq<Op>)
    requires Reads(ops) < UINT64_LIMIT
    ensures forall n :: n in Run(ops).pending ==> 1 <= n <= Reads(ops)
  {
    if ops != [] {
      NumbersInOrder(ops[..|ops| - 1]);
      SeqCountsReads(ops[..|ops| - 1]);
    }
  }

  // ----- How the history of one number changes with the log -----

  lemma IssueIsStable(before: seq<Op>, op: Op, i: int, n: nat)
    requires 0 <= i < |before|
    ensures IssuedAt(before + [op], i, n) <==> IssuedAt(before, i, n)
  {
    SnocPrefix(before, op, i);
  }

  lemma IssuedLast(before: seq<Op>, op: Op, n: nat)
    ensures IssuedAt(before + [op], |before|, n) <==> op.Read? && NumberAfter(Reads(before)) == n
  {
    SnocParts(before, op);
  }

  lemma SinceIsStable(before: seq<Op>, op: Op, i: int, n: nat)
    requires 0 <= i < |before|
    ensures OutstandingSince(before + [op], i, n) <==> OutstandingSince(before, i, n) && !IsWriteOf(op, n)
  {
    var ops := before + [op];
    IssueIsStable(before, op, i, n);
    assert ops[|before|] == op && forall j | i < j < |before| :: ops[j] == before[j];
  }

  lemma HeldIsStable(before: seq<Op>, op: Op, i: int, n: nat)
    requires 0 <= i < |before|
    ensures HeldSince(before + [op], i, n)
            <==> HeldSince(before, i, n) && !IsWriteOf(op, n) && !IssuedAt(before + [op], |before|, n)
  {
    var ops := before + [op];
    SinceIsStable(before, op, i, n);
    forall j | i < j < |before| ensures IssuedAt(ops, j, n) <==> IssuedAt(before, j, n) {
      IssueIsStable(before, op, j, n);
    }
  }

  lemma OutstandingAfter(before: seq<Op>, op: Op, n: nat)
    ensures Outstanding(before + [op], n)
            <==> IssuedAt(before + [op], |before|, n) || (Outstanding(before, n) && !IsWriteOf(op, n))
  {
    var ops := before + [op];
    assert OutstandingSince(ops, |before|, n) <==> IssuedAt(ops, |before|, n);
    forall i | 0 <= i < |before|
      ensures OutstandingSince(ops, i, n) <==> OutstandingSince(before, i, n) && !IsWriteOf(op, n)
    {
      SinceIsStable(before, op, i, n);
    }
  }

  lemma {:induction false} PendingIsOutstanding(ops: seq<Op>, n: nat)
    ensures n in Run(ops).pending <==> Outstanding(ops, n)
  {
    if ops != [] {
      var before, op := ops[..|ops| - 1], ops[|ops| - 1];
      assert ops == before + [op];
      PendingIsOutstanding(before, n);
      SeqCountsReads(before);
      IssuedLast(before, op, n);
      OutstandingAfter(before, op, n);
    }
  }

  /** In every log, WriteResponse fails exactly for a number that was never issued or has been
      answered since it was last issued; and answering it uses it up. */
  lemma AnswersExactlyTheOutstanding(ops: seq<Op>, n: nat, error: string, result: Json)
    ensures Answer(Run(ops), n, error, result).Some? <==> Outstanding(ops, n)
    ensures !Outstanding(ops + [Write(n, error, result)], n)
  {
    PendingIsOutstanding(ops, n);
    MapsInLockStep(ops);
    OutstandingAfter(ops, Write(n, error, result), n);
  }

  // ----- Which request an answer goes to, and when one is lost -----

  lemma {:induction false} LatestIsKept(ops: seq<Op>, i: int, n: nat)
    requires HeldSince(ops, i, n)
    ensures n in Run(ops).pending && Run(ops).pending[n] == ops[i].request.id
    ensures n in Run(ops).channels && Run(ops).channels[n] == ChannelOf(ops[i].request.methodName)
  {
    var before, op := ops[..|ops| - 1], ops[|ops| - 1];
    assert ops == before + [op];
    SeqCountsReads(before);
    IssuedLast(before, op, n);
    if i < |before| {
      HeldIsStable(before, op, i, n);
      LatestIsKept(before, i, n);
    }
  }

  /** The answer given under a number goes to the latest request that was given it: its id and the
      channel of its method are restored. */
  lemma AnswerGoesToTheLatest(ops: seq<Op>, i: int, n: nat, error: string, result: Json)
    requires HeldSince(ops, i, n)
    ensures Answer(Run(ops), n, error, result)
            == Some(ResponseTo(ops[i].request.id, ChannelOf(ops[i].request.methodName), error, result))
  {
    LatestIsKept(ops, i, n);
  }

  lemma SomeRequestIsHeld(ops: seq<Op>, i: int, n: nat) returns (k: int)
    requires OutstandingSince(ops, i, n)
    ensures i <= k && HeldSince(ops, k, n)
    decreases |ops| - i
  {
    k := i;
    if j :| i < j < |ops| && IssuedAt(ops, j, n) {
      k := SomeRequestIsHeld(ops, j, n);
    }
  }

  predicate DistinctIds(ops: seq<Op>) {
    forall i, j :: 0 <= i < j < |ops| && ops[i].Read? && ops[j].Read? ==> ops[i].request.id != ops[j].request.id
  }

  /** An unanswered request keeps its own answer exactly when no later request was given its number;
      otherwise the answer goes to that one and the request is lost. */
  lemma LostExactlyWhenNumberReused(ops: seq<Op>, i: int, n: nat, error: string, result: Json)
    requires OutstandingSince(ops, i, n) && DistinctIds(ops)
    ensures Answer(Run(ops), n, error, result).Some?
    ensures Answer(Run(ops), n, error, result).value.id == ops[i].request.id
            <==> forall j :: i < j < |ops| ==> !IssuedAt(ops, j, n)
  {
    var k := SomeRequestIsHeld(ops, i, n);
    AnswerGoesToTheLatest(ops, k, n, error, result);
  }

  /** Reading one more request keeps every request held so far exactly when its number is not that of
      an unanswered request. */
  lemma AcceptKeepsAllExactlyWhenFresh(ops: seq<Op>, r: Request)
    ensures (forall i, n :: HeldSince(ops, i, n) ==> HeldSince(ops + [Read(r)], i, n))
            <==> !Outstanding(ops, NextSeq(Run(ops)))
  {
    var op, m := Read(r), NextSeq(Run(ops));
    SeqCountsReads(ops);
    forall n ensures IssuedAt(ops + [op], |ops|, n) <==> n == m { IssuedLast(ops, op, n); }
    forall i, n | HeldSince(ops, i, n) ensures HeldSince(ops + [op], i, n) <==> n != m {
      HeldIsStable(ops, op, i, n);
    }
    if Outstanding(ops, m) {
      var i :| OutstandingSince(ops, i, m);
      var k := SomeRequestIsHeld(ops, i, m);
      assert !HeldSince(ops + [op], k, m);
    }
  }

  predicate AllReads(ops: seq<Op>) {
    forall i :: 0 <= i < |ops| ==> ops[i].Read?
  }

  lemma {:induction false} ReadsOfReads(ops: seq<Op>)
    requires AllReads(ops)
    ensures Reads(ops) == |ops|
  {
    if ops != [] { ReadsOfReads(ops[..|ops| - 1]); }
  }

  /** It happens after one full turn of the counter: of 2^64 + 1 requests with none answered, the
      first and the last share the number 1, and its answer goes to the last. */
  lemma FullTurnLosesTheFirst(first: Request, others: seq<Op>, last: Request, error: string, result: Json)
    requires AllReads(others) && |others| == 0xFFFF_FFFF_FFFF_FFFF
    ensures var ops := [Read(first)] + others + [Read(last)];
            && OutstandingSince(ops, 0, 1)
            && Answer(Run(ops), 1, error, result)
               == Some(ResponseTo(last.id, ChannelOf(last.methodName), error, result))
  {
    var before := [Read(first)] + others;
    var ops := before + [Read(last)];
    assert ops[..0] == [] && AllReads(ops);
    ReadsOfReads(before);
    IssuedLast(before, Read(last), 1);
    AnswerGoesToTheLatest(ops, |before|, 1, error, result);
  }
}
