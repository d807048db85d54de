/** The client side of the JSON-RPC codec (jsonrpc/jsonrpc-client.go). */
module ClientCodec {
  import opened Common
  import opened Wire
  import opened Addressing

  /** The record WriteRequest encodes, or `None` when it panics on the name. */
  function RequestFor(seqNo: nat, serviceMethod: string, param: Json): Option<Request> {
    match Parse(serviceMethod)
    case None => None
    case Some(a) => Some(Request(a.methodName, a.channel, Some(a.target), Some(param), Number(seqNo)))
  }

  /** The record is the name taken apart: put together, target and method are the name, less the one
      character in front; a name without `]` is all method, for everyone. */
  predicate TakenApart(name: string, r: Request) {
    && r.target.Some? && IsChannelOf(r.channel, r.methodName)
    && if ']' in name then name == [name[0]] + r.target.value + "]" + r.methodName && ']' !in r.target.value
       else r.target.value == "-1" && r.methodName == name
  }

  lemma RequestIsTheNameTakenApart(seqNo: nat, name: string, param: Json)
    ensures var request := RequestFor(seqNo, name, param);
            && (request.None? <==> name != "" && name[0] == ']')
            && (request.Some? ==>
                  TakenApart(name, request.value) && request.value.id == Number(seqNo)
                  && request.value.params == Some(param))
  {
    ParseReassembles(name);
    if Parse(name).Some? {
      var address := Parse(name).value;
      ChannelIsThePrefix(address.methodName, address.channel);
    }
  }

  /** What the relay and the far side are given for a printed call: the part of the target in front of
      its first `]`, where `-1` means no target, and the plain method exactly when no `]` was in it. */
  lemma PrintedRequest(seqNo: nat, service: string, methodName: string, target: Option<string>, param: Json)
    ensures var request := RequestFor(seqNo, ServiceName(service, methodName, target), param);
            && request.Some?
            && Relayed(request.value.target) == (if Shown(target) == "-1" then None else Some(Shown(target)))
            && (request.value.methodName == service + "." + methodName <==> target.None? || ']' !in target.value)
  {
    ParsePrinted(service, methodName, target);
  }

  /** So the hub is given the caller's own target, with `-1` as none, exactly when it has no `]`. */
  lemma HubSeesTheTarget(seqNo: nat, service: string, methodName: string, target: Option<string>, param: Json)
    ensures var request := RequestFor(seqNo, ServiceName(service, methodName, target), param);
            && request.Some?
            && (Relayed(request.value.target) == (if target == Some("-1") then None else target)
                <==> target.None? || ']' !in target.value)
  {
    PrintedRequest(seqNo, service, methodName, target, param);
    if target.Some? && ']' in target.value {
      assert ']' in target.value && ']' !in "-1";
      assert |Shown(target)| < |target.value|;
    }
  }

  /** What ReadResponseHeader reports to the RPC layer. */
  datatype Header =
    | Header(seqNo: nat, serviceMethod: string, error: string)
    | InvalidError   // the error member is neither null nor a string
    | BadId          // the id does not decode into a uint64

  predicate Decodes(id: Id) {
    id.Null? || (id.Number? && id.n < UINT64_LIMIT)
  }

  /** A null id leaves the zero that `reset` stored. */
  function SeqOf(id: Id): nat {
    if id.Number? then id.n else 0
  }

  function HeaderOf(pending: map<nat, string>, wire: Response): Header {
    if !Decodes(wire.id) then BadId
    else if wire.error.Object? then InvalidError
    else
      var seqNo := SeqOf(wire.id);
      var error := match wire.error
                   case Text(m) => if m == "" then "unspecified error" else m
                   case _ => "";
      Header(seqNo, if seqNo in pending then pending[seqNo] else "", error)
  }

  /** The calls still waiting after a response has been read. */
  function Settle(pending: map<nat, string>, wire: Response): map<nat, string> {
    if Decodes(wire.id) then pending - {SeqOf(wire.id)} else pending
  }

  /** What a response does to the calls waiting. One whose id is neither null nor a uint64 does
      nothing. Any other settles the call with its id, or with id 0 when it is null, and reports that call
      with an error exactly when its error member is not null: the text itself when that is a text, with
      words put in place of an empty one; anything else fails the whole codec. */
  lemma CallFailsExactlyWhenErrorIsPresent(pending: map<nat, string>, wire: Response)
    ensures var header, left := HeaderOf(pending, wire), Settle(pending, wire);
            if wire.id.Other? || (wire.id.Number? && wire.id.n >= 0x1_0000_0000_0000_0000) then
              header == BadId && left == pending
            else
              var id := if wire.id.Null? then 0 else wire.id.n;
              && id !in left && (forall k :: k != id ==> (k in left <==> k in pending))
              && (forall k :: k in left ==> left[k] == pending[k])
              && (header == InvalidError <==> wire.error.Object?)
              && (header != InvalidError ==>
                    && header.Header? && header.seqNo == id
                    && (id in pending ==> header.serviceMethod == pending[id])
                    && (header.error == "" <==> wire.error == Absent)
                    && (wire.error.Text? ==>
                          header.error == if wire.error.message == "" then "unspecified error" else wire.error.message))
  {
  }

  /** The end of a call to WriteRequest: the record encoded, the panic of the slice `[1:0]`, or waiting
      for the mutex for ever. */
  datatype Sending = Written(wire: Request) | Panicked | Stuck

  /** The end of a call to ReadResponseHeader, which also takes the mutex. */
  datatype Reading = Reported(header: Header) | Waiting

  /** The end of a call to ReadResponseBody: the reply left as it was, the reply set, or the error of
      a result that does not fit the reply. */
  datatype Body = Untouched | Stored(value: Json) | Unfit

  const EMPTY_RESPONSE := Response(Number(0), None, None, Absent)

  class Codec {
    var pending: map<nat, string>
    var req: Option<Request>
    var resp: Response
    var locked: bool   // the mutex, between calls

    constructor ()
      ensures pending == map[] && req == None && resp == EMPTY_RESPONSE && !locked
    {
      pending, req, resp, locked := map[], None, EMPTY_RESPONSE, false;
    }

    /** The id is recorded and the mutex taken before the name is parsed, so a panic leaves the id
        pending and the mutex held: from then on every call waits for ever. */
    method WriteRequest(seqNo: nat, serviceMethod: string, param: Json) returns (end: Sending)
      modifies this
      ensures old(locked) ==> end == Stuck && locked && pending == old(pending) && req == old(req)
      ensures !old(locked) ==> pending == old(pending)[seqNo := serviceMethod]
      ensures !old(locked) ==>
                match RequestFor(seqNo, serviceMethod, param)
                case Some(wire) => end == Written(wire) && req == Some(wire) && !locked
                case None => end == Panicked && req == old(req) && locked
      ensures resp == old(resp)
    {
      if locked {
        return Stuck;
      }
      locked := true;
      pending := pending[seqNo := serviceMethod];
      var target := EVERYONE;
      var methodName := serviceMethod;
      var mindex := Index(methodName, ']');
      if mindex >= 0 {
        if mindex == 0 {
          return Panicked;
        }
        target := methodName[1..mindex];
        methodName := methodName[mindex + 1..];
      }
      assert Parse(serviceMethod) == Some(Address(target, methodName, ChannelOf(methodName)));
      var index := Index(methodName, '.');
      var channel := methodName;
      if index > 0 {
        channel := methodName[..index];
      }
      locked := false;
      var wire := Request(methodName, channel, Some(target), Some(param), Number(seqNo));
      req := Some(wire);
      end := Written(wire);
    }

    /** A response whose id does not decode is refused before the mutex is needed. */
    method ReadResponseHeader(wire: Response) returns (end: Reading)
      modifies this
      ensures old(locked) && Decodes(wire.id) ==> end == Waiting && pending == old(pending)
      ensures !old(locked) || !Decodes(wire.id) ==>
                end == Reported(HeaderOf(old(pending), wire)) && pending == Settle(old(pending), wire)
      ensures Decodes(wire.id) ==> resp == wire.(id := Number(SeqOf(wire.id)))
      ensures req == old(req) && locked == old(locked)
    {
      resp := EMPTY_RESPONSE;
      if wire.id.Other? || (wire.id.Number? && wire.id.n >= UINT64_LIMIT) {
        return Reported(BadId);
      }
      resp := wire.(id := if wire.id.Null? then resp.id else wire.id);
      if locked {
        return Waiting;
      }
      var id := resp.id.n;
      var serviceMethod := "";
      if id in pending {
        serviceMethod := pending[id];
      }
      pending := pending - {id};
      var error := "";
      if resp.error != Absent {
        if !resp.error.Text? {
          return Reported(InvalidError);
        }
        error := resp.error.message;
        if error == "" {
          error := "unspecified error";
        }
      }
      return Reported(Header(id, serviceMethod, error));
    }

    /** `fits` says which JSON values decode into the caller's reply. */
    method ReadResponseBody(wanted: bool, fits: Json -> bool) returns (body: Body)
      ensures body == if !wanted || resp.result == None then Untouched
                      else if fits(resp.result.value) then Stored(resp.result.value)
                      else Unfit
    {
      if !wanted || resp.result == None {
        return Untouched;
      }
      if !fits(resp.result.value) {
        return Unfit;
      }
      return Stored(resp.result.value);
    }
  }
}
