/** A channel of a socket as a byte stream (net/hub-netconn.go). Byte slices are strings of bytes. */
module NetConn {
  import opened Common

  const KILL := "kill"

  // ----- One connection -----

  /** The messages waiting in the channel, the unread rest of the current message, and whether the
      kill message has been seen. */
  datatype State = State(incoming: seq<string>, reader: Option<string>, terminated: bool)

  const FRESH := State([], None, false)

  /** The outcome of a Read: bytes (perhaps none), the error "Terminated", or blocking. */
  datatype Reading = Got(data: string) | Terminated | Blocked

  /** Reading from the current message; the read that finds it used up yields no bytes and no error. */
  function ReadCurrent(s: State, rest: string, size: nat): (Reading, State) {
    if rest == [] then (Got([]), s.(reader := None))
    else
      var n := if size <= |rest| then size else |rest|;
      (Got(rest[..n]), s.(reader := Some(rest[n..])))
  }

  function Read(s: State, size: nat): (Reading, State) {
    if s.terminated then (Terminated, s)
    else if s.reader.Some? then ReadCurrent(s, s.reader.value, size)
    else if s.incoming == [] then (Blocked, s)
    else if s.incoming[0] == KILL then (Terminated, s.(incoming := s.incoming[1..], terminated := true))
    else ReadCurrent(s.(incoming := s.incoming[1..]), s.incoming[0], size)
  }

  function Arrive(s: State, message: string): State {
    s.(incoming := s.incoming + [message])
  }

  /** The messages in front of the first kill. */
  function BeforeKill(messages: seq<string>): seq<string> {
    if messages == [] || messages[0] == KILL then [] else [messages[0]] + BeforeKill(messages[1..])
  }

  /** The bytes that can still be read. */
  function Unread(s: State): string {
    if s.terminated then []
    else (if s.reader.Some? then s.reader.value else []) + Flat(BeforeKill(s.incoming))
  }

  function BytesOf(r: Reading): string {
    if r.Got? then r.data else []
  }

  /** A read takes bytes off the front of what can be read; it fails or blocks only when there is
      nothing left, and blocks only when no kill is waiting. */
  lemma ReadTakesFromFront(s: State, size: nat)
    ensures var (got, s') := Read(s, size);
            && BytesOf(got) + Unread(s') == Unread(s)
            && (!got.Got? ==> Unread(s) == [])
            && (got.Got? && size > 0 && got.data == [] ==> s'.reader == None && !s'.terminated)
            && (got.Terminated? <==> s'.terminated)
  {
    if !s.terminated && s.reader.Some? {
      CurrentGivesFront(s, s.reader.value, size);
    } else if !s.terminated && s.incoming != [] && s.incoming[0] != KILL {
      CurrentGivesFront(s.(incoming := s.incoming[1..]), s.incoming[0], size);
      assert BeforeKill(s.incoming)[1..] == BeforeKill(s.incoming[1..]);
    }
  }

  lemma CurrentGivesFront(s: State, rest: string, size: nat)
    requires !s.terminated
    ensures var (got, s') := ReadCurrent(s, rest, size);
            && got.Got? && got.data + Unread(s') == rest + Flat(BeforeKill(s.incoming))
            && (size > 0 && got.data == [] ==> s'.reader == None)
  {
    if rest != [] {
      var n := if size <= |rest| then size else |rest|;
      assert rest == rest[..n] + rest[n..];
    }
  }

  lemma {:induction false} BeforeKillSnoc(messages: seq<string>, m: string)
    ensures BeforeKill(messages + [m])
            == if KILL in messages || m == KILL then BeforeKill(messages) else BeforeKill(messages) + [m]
  {
    if messages == [] {
      assert [m][1..] == [];
    } else {
      BeforeKillSnoc(messages[1..], m);
      assert (messages + [m])[1..] == messages[1..] + [m];
      assert messages == [messages[0]] + messages[1..];
    }
  }

  lemma ArrivalAddsAtEnd(s: State, message: string)
    ensures Unread(Arrive(s, message))
            == if s.terminated || KILL in s.incoming || message == KILL then Unread(s) else Unread(s) + message
  {
    BeforeKillSnoc(s.incoming, message);
    FlatSnoc(BeforeKill(s.incoming), message);
  }

  // ----- Runs of one connection -----

  datatype Event = Arrival(message: string) | Reads(size: nat)

  function Next(s: State, e: Event): State {
    match e
    case Arrival(message) => Arrive(s, message)
    case Reads(size) => Read(s, size).1
  }

  function After(events: seq<Event>): State {
    if events == [] then FRESH else Next(After(events[..|events| - 1]), events[|events| - 1])
  }

  function BytesRead(s: State, e: Event): string {
    match e
    case Arrival(_) => []
    case Reads(size) => BytesOf(Read(s, size).0)
  }

  /** All the bytes the reads of the run returned. */
  function Yielded(events: seq<Event>): string {
    if events == [] then []
    else
      var before, e := events[..|events| - 1], events[|events| - 1];
      Yielded(before) + BytesRead(After(before), e)
  }

  /** The messages that arrived, in order. */
  function Arrived(events: seq<Event>): seq<string> {
    if events == [] then []
    else
      var before, e := events[..|events| - 1], events[|events| - 1];
      if e.Arrival? then Arrived(before) + [e.message] else Arrived(before)
  }

  predicate KillSeen(s: State) {
    s.terminated || KILL in s.incoming
  }

  lemma KillAfterStep(s: State, e: Event)
    ensures KillSeen(Next(s, e)) <==> KillSeen(s) || e == Arrival(KILL)
  {
    if s.incoming != [] { assert s.incoming == [s.incoming[0]] + s.incoming[1..]; }
  }

  lemma {:induction false} KillIsSomewhere(events: seq<Event>)
    ensures KILL in Arrived(events) <==> KillSeen(After(events))
  {
    if events != [] {
      KillIsSomewhere(events[..|events| - 1]);
      KillAfterStep(After(events[..|events| - 1]), events[|events| - 1]);
    }
  }

  /** In every run, what was read followed by what can still be read is the concatenation of the
      messages that arrived before the first kill. */
  lemma {:induction false} StreamIsExact(events: seq<Event>)
    ensures Yielded(events) + Unread(After(events)) == Flat(BeforeKill(Arrived(events)))
  {
    if events != [] {
      var before, e := events[..|events| - 1], events[|events| - 1];
      StreamIsExact(before);
      if e.Arrival? {
        KillIsSomewhere(before);
        ArrivalIsExact(After(before), Arrived(before), Yielded(before), e.message);
      } else {
        ReadTakesFromFront(After(before), e.size);
      }
    }
  }

  lemma ArrivalIsExact(s: State, arrived: seq<string>, yielded: string, message: string)
    requires yielded + Unread(s) == Flat(BeforeKill(arrived))
    requires KILL in arrived <==> s.terminated || KILL in s.incoming
    ensures yielded + Unread(Arrive(s, message)) == Flat(BeforeKill(arrived + [message]))
  {
    ArrivalAddsAtEnd(s, message);
    BeforeKillSnoc(arrived, message);
    FlatSnoc(BeforeKill(arrived), message);
  }

  /** A read fails only after a kill arrived, and blocks only when none has. */
  lemma FailureMeansKilled(events: seq<Event>, size: nat)
    ensures var reading := Read(After(events), size).0;
            && (reading.Terminated? ==> "kill" in Arrived(events))
            && (reading.Blocked? ==> "kill" !in Arrived(events))
  {
    KillIsSomewhere(events);
  }

  /** A read that fails or blocks comes after every byte that arrived before the kill has been
      delivered; once one has failed, all later reads fail and deliver nothing. */
  lemma FailureIsFinal(events: seq<Event>, size: nat, later: seq<Event>)
    requires !Read(After(events), size).0.Got?
    ensures Yielded(events) == Flat(BeforeKill(Arrived(events)))
    ensures Read(After(events), size).0.Terminated? ==>
              var all := events + [Reads(size)] + later;
              After(all).terminated && Yielded(all) == Yielded(events)
              && forall n :: Read(After(all), n).0 == Terminated
  {
    StreamIsExact(events);
    ReadTakesFromFront(After(events), size);
    if Read(After(events), size).0.Terminated? {
      RunSnoc(events, Reads(size));
      StaysTerminated(events + [Reads(size)], later);
    }
  }

  lemma RunSnoc(events: seq<Event>, e: Event)
    ensures After(events + [e]) == Next(After(events), e)
    ensures Yielded(events + [e]) == Yielded(events) + BytesRead(After(events), e)
  {
    assert (events + [e])[..|events|] == events;
  }

  lemma {:induction false} StaysTerminated(events: seq<Event>, later: seq<Event>)
    requires After(events).terminated
    ensures After(events + later).terminated && Yielded(events + later) == Yielded(events)
    decreases |later|
  {
    if later == [] {
      assert events + later == events;
    } else {
      var shorter, e := later[..|later| - 1], later[|later| - 1];
      var all := events + shorter;
      assert events + later == all + [e];
      StaysTerminated(events, shorter);
      RunSnoc(all, e);
      NothingAfterTermination(After(all), e);
      assert Yielded(all) + [] == Yielded(all);
    }
  }

  lemma NothingAfterTermination(s: State, e: Event)
    requires s.terminated
    ensures Next(s, e).terminated && BytesRead(s, e) == []
  {
  }

  // ----- How many reads a message takes -----

  function CeilDiv(l: nat, b: nat): nat
    requires b > 0
  {
    (l + b - 1) / b
  }

  lemma CeilDivStep(l: nat, b: nat)
    requires b > 0
    ensures l == 0 ==> CeilDiv(l, b) == 0
    ensures 0 < l <= b ==> CeilDiv(l, b) == 1
    ensures l > b ==> CeilDiv(l, b) == 1 + CeilDiv(l - b, b)
  {
    if l > b {
      DivShift(l - 1, b);
    } else if l > 0 {
      DivShift(l - 1, b);
      DivSmall(l - 1, b);
    } else {
      DivSmall(b - 1, b);
    }
  }

  lemma DivSmall(x: nat, b: nat)
    requires x < b
    ensures x / b == 0
  {
  }

  lemma DivShift(x: nat, b: nat)
    requires b > 0
    ensures (x + b) / b == x / b + 1
  {
    var q, r := x / b, x % b;
    var q', r' := (x + b) / b, (x + b) % b;
    assert (q' - q - 1) * b == r - r' by { assert q' * b + r' == q * b + r + b; }
    var d := q' - q - 1;
    assert d >= 1 ==> d * b >= b;
    assert d <= -1 ==> (-d) * b >= b;
  }

  /** The bytes of `count` reads with the same buffer, and the state after them. */
  function ReadMany(s: State, size: nat, count: nat): (string, State)
    decreases count
  {
    if count == 0 then ([], s)
    else
      var (got, s') := Read(s, size);
      var (more, end) := ReadMany(s', size, count - 1);
      (BytesOf(got) + more, end)
  }

  lemma {:induction false} RestTakesReads(s: State, rest: string, size: nat, k: nat)
    requires size > 0 && !s.terminated && s.reader == Some(rest)
    ensures ReadMany(s, size, CeilDiv(|rest|, size) + 1) == (rest, s.(reader := None))
    ensures k <= CeilDiv(|rest|, size) ==>
              ReadMany(s, size, k).1.reader.Some? && !ReadMany(s, size, k).1.terminated
    decreases |rest|
  {
    CeilDivStep(|rest|, size);
    if rest == [] {
      assert ReadMany(s.(reader := None), size, 0) == ([], s.(reader := None));
    } else {
      var n := if size <= |rest| then size else |rest|;
      var s' := s.(reader := Some(rest[n..]));
      assert Read(s, size) == (Got(rest[..n]), s');
      RestTakesReads(s', rest[n..], size, if k > 0 then k - 1 else 0);
      CeilDivStep(0, size);
      assert rest == rest[..n] + rest[n..];
    }
  }

  /** With a buffer of `size` bytes a message of L bytes is consumed by exactly ceil(L / size) + 1
      reads: they deliver it whole, the last one yields nothing, and none before it finishes. */
  lemma MessageTakesReads(s: State, size: nat, k: nat)
    requires size > 0 && !s.terminated && s.reader == None && s.incoming != [] && s.incoming[0] != KILL
    ensures var m := s.incoming[0]; var count := CeilDiv(|m|, size);
            && ReadMany(s, size, count + 1) == (m, s.(incoming := s.incoming[1..]))
            && (0 < k <= count ==> ReadMany(s, size, k).1.reader.Some? && !ReadMany(s, size, k).1.terminated)
  {
    var m := s.incoming[0];
    var begun := s.(incoming := s.incoming[1..], reader := Some(m));
    assert Read(s, size) == Read(begun, size);
    RestTakesReads(begun, m, size, k);
  }

  lemma {:induction false} ReadManySplits(s: State, size: nat, a: nat, b: nat)
    ensures var (first, middle) := ReadMany(s, size, a); var (second, end) := ReadMany(middle, size, b);
            ReadMany(s, size, a + b) == (first + second, end)
    decreases a
  {
    if a == 0 {
      assert [] + ReadMany(s, size, b).0 == ReadMany(s, size, b).0;
    } else {
      var (got, s') := Read(s, size);
      ReadManySplits(s', size, a - 1, b);
      var first := ReadMany(s', size, a - 1).0;
      var second := ReadMany(ReadMany(s', size, a - 1).1, size, b).0;
      assert BytesOf(got) + (first + second) == (BytesOf(got) + first) + second;
    }
  }

  /** `n` reads in a row succeed, deliver `data` and end in `end`. */
  ghost predicate Delivers(s: State, size: nat, n: nat, data: string, end: State) {
    && ReadMany(s, size, n) == (data, end)
    && forall k :: 0 <= k < n ==> Read(ReadMany(s, size, k).1, size).0.Got?
  }

  lemma DeliversThen(s: State, size: nat, a: nat, x: string, middle: State, b: nat, y: string, end: State)
    requires Delivers(s, size, a, x, middle) && Delivers(middle, size, b, y, end)
    ensures Delivers(s, size, a + b, x + y, end)
  {
    ReadManySplits(s, size, a, b);
    forall k | 0 <= k < a + b ensures Read(ReadMany(s, size, k).1, size).0.Got? {
      if k >= a { ReadManySplits(s, size, a, k - a); }
    }
  }

  lemma RestIsDelivered(s: State, rest: string, size: nat)
    requires size > 0 && !s.terminated && s.reader == Some(rest)
    ensures Delivers(s, size, CeilDiv(|rest|, size) + 1, rest, s.(reader := None))
  {
    RestTakesReads(s, rest, size, 0);
    forall k | 0 <= k <= CeilDiv(|rest|, size) ensures Read(ReadMany(s, size, k).1, size).0.Got? {
      RestTakesReads(s, rest, size, k);
    }
  }

  lemma MessageIsDelivered(s: State, size: nat)
    requires size > 0 && !s.terminated && s.reader == None && s.incoming != [] && s.incoming[0] != KILL
    ensures var m := s.incoming[0];
            Delivers(s, size, CeilDiv(|m|, size) + 1, m, s.(incoming := s.incoming[1..]))
  {
    MessageTakesReads(s, size, 0);
    forall k | 0 <= k <= CeilDiv(|s.incoming[0]|, size) ensures Read(ReadMany(s, size, k).1, size).0.Got? {
      MessageTakesReads(s, size, k);
    }
  }

  /** The reads that take all of the messages. */
  function ReadsFor(messages: seq<string>, size: nat): nat
    requires size > 0
  {
    if messages == [] then 0 else CeilDiv(|messages[0]|, size) + 1 + ReadsFor(messages[1..], size)
  }

  /** The messages from the first kill on. */
  function FromKill(messages: seq<string>): seq<string> {
    if messages == [] || messages[0] == KILL then messages else FromKill(messages[1..])
  }

  lemma {:induction false} FromKillStarts(messages: seq<string>)
    ensures FromKill(messages) == [] <==> KILL !in messages
    ensures FromKill(messages) != [] ==> FromKill(messages)[0] == KILL
  {
    if messages != [] {
      FromKillStarts(messages[1..]);
      assert messages == [messages[0]] + messages[1..];
    }
  }

  lemma {:induction false} MessagesAreDelivered(s: State, size: nat)
    requires size > 0 && !s.terminated && s.reader == None
    ensures var messages := BeforeKill(s.incoming);
            Delivers(s, size, ReadsFor(messages, size), Flat(messages), State(FromKill(s.incoming), None, false))
    decreases |s.incoming|
  {
    if s.incoming == [] || s.incoming[0] == KILL {
      assert s == State(FromKill(s.incoming), None, false);
    } else {
      var m, s' := s.incoming[0], s.(incoming := s.incoming[1..]);
      var later, end := BeforeKill(s'.incoming), State(FromKill(s.incoming), None, false);
      MessageIsDelivered(s, size);
      MessagesAreDelivered(s', size);
      DeliversThen(s, size, CeilDiv(|m|, size) + 1, m, s', ReadsFor(later, size), Flat(later), end);
      assert BeforeKill(s.incoming)[1..] == later;
    }
  }

  /** The reads that take all there is. */
  function ReadsLeft(s: State, size: nat): nat
    requires size > 0
  {
    if s.terminated then 0
    else (if s.reader.Some? then CeilDiv(|s.reader.value|, size) + 1 else 0) + ReadsFor(BeforeKill(s.incoming), size)
  }

  lemma AllIsDelivered(s: State, size: nat)
    requires size > 0 && !s.terminated
    ensures Delivers(s, size, ReadsLeft(s, size), Unread(s), State(FromKill(s.incoming), None, false))
  {
    if s.reader == None {
      MessagesAreDelivered(s, size);
      NothingInFront(Flat(BeforeKill(s.incoming)));
    } else {
      RestThenMessages(s, s.reader.value, size);
    }
  }

  lemma NothingInFront(s: string)
    ensures [] + s == s
  {
  }

  lemma RestThenMessages(s: State, rest: string, size: nat)
    requires size > 0 && !s.terminated && s.reader == Some(rest)
    ensures var messages := BeforeKill(s.incoming);
            Delivers(s, size, CeilDiv(|rest|, size) + 1 + ReadsFor(messages, size), rest + Flat(messages),
              State(FromKill(s.incoming), None, false))
  {
    var s', messages := s.(reader := None), BeforeKill(s.incoming);
    RestIsDelivered(s, rest, size);
    MessagesAreDelivered(s', size);
    DeliversThen(s, size, CeilDiv(|rest|, size) + 1, rest, s', ReadsFor(messages, size), Flat(messages),
                 State(FromKill(s.incoming), None, false));
  }

  /** How a connection ends: reads with a buffer of `size` bytes succeed exactly ReadsLeft times and deliver
      all there is; the next one fails if a kill has arrived, and blocks if none has. */
  lemma EndComesAfterTheReads(events: seq<Event>, size: nat)
    requires size > 0 && !After(events).terminated
    ensures var n := ReadsLeft(After(events), size); var (rest, end) := ReadMany(After(events), size, n);
            && Yielded(events) + rest == Flat(BeforeKill(Arrived(events)))
            && (forall k :: 0 <= k < n ==> Read(ReadMany(After(events), size, k).1, size).0.Got?)
            && Read(end, size).0 == (if "kill" in Arrived(events) then Terminated else Blocked)
  {
    StreamIsExact(events);
    KillIsSomewhere(events);
    AllIsDelivered(After(events), size);
    FromKillStarts(After(events).incoming);
  }

  // ----- Reads are conserved -----

  /** The number of reads of a run that succeeded. */
  function ReadsDone(events: seq<Event>): nat {
    if events == [] then 0
    else
      var before, e := events[..|events| - 1], events[|events| - 1];
      ReadsDone(before) + (if e.Reads? && Read(After(before), e.size).0.Got? then 1 else 0)
  }

  predicate AllReadsOf(events: seq<Event>, size: nat) {
    forall i :: 0 <= i < |events| && events[i].Reads? ==> events[i].size == size
  }

  lemma ReadUsesOne(s: State, size: nat)
    requires size > 0
    ensures var (got, s') := Read(s, size);
            ReadsLeft(s', size) == ReadsLeft(s, size) - if got.Got? then 1 else 0
  {
    if !s.terminated {
      if s.reader.Some? {
        CurrentUsesOne(s, s.reader.value, size);
      } else if s.incoming != [] && s.incoming[0] != KILL {
        CurrentUsesOne(s.(incoming := s.incoming[1..]), s.incoming[0], size);
        assert BeforeKill(s.incoming)[1..] == BeforeKill(s.incoming[1..]);
      }
    }
  }

  lemma CurrentUsesOne(s: State, rest: string, size: nat)
    requires size > 0 && !s.terminated
    ensures ReadsLeft(ReadCurrent(s, rest, size).1, size)
            == CeilDiv(|rest|, size) + ReadsFor(BeforeKill(s.incoming), size)
  {
    CeilDivStep(|rest|, size);
    CeilDivStep(0, size);
  }

  lemma {:induction false} ReadsForSnoc(messages: seq<string>, m: string, size: nat)
    requires size > 0
    ensures ReadsFor(messages + [m], size) == ReadsFor(messages, size) + CeilDiv(|m|, size) + 1
  {
    if messages == [] {
      assert [m][1..] == [];
    } else {
      ReadsForSnoc(messages[1..], m, size);
      assert (messages + [m])[1..] == messages[1..] + [m];
    }
  }

  lemma ArrivalNeedsReads(s: State, arrived: seq<string>, message: string, size: nat)
    requires size > 0 && (KILL in arrived <==> KillSeen(s))
    ensures ReadsLeft(Arrive(s, message), size) - ReadsLeft(s, size)
            == ReadsFor(BeforeKill(arrived + [message]), size) - ReadsFor(BeforeKill(arrived), size)
  {
    BeforeKillSnoc(arrived, message);
    BeforeKillSnoc(s.incoming, message);
    ReadsForSnoc(BeforeKill(arrived), message, size);
    ReadsForSnoc(BeforeKill(s.incoming), message, size);
  }

  /** In any run whose reads all use a buffer of `size` bytes, those that succeeded and those still to
      succeed are together what the messages before the first kill take, the empty ones included. */
  lemma {:induction false} ReadsAddUp(events: seq<Event>, size: nat)
    requires size > 0 && AllReadsOf(events, size)
    ensures ReadsDone(events) + ReadsLeft(After(events), size) == ReadsFor(BeforeKill(Arrived(events)), size)
  {
    if events != [] {
      var before, e := events[..|events| - 1], events[|events| - 1];
      ReadsAddUp(before, size);
      if e.Arrival? {
        KillIsSomewhere(before);
        ArrivalNeedsReads(After(before), Arrived(before), e.message, size);
      } else {
        ReadUsesOne(After(before), size);
      }
    }
  }

  // ----- The object -----

  class Conn {
    var incoming: seq<string>
    var reader: Option<string>
    var terminated: bool

    constructor ()
      ensures View() == FRESH
    {
      incoming, reader, terminated := [], None, false;
    }

    ghost function View(): State
      reads this
    {
      State(incoming, reader, terminated)
    }

    /** The listener on the channel's event. */
    method Listen(message: string)
      modifies this
      ensures View() == Arrive(old(View()), message)
    {
      incoming := incoming + [message];
    }

    method Receive(size: nat) returns (reading: Reading)
      modifies this
      ensures (reading, View()) == Read(old(View()), size)
    {
      if terminated {
        return Terminated;
      }
      if reader == None {
        if incoming == [] {
          return Blocked;
        }
        var r := incoming[0];
        incoming := incoming[1..];
        if r == KILL {
          terminated := true;
          return Terminated;
        }
        reader := Some(r);
      }
      var rest := reader.value;
      if rest == [] {
        reader := None;
        return Got([]);
      }
      var n := if size <= |rest| then size else |rest|;
      reader := Some(rest[n..]);
      return Got(rest[..n]);
    }
  }
}
