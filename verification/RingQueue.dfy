/** The ring-buffer queue (utils/queue.go): a power-of-two buffer, indexed with a bit mask, that
    doubles when full and halves when a quarter full. */
module RingQueue {
  import opened Common

  const MIN_QUEUE_LEN: nat := 16

  // ----- Powers of two and the bit mask -----

  predicate IsPow2(n: nat) {
    n == 1 || (n > 1 && n % 2 == 0 && IsPow2(n / 2))
  }

  /** Bitwise conjunction of two non-negative integers. */
  function And(x: nat, y: nat): nat {
    if x == 0 || y == 0 then 0
    else 2 * And(x / 2, y / 2) + (if x % 2 == 1 && y % 2 == 1 then 1 else 0)
  }

  lemma HalfOfModulus(x: nat, m: nat)
    requires m > 0
    ensures x % (2 * m) == 2 * ((x / 2) % m) + x % 2
  {
    var q, r := (x / 2) / m, (x / 2) % m;
    assert x / 2 == q * m + r;
    var rem := 2 * r + x % 2;
    assert x == q * (2 * m) + rem by { assert q * (2 * m) == 2 * (q * m); }
    RemainderIs(x, 2 * m, q, rem);
  }

  lemma RemainderIs(x: nat, d: nat, q: nat, rem: nat)
    requires d > 0 && rem < d && x == q * d + rem
    ensures x % d == rem
  {
    var k: int := x / d - q;
    assert k * d == rem - x % d by { assert k * d == (x / d) * d - q * d; }
    SmallMultipleIsZero(k, d);
  }

  lemma SmallMultipleIsZero(k: int, d: int)
    requires -d < k * d < d
    ensures k == 0
  {
    assert k >= 1 ==> k * d >= d;
    assert k <= -1 ==> (-k) * d >= d;
  }

  /** Masking with a power of two less one is the remainder. */
  lemma {:induction false} MaskIsModulus(x: nat, n: nat)
    requires IsPow2(n)
    ensures And(x, n - 1) == x % n
    decreases n
  {
    if n > 1 {
      var m := n / 2;
      assert n == 2 * m;
      MaskIsModulus(x / 2, m);
      HalfOfModulus(x, m);
      assert (n - 1) / 2 == m - 1 && (n - 1) % 2 == 1;
      if x == 0 || m == 1 { assert And(x / 2, m - 1) == 0; }
    }
  }

  /** The slot of a position that is at most one turn ahead. */
  function Slot(x: nat, n: nat): (k: nat)
    requires x < 2 * n
    ensures k < n
  {
    if x < n then x else x - n
  }

  lemma MaskIsSlot(x: nat, n: nat)
    requires IsPow2(n) && x < 2 * n
    ensures And(x, n - 1) == Slot(x, n)
  {
    MaskIsModulus(x, n);
    RemainderIs(x, n, if x < n then 0 else 1, Slot(x, n));
  }

  // ----- The live window of a buffer -----

  /** The element `i` places after `head`, going round the end of the buffer. */
  function At<T>(buf: seq<T>, head: nat, i: nat): T
    requires head < |buf| && i <= |buf|
  {
    buf[Slot(head + i, |buf|)]
  }

  /** The `count` elements met from `head` on. */
  function Window<T>(buf: seq<T>, head: nat, count: nat): (w: seq<T>)
    requires head < |buf| && count <= |buf|
    ensures |w| == count
    ensures forall i :: 0 <= i < count ==> w[i] == At(buf, head, i)
  {
    seq(count, i requires 0 <= i < count => At(buf, head, i))
  }

  /** Every slot outside the window is nil. */
  predicate CleanOutside<T(==)>(buf: seq<Option<T>>, head: nat, count: nat)
    requires head < |buf| && count <= |buf|
  {
    forall i :: count <= i < |buf| ==> At(buf, head, i) == None
  }

  lemma WindowInOnePiece<T>(buf: seq<T>, head: nat, count: nat)
    requires head < |buf| && head + count <= |buf|
    ensures Window(buf, head, count) == buf[head..head + count]
  {
  }

  lemma WindowInTwoPieces<T>(buf: seq<T>, head: nat, count: nat)
    requires head < |buf| <= head + count && count <= |buf|
    ensures Window(buf, head, count) == buf[head..] + buf[..head + count - |buf|]
  {
  }

  lemma WindowGrows<T>(buf: seq<Option<T>>, head: nat, count: nat, x: Option<T>)
    requires head < |buf| && count < |buf| && CleanOutside(buf, head, count)
    ensures var buf' := buf[Slot(head + count, |buf|) := x];
            && Window(buf', head, count + 1) == Window(buf, head, count) + [x]
            && CleanOutside(buf', head, count + 1)
  {
    var buf' := buf[Slot(head + count, |buf|) := x];
    assert forall i | 0 <= i < |buf| && i != count :: At(buf', head, i) == At(buf, head, i);
    assert At(buf', head, count) == x;
  }

  lemma WindowShrinks<T>(buf: seq<Option<T>>, head: nat, count: nat)
    requires head < |buf| && 0 < count <= |buf| && CleanOutside(buf, head, count)
    ensures var buf' := buf[head := None]; var head' := Slot(head + 1, |buf|);
            && Window(buf', head', count - 1) == Window(buf, head, count)[1..]
            && CleanOutside(buf', head', count - 1)
  {
    var buf' := buf[head := None];
    var head' := Slot(head + 1, |buf|);
    assert forall i | 0 <= i < |buf| - 1 :: At(buf', head', i) == At(buf, head, i + 1);
    assert At(buf', head', |buf| - 1) == None;
  }

  // ----- Capacity and cost, without the contents -----

  /** The capacity and the number of elements. */
  datatype Shape = Shape(len: nat, count: nat)

  const INITIAL := Shape(MIN_QUEUE_LEN, 0)

  datatype Op = Add | Remove

  /** The shape after an operation; a Remove of an empty queue panics and changes nothing. */
  function ShapeAfter(s: Shape, op: Op): Shape {
    match op
    case Add => Shape(if s.count == s.len then 2 * s.count else s.len, s.count + 1)
    case Remove =>
      if s.count == 0 then s
      else
        var left := s.count - 1;
        Shape(if s.len > MIN_QUEUE_LEN && 4 * left == s.len then 2 * left else s.len, left)
  }

  /** The number of elements that resizing copies during an operation. */
  function Copies(s: Shape, op: Op): nat {
    if ShapeAfter(s, op).len == s.len then 0
    else if op.Add? then s.count else s.count - 1
  }

  /** At least the minimum, a power of two, and never less than a quarter full when larger. */
  predicate Fits(s: Shape) {
    IsPow2(s.len) && s.len >= MIN_QUEUE_LEN && s.count <= s.len && (s.len == MIN_QUEUE_LEN || s.len < 4 * s.count)
  }

  lemma Pow2AtLeast32(n: nat)
    requires IsPow2(n) && n > MIN_QUEUE_LEN
    ensures n >= 32 && n % 4 == 0 && IsPow2(n / 2)
  {
    var m := n / 2;
    assert n == 2 * m && m > 8;
    var p := m / 2;
    assert m == 2 * p && p > 4 && IsPow2(p);
    var q := p / 2;
    assert p == 2 * q && q > 2 && IsPow2(q);
    var r := q / 2;
    assert q == 2 * r && r > 1;
  }

  lemma Pow2Doubles(n: nat)
    requires IsPow2(n)
    ensures IsPow2(2 * n)
  {
    assert 2 * n / 2 == n;
  }

  lemma AddFits(s: Shape)
    requires Fits(s)
    ensures Fits(ShapeAfter(s, Add))
  {
    Pow2Doubles(s.len);
  }

  lemma RemoveFits(s: Shape)
    requires Fits(s)
    ensures Fits(ShapeAfter(s, Remove))
  {
    if s.len > MIN_QUEUE_LEN && s.count > 0 {
      Pow2AtLeast32(s.len);
      QuarterOrMore(s.len, s.count - 1);
    }
  }

  lemma QuarterOrMore(len: nat, left: nat)
    requires len % 4 == 0 && len < 4 * (left + 1)
    ensures 4 * left == len ==> 2 * left == len / 2
    ensures 4 * left != len ==> len < 4 * left
  {
  }

  /** Every operation keeps the bounds; the capacity is bounded by four times the contents. */
  lemma StepFits(s: Shape, op: Op)
    requires Fits(s)
    ensures Fits(ShapeAfter(s, op))
  {
    if op.Add? { AddFits(s); } else { RemoveFits(s); }
  }

  function RunShape(ops: seq<Op>): Shape {
    if ops == [] then INITIAL else ShapeAfter(RunShape(ops[..|ops| - 1]), ops[|ops| - 1])
  }

  function TotalCopies(ops: seq<Op>): nat {
    if ops == [] then 0
    else TotalCopies(ops[..|ops| - 1]) + Copies(RunShape(ops[..|ops| - 1]), ops[|ops| - 1])
  }

  function CountOf(ops: seq<Op>, op: Op): nat {
    if ops == [] then 0 else CountOf(ops[..|ops| - 1], op) + (if ops[|ops| - 1] == op then 1 else 0)
  }

  /** Copying already paid for: what the next resize will cost, in either direction. */
  function Credit(s: Shape): int {
    if 2 * s.count >= s.len then 2 * s.count - s.len
    else if s.len > MIN_QUEUE_LEN then s.len / 2 - s.count
    else 0
  }

  lemma StepPaysForItself(s: Shape, op: Op)
    requires Fits(s)
    ensures Copies(s, op) + Credit(ShapeAfter(s, op)) <= Credit(s) + (if op.Add? then 2 else 1)
  {
    if s.len > MIN_QUEUE_LEN { Pow2AtLeast32(s.len); }
  }

  /** Space: after every run the buffer is minimal or less than four times its contents. Time: all
      the resizes together have copied at most two elements per Add and one per Remove. */
  lemma {:induction false} RunIsCheap(ops: seq<Op>)
    ensures Fits(RunShape(ops))
    ensures TotalCopies(ops) + Credit(RunShape(ops)) <= 2 * CountOf(ops, Add) + CountOf(ops, Remove)
    ensures Credit(RunShape(ops)) >= 0
  {
    if ops != [] {
      var before, op := ops[..|ops| - 1], ops[|ops| - 1];
      RunIsCheap(before);
      StepFits(RunShape(before), op);
      StepPaysForItself(RunShape(before), op);
    } else {
      assert IsPow2(8);
    }
  }

  /** A shrinking Remove never leaves an empty queue behind, so resize never meets one. */
  lemma ResizeNeverEmpty(s: Shape, op: Op)
    requires Fits(s) && ShapeAfter(s, op).len != s.len
    ensures s.count > 0 && ShapeAfter(s, op).count > 0 && ShapeAfter(s, op).len >= MIN_QUEUE_LEN
  {
    if s.len > MIN_QUEUE_LEN { Pow2AtLeast32(s.len); }
  }

  // ----- The object -----

  /** The result of an operation that panics on a bad call. */
  datatype Outcome<+T> = Value(value: T) | Panic

  class Queue<T(==)> {
    var buf: array<Option<T>>
    var head: nat
    var tail: nat
    var count: nat
    ghost var copied: nat   // elements copied by all the resizes so far

    ghost predicate Valid()
      reads this, buf
    {
      && Fits(CurrentShape())
      && head < buf.Length && tail == Slot(head + count, buf.Length)
      && CleanOutside(buf[..], head, count)
    }

    ghost function CurrentShape(): Shape
      reads this
    {
      Shape(buf.Length, count)
    }

    ghost function Contents(): seq<Option<T>>
      reads this, buf
      requires Valid()
    {
      Window(buf[..], head, count)
    }

    constructor ()
      ensures Valid() && Contents() == [] && CurrentShape() == INITIAL && copied == 0 && fresh(buf)
    {
      buf := new Option<T>[MIN_QUEUE_LEN](_ => None);
      head, tail, count := 0, 0, 0;
      copied := 0;
      new;
      assert IsPow2(8);
    }

    method Length() returns (n: nat)
      requires Valid()
      ensures n == |Contents()|
    {
      n := count;
    }

    method IsEmpty() returns (empty: bool)
      requires Valid()
      ensures empty <==> Contents() == []
    {
      empty := count <= 0;
    }

    /** Moves the contents to the front of a buffer of twice their number. */
    method Resize()
      requires head < buf.Length && 0 < count <= buf.Length && tail == Slot(head + count, buf.Length)
      modifies this
      ensures buf.Length == 2 * count && fresh(buf) && count == old(count)
      ensures head == 0 && tail == count && copied == old(copied) + count
      ensures Window(buf[..], 0, count) == old(Window(buf[..], head, count))
      ensures CleanOutside(buf[..], 0, count)
    {
      ghost var window := Window(buf[..], head, count);
      var newBuf := new Option<T>[2 * count](_ => None);
      if tail > head {
        WindowInOnePiece(buf[..], head, count);
        CopyInto(newBuf, 0, buf, head, tail);
      } else {
        WindowInTwoPieces(buf[..], head, count);
        CopyTwoPieces(newBuf, buf, head, tail);
      }
      FrontIsWindow(newBuf[..], window);
      head := 0;
      tail := count;
      buf := newBuf;
      copied := copied + count;
    }

    method Add(elem: Option<T>)
      requires Valid()
      modifies this, buf
      ensures Valid() && (buf == old(buf) || fresh(buf))
      ensures Contents() == old(Contents()) + [elem]
      ensures CurrentShape() == ShapeAfter(old(CurrentShape()), Op.Add)
      ensures copied == old(copied) + Copies(old(CurrentShape()), Op.Add)
    {
      StepFits(CurrentShape(), Op.Add);
      if count == buf.Length {
        Resize();
      }
      FillTail(elem);
    }

    /** The part of Add after the resize: the tail slot is filled and passed. */
    method FillTail(elem: Option<T>)
      requires IsPow2(buf.Length) && head < buf.Length && count < buf.Length && tail == Slot(head + count, buf.Length)
      requires CleanOutside(buf[..], head, count)
      modifies this`tail, this`count, buf
      ensures count == old(count) + 1 && tail == Slot(head + count, buf.Length)
      ensures CleanOutside(buf[..], head, count)
      ensures Window(buf[..], head, count) == old(Window(buf[..], head, count)) + [elem]
    {
      WindowGrows(buf[..], head, count, elem);
      MaskIsSlot(tail + 1, buf.Length);
      buf[tail] := elem;
      tail := And(tail + 1, buf.Length - 1);
      count := count + 1;
    }

    /** Panics exactly on an empty queue. */
    method Peek() returns (elem: Outcome<Option<T>>)
      requires Valid()
      ensures elem == if Contents() == [] then Panic else Value(Contents()[0])
    {
      if count <= 0 {
        return Panic;
      }
      assert Contents()[0] == At(buf[..], head, 0);
      return Value(buf[head]);
    }

    /** Index `i` counts from the front, or from the back when negative; panics outside both ranges. */
    method Get(i: int) returns (elem: Outcome<Option<T>>)
      requires Valid()
      ensures elem == var n := |Contents()|;
                      if 0 <= i < n then Value(Contents()[i])
                      else if -n <= i < 0 then Value(Contents()[n + i])
                      else Panic
    {
      var k := i;
      if k < 0 {
        k := k + count;
      }
      if k < 0 || k >= count {
        return Panic;
      }
      MaskIsSlot(head + k, buf.Length);
      assert Contents()[k] == At(buf[..], head, k);
      return Value(buf[And(head + k, buf.Length - 1)]);
    }

    /** Panics, changing nothing, exactly on an empty queue. */
    method Remove() returns (elem: Outcome<Option<T>>)
      requires Valid()
      modifies this, buf
      ensures Valid() && (buf == old(buf) || fresh(buf))
      ensures old(Contents()) == [] ==> elem == Panic && Contents() == []
      ensures old(Contents()) != [] ==> elem == Value(old(Contents())[0]) && Contents() == old(Contents())[1..]
      ensures CurrentShape() == ShapeAfter(old(CurrentShape()), Op.Remove)
      ensures copied == old(copied) + Copies(old(CurrentShape()), Op.Remove)
    {
      if count <= 0 {
        return Panic;
      }
      StepFits(CurrentShape(), Op.Remove);
      assert Contents()[0] == At(buf[..], head, 0);
      elem := Value(buf[head]);
      ClearHead();
      if buf.Length > MIN_QUEUE_LEN && 4 * count == buf.Length {
        Resize();
      }
    }

    /** The part of Remove before the resize: the head slot is cleared and passed. */
    method ClearHead()
      requires Valid() && count > 0
      modifies this, buf
      ensures buf == old(buf) && count == old(count) - 1 && copied == old(copied)
      ensures head < buf.Length && tail == Slot(head + count, buf.Length) && CleanOutside(buf[..], head, count)
      ensures Window(buf[..], head, count) == old(Contents())[1..]
    {
      WindowShrinks(buf[..], head, count);
      MaskIsSlot(head + 1, buf.Length);
      buf[head] := None;
      head := And(head + 1, buf.Length - 1);
      count := count - 1;
    }
  }

  // ----- The object over a log of operations -----

  datatype Command<+T> = Put(elem: Option<T>) | Take

  function OpOf<T>(c: Command<T>): Op {
    if c.Put? then Add else Remove
  }

  function OpsOf<T>(log: seq<Command<T>>): seq<Op> {
    if log == [] then [] else OpsOf(log[..|log| - 1]) + [OpOf(log[|log| - 1])]
  }

  /** The contents after the log, as a plain sequence. */
  function ContentsAfter<T>(log: seq<Command<T>>): seq<Option<T>> {
    if log == [] then []
    else
      var before, c := ContentsAfter(log[..|log| - 1]), log[|log| - 1];
      if c.Put? then before + [c.elem] else if before == [] then [] else before[1..]
  }

  /** The elements added, and the elements removed by the Removes that did not panic. */
  function Added<T>(log: seq<Command<T>>): seq<Option<T>> {
    if log == [] then []
    else Added(log[..|log| - 1]) + (if log[|log| - 1].Put? then [log[|log| - 1].elem] else [])
  }

  function Removed<T>(log: seq<Command<T>>): seq<Option<T>> {
    if log == [] then []
    else
      var before := log[..|log| - 1];
      Removed(before) + (if log[|log| - 1].Take? && ContentsAfter(before) != [] then [ContentsAfter(before)[0]] else [])
  }

  /** First in, first out: the elements removed, followed by the contents, are those added. */
  lemma {:induction false} FirstInFirstOut<T>(log: seq<Command<T>>)
    ensures Removed(log) + ContentsAfter(log) == Added(log)
  {
    if log != [] {
      var before := log[..|log| - 1];
      FirstInFirstOut(before);
      var contents := ContentsAfter(before);
      if contents != [] { assert contents == [contents[0]] + contents[1..]; }
    }
  }

  lemma LogGrows<T>(log: seq<Command<T>>, i: nat)
    requires i < |log|
    ensures var before, c := log[..i], log[i];
            && OpsOf(log[..i + 1]) == OpsOf(before) + [OpOf(c)]
            && RunShape(OpsOf(log[..i + 1])) == ShapeAfter(RunShape(OpsOf(before)), OpOf(c))
            && TotalCopies(OpsOf(log[..i + 1]))
               == TotalCopies(OpsOf(before)) + Copies(RunShape(OpsOf(before)), OpOf(c))
  {
    assert log[..i + 1][..i] == log[..i];
    var ops := OpsOf(log[..i + 1]);
    assert ops[..|ops| - 1] == OpsOf(log[..i]);
  }

  lemma ContentsGrow<T>(log: seq<Command<T>>, i: nat)
    requires i < |log|
    ensures var contents, c := ContentsAfter(log[..i]), log[i];
            && ContentsAfter(log[..i + 1])
               == (if c.Put? then contents + [c.elem] else if contents == [] then [] else contents[1..])
            && Removed(log[..i + 1])
               == Removed(log[..i]) + (if c.Take? && contents != [] then [contents[0]] else [])
  {
    assert log[..i + 1][..i] == log[..i];
  }

  /** One operation on the object, with what it hands out. */
  method Perform<T>(q: Queue<T>, c: Command<T>) returns (got: seq<Option<T>>)
    requires q.Valid()
    modifies q, q.buf
    ensures q.Valid() && (q.buf == old(q.buf) || fresh(q.buf))
    ensures q.CurrentShape() == ShapeAfter(old(q.CurrentShape()), OpOf(c))
    ensures q.copied == old(q.copied) + Copies(old(q.CurrentShape()), OpOf(c))
    ensures c.Put? ==> q.Contents() == old(q.Contents()) + [c.elem] && got == []
    ensures c.Take? && old(q.Contents()) == [] ==> q.Contents() == [] && got == []
    ensures c.Take? && old(q.Contents()) != [] ==>
              q.Contents() == old(q.Contents())[1..] && got == [old(q.Contents())[0]]
  {
    got := [];
    if c.Put? {
      q.Add(c.elem);
    } else {
      var elem := q.Remove();
      if elem.Value? {
        got := [elem.value];
      }
    }
  }

  /** The object is where the first `i` operations of the log lead. */
  ghost predicate Follows<T>(q: Queue<T>, log: seq<Command<T>>, i: nat)
    requires i <= |log|
    reads q, q.buf
  {
    && q.Valid() && q.Contents() == ContentsAfter(log[..i])
    && q.CurrentShape() == RunShape(OpsOf(log[..i])) && q.copied == TotalCopies(OpsOf(log[..i]))
  }

  method Round<T>(q: Queue<T>, log: seq<Command<T>>, i: nat) returns (got: seq<Option<T>>)
    requires i < |log| && Follows(q, log, i)
    modifies q, q.buf
    ensures Follows(q, log, i + 1) && (q.buf == old(q.buf) || fresh(q.buf))
    ensures Removed(log[..i + 1]) == Removed(log[..i]) + got
  {
    LogGrows(log, i);
    ContentsGrow(log, i);
    got := Perform(q, log[i]);
  }

  /** A new queue that serves any log holds what the plain sequence holds, has handed out its elements
      in order, stays within the space bound, and has copied no more than the amortised bound. */
  method Serve<T>(log: seq<Command<T>>) returns (q: Queue<T>, removed: seq<Option<T>>)
    ensures fresh(q) && fresh(q.buf) && q.Valid()
    ensures q.Contents() == ContentsAfter(log) && removed == Removed(log)
    ensures q.buf.Length == 16 || q.buf.Length < 4 * |q.Contents()|
    ensures q.copied <= 2 * CountOf(OpsOf(log), Add) + CountOf(OpsOf(log), Remove)
  {
    q := new Queue();
    removed := [];
    for i := 0 to |log|
      invariant fresh(q) && fresh(q.buf) && Follows(q, log, i) && removed == Removed(log[..i])
    {
      var got := Round(q, log, i);
      removed := removed + got;
    }
    assert log[..|log|] == log;
    RunIsCheap(OpsOf(log));
  }

  lemma FrontIsWindow<T>(buf: seq<Option<T>>, window: seq<Option<T>>)
    requires 0 < |window| < |buf| && buf[..|window|] == window
    requires forall i :: |window| <= i < |buf| ==> buf[i] == None
    ensures Window(buf, 0, |window|) == window && CleanOutside(buf, 0, |window|)
  {
  }

  /** Both parts of a window that goes round the end of `src`, to the front of `dst`. */
  method CopyTwoPieces<T(==)>(dst: array<Option<T>>, src: array<Option<T>>, head: nat, tail: nat)
    requires dst != src && tail <= head < src.Length && src.Length - head + tail <= dst.Length
    modifies dst
    ensures dst[..src.Length - head + tail] == src[head..] + src[..tail]
    ensures forall i :: src.Length - head + tail <= i < dst.Length ==> dst[i] == old(dst[i])
  {
    CopyInto(dst, 0, src, head, src.Length);
    CopyInto(dst, src.Length - head, src, 0, tail);
  }

  /** `copy(dst[at:], src[lo:hi])` where it all fits. */
  method CopyInto<E>(dst: array<E>, at: nat, src: array<E>, lo: nat, hi: nat)
    requires dst != src && lo <= hi <= src.Length && at + (hi - lo) <= dst.Length
    modifies dst
    ensures dst[..] == old(dst[..at]) + src[lo..hi] + old(dst[at + (hi - lo)..])
    ensures src[..] == old(src[..])
  {
    for i := 0 to hi - lo
      invariant dst[..] == old(dst[..at]) + src[lo..lo + i] + old(dst[at + i..])
    {
      dst[at + i] := src[lo + i];
      assert src[lo..lo + i + 1] == src[lo..lo + i] + [src[lo + i]];
    }
  }
}
