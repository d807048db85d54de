/** Failure-aware result types and the two sequence helpers shared by all the components. */
module Common {

  datatype Option<+T> = None | Some(value: T)

  datatype Result<+T, +E> = Ok(value: T) | Err(error: E)

  /** The concatenation of all the pieces, in order. */
  function Flat<T>(pieces: seq<seq<T>>): seq<T> {
    if pieces == [] then [] else pieces[0] + Flat(pieces[1..])
  }

  lemma {:induction false} FlatConcat<T>(a: seq<seq<T>>, b: seq<seq<T>>)
    ensures Flat(a + b) == Flat(a) + Flat(b)
  {
    if a == [] {
      assert a + b == b;
    } else {
      calc {
        Flat(a + b);
      ==  { assert (a + b)[0] == a[0] && (a + b)[1..] == a[1..] + b; }
        a[0] + Flat(a[1..] + b);
      ==  { FlatConcat(a[1..], b); }
        a[0] + (Flat(a[1..]) + Flat(b));
      ==
        Flat(a) + Flat(b);
      }
    }
  }

  lemma FlatSnoc<T>(a: seq<seq<T>>, piece: seq<T>)
    ensures Flat(a + [piece]) == Flat(a) + piece
  {
    FlatConcat(a, [piece]);
  }

  lemma FlatSplit<T>(a: seq<seq<T>>, k: nat)
    requires k <= |a|
    ensures Flat(a) == Flat(a[..k]) + Flat(a[k..])
  {
    assert a[..k] + a[k..] == a;
    FlatConcat(a[..k], a[k..]);
  }

  lemma SnocParts<T>(a: seq<T>, x: T)
    ensures |a + [x]| == |a| + 1 && (a + [x])[..|a|] == a && (a + [x])[|a|] == x
  {
  }

  lemma SnocPrefix<T>(a: seq<T>, x: T, i: nat)
    requires i <= |a|
    ensures (a + [x])[..i] == a[..i]
  {
  }

  /** The position of the first `c` in `s`, or -1 when there is none. */
  function Index(s: string, c: char): (i: int)
    ensures -1 <= i < |s|
    ensures i < 0 <==> c !in s
    ensures i >= 0 ==> s[i] == c && c !in s[..i]
  {
    if s == [] then -1
    else if s[0] == c then 0
    else
      var j := Index(s[1..], c);
      assert j >= 0 ==> s[..j + 1] == [s[0]] + s[1..][..j];
      if j < 0 then -1 else j + 1
  }

  /** `Index` is the only position with these properties. */
  lemma IndexIs(s: string, c: char, k: nat)
    requires k < |s| && s[k] == c && c !in s[..k]
    ensures Index(s, c) == k
  {
    var i := Index(s, c);
    assert forall j | 0 <= j < k :: s[j] in s[..k];
    assert forall j | 0 <= j < i :: s[j] in s[..i];
  }
}
