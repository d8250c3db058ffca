/** The parts of Python's list semantics the route helper relies on: subscripting
    and `pop` with negative indices, `insert` with its clamping of out-of-range
    positions, and the exceptions that escape from them. */
module PyList {

  /** The exceptions that can escape from the route helper. */
  datatype PyError =
    | IndexError         // a subscript or pop outside the list
    | AttributeError     // `.routes` looked up on a value that is not a GPX document
    | RouteRequestError  // the route request itself raised

  datatype Option<T> = None | Some(value: T)

  /** A Python call either returns a value or raises. */
  datatype Result<T> = Success(value: T) | Failure(error: PyError)

  /** The position that `s[i]` and `s.pop(i)` address in a list of length n,
      or None when Python raises IndexError. */
  function Position(i: int, n: nat): (r: Option<nat>)
    ensures r.Some? <==> 0 <= i + n && i < n
    ensures r.Some? ==> r.value < n && (r.value == i || r.value == i + n)
  {
    if 0 <= i < n then Some(i)
    else if 0 <= i + n && i < 0 then Some(i + n)
    else None
  }

  /** The list that `pop` leaves once the index has been resolved to position k. */
  function Removed<T>(s: seq<T>, k: nat): (r: seq<T>)
    requires k < |s|
    ensures |r| == |s| - 1
    ensures forall j {:trigger r[j]} :: 0 <= j < k ==> r[j] == s[j]
    ensures forall j :: k <= j < |r| ==> r[j] == s[j + 1]
  {
    s[..k] + s[k + 1..]
  }

  /** The position at which `s.insert(i, x)` puts x in a list of length n:
      a negative i counts from the end and anything out of range is clamped. */
  function InsertPosition(i: int, n: nat): (k: nat)
    ensures k <= n
    ensures 0 <= i <= n ==> k == i
    ensures i < 0 <= i + n ==> k == i + n
    ensures i > n ==> k == n
    ensures i + n < 0 ==> k == 0
  {
    if i < 0 then (if i + n < 0 then 0 else i + n)
    else if i > n then n
    else i
  }

  /** The list that `s.insert(i, x)` leaves. */
  function Inserted<T>(s: seq<T>, i: int, x: T): (r: seq<T>)
    ensures |r| == |s| + 1
    ensures r[InsertPosition(i, |s|)] == x
    ensures forall j {:trigger r[j]} :: 0 <= j < InsertPosition(i, |s|) ==> r[j] == s[j]
    ensures forall j :: InsertPosition(i, |s|) < j < |r| ==> r[j] == s[j - 1]
  {
    var k := InsertPosition(i, |s|);
    s[..k] + [x] + s[k..]
  }

  /** Two pops as slices. Popping the higher position b first and then a,
      or popping a first and then b - 1 on the shortened list, both leave s
      without its elements at a and b. */
  lemma RemovedTwice<T>(s: seq<T>, a: nat, b: nat)
    requires a < b < |s|
    ensures Removed(Removed(s, b), a) == s[..a] + s[a + 1..b] + s[b + 1..]
    ensures Removed(Removed(s, a), b - 1) == s[..a] + s[a + 1..b] + s[b + 1..]
  {
    assert Removed(s, b) == s[..b] + s[b + 1..];
    assert Removed(s, b)[..a] == s[..a];
    assert Removed(s, b)[a + 1..] == s[a + 1..b] + s[b + 1..];
    assert Removed(s, a) == s[..a] + s[a + 1..];
    assert Removed(s, a)[..b - 1] == s[..a] + s[a + 1..b];
    assert Removed(s, a)[b..] == s[b + 1..];
  }

  /** An in-range insert as slices. */
  lemma InsertedAt<T>(s: seq<T>, k: nat, x: T)
    requires k <= |s|
    ensures Inserted(s, k, x) == s[..k] + [x] + s[k..]
  {
  }

  /** `insert(-1, x)` is not an append: on a non-empty list x lands just
      before the last element, which stays last. */
  lemma InsertBeforeLast<T>(s: seq<T>, x: T)
    requires |s| > 0
    ensures Inserted(s, -1, x) == s[..|s| - 1] + [x, s[|s| - 1]]
  {
    var r := Inserted(s, -1, x);
    assert InsertPosition(-1, |s|) == |s| - 1;
    assert r[|s| - 1] == x;
    assert r[|s|] == s[|s| - 1];
    assert r == s[..|s| - 1] + [x, s[|s| - 1]];
  }
}
