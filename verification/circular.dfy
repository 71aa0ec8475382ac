// Arrays read circularly: the error queue and the error-text heap both are.

module Circular {

  /** The elements of d in circular order, from index w on. */
  function View<T>(d: seq<T>, w: nat): (v: seq<T>)
    requires w <= |d|
    ensures |v| == |d|
  {
    d[w..] + d[..w]
  }

  function Wrap(i: nat, size: nat): nat { if i < size then i else i - size }

  /** Where index i of the array is in the view from w. */
  function ViewIndex(i: nat, w: nat, size: nat): nat
    requires i < size && w <= size
  {
    if w <= i then i - w else i + size - w
  }

  lemma ViewAt<T>(d: seq<T>, w: nat, v: nat)
    requires w <= |d| && v < |d|
    ensures Wrap(w + v, |d|) < |d| && View(d, w)[v] == d[Wrap(w + v, |d|)] && ViewIndex(Wrap(w + v, |d|), w, |d|) == v
  {
  }

  /** Moving the start of a view forward by n rotates it. */
  lemma ViewForward<T>(d: seq<T>, w: nat, n: nat)
    requires w < |d| && n <= |d|
    ensures var w' := Wrap(w + n, |d|);
            w' <= |d| && View(d, w') == View(d, w)[n..] + View(d, w)[..n]
  {
    if w + n < |d| {
      assert View(d, w)[n..] == d[w + n..] + d[..w];
      assert View(d, w)[..n] == d[w..w + n];
    } else {
      var k := w + n - |d|;
      assert View(d, w)[n..] == d[k..w];
      assert View(d, w)[..n] == d[w..] + d[..k];
    }
  }

  /** Overwriting a circular block changes just that stretch of the view. */
  lemma BlockOverwritten<T>(d: seq<T>, d': seq<T>, w: nat, v: nat, block: seq<T>)
    requires |d| == |d'| && w <= |d| && v + |block| <= |d|
    requires forall i :: 0 <= i < |d| ==>
               d'[i] == var u := ViewIndex(i, w, |d|); if v <= u < v + |block| then block[u - v] else d[i]
    ensures View(d', w) == View(d, w)[..v] + block + View(d, w)[v + |block|..]
  {
    var r := View(d, w)[..v] + block + View(d, w)[v + |block|..];
    forall u | 0 <= u < |d|
      ensures View(d', w)[u] == r[u]
    {
      ViewAt(d, w, u);
      ViewAt(d', w, u);
    }
  }

  /** A circular block seen from its own start and from the start of the view. */
  lemma BlockIndex(i: nat, w: nat, v: nat, n: nat, size: nat)
    requires i < size && w < size && v + n <= size
    ensures Wrap(w + v, size) <= size
    ensures ViewIndex(i, Wrap(w + v, size), size) < n <==> v <= ViewIndex(i, w, size) < v + n
  {
  }
}
