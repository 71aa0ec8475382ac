// The circular heap for the texts that go with queued errors: scpiheap_* of
// utils.c, compiled when device-dependent error information is kept without malloc.

module ErrorHeap {
  import opened Circular

  datatype Pointer = Null | Ptr(index: nat)

  // ------------------------------------------------------------ circular contents

  function Zeros(n: nat): (z: string)
    ensures |z| == n && forall i :: 0 <= i < n ==> z[i] == '\0'
  {
    seq(n, _ => '\0')
  }

  /** Texts one after the other, each with its terminating zero. */
  function Flat(texts: seq<string>): string {
    if texts == [] then "" else Flat(texts[..|texts| - 1]) + texts[|texts| - 1] + "\0"
  }

  predicate Clean(text: string) { '\0' !in text }

  predicate Storable(text: string) { text != "" && Clean(text) }

  /** strnlen: the characters before the first zero, at most n. */
  function StrNLen(s: string, n: nat): (len: nat)
    ensures len <= n && len <= |s| && Clean(s[..len])
    ensures len < n && len < |s| ==> s[len] == '\0'
  {
    if n == 0 || s == "" || s[0] == '\0' then 0 else 1 + StrNLen(s[1..], n - 1)
  }

  /** The text a string of at most n characters stands for. */
  function Stored(s: string, n: nat): string { s[..StrNLen(s, n)] }

  lemma {:induction false} FlatSplit(texts: seq<string>, k: nat)
    requires k <= |texts|
    ensures Flat(texts) == Flat(texts[..k]) + Flat(texts[k..])
    decreases |texts| - k
  {
    if k == |texts| {
      assert texts[..k] == texts;
    } else {
      var front := texts[..|texts| - 1];
      FlatFront(texts, k);
      FlatSplit(front, k);
      assert front[..k] == texts[..k];
    }
  }

  lemma FlatFront(texts: seq<string>, k: nat)
    requires k < |texts|
    ensures var front := texts[..|texts| - 1];
            Flat(texts[k..]) == Flat(front[k..]) + texts[|texts| - 1] + "\0"
  {
    var tail := texts[k..];
    assert tail[..|tail| - 1] == texts[..|texts| - 1][k..];
  }

  lemma FlatFirst(texts: seq<string>)
    requires texts != []
    ensures Flat(texts) == texts[0] + "\0" + Flat(texts[1..])
  {
    FlatSplit(texts, 1);
    assert texts[..1] == [texts[0]];
    assert Flat([texts[0]]) == texts[0] + "\0" by {
      assert [texts[0]][..0] == [];
    }
  }

  /** The character j places after index i, circularly. */
  function CircularAt(d: string, i: nat, j: nat): char
    requires i < |d| && j < |d|
  {
    d[Wrap(i + j, |d|)]
  }

  /** From index i on, circularly, d holds text and a zero. */
  ghost predicate HoldsText(d: string, i: nat, text: string) {
    i < |d| && |text| < |d| && forall j :: 0 <= j <= |text| ==> CircularAt(d, i, j) == if j < |text| then text[j] else '\0'
  }

  /** len is what strnlen finds in d from index i, looking at no more than n characters. */
  ghost predicate IsStrNLen(d: string, i: nat, n: nat, len: nat) {
    len <= n && i + n <= |d| && (forall k :: i <= k < i + len ==> d[k] != '\0') && (len < n ==> d[i + len] == '\0')
  }

  lemma FirstPart(d: string, s: nat, text: string, len: nat)
    requires HoldsText(d, s, text) && Clean(text) && IsStrNLen(d, s, |d| - s, len)
    ensures len == (if |text| < |d| - s then |text| else |d| - s) && d[s..s + len] == text[..len]
  {
    assert CircularAt(d, s, |text|) == '\0';
    var next := if len <= |text| then CircularAt(d, s, len) else '\0';
    forall i | 0 <= i < len
      ensures d[s + i] == text[i]
    {
      assert CircularAt(d, s, i) == text[i];
    }
  }

  lemma SecondPart(d: string, s: nat, text: string, len: nat)
    requires HoldsText(d, s, text) && Clean(text) && |d| - s <= |text| && IsStrNLen(d, 0, |d|, len)
    ensures len == |text| - (|d| - s) && d[..len] == text[|d| - s..]
  {
    var rem := |d| - s;
    assert CircularAt(d, s, |text|) == '\0';
    var next := if rem + len <= |text| then CircularAt(d, s, rem + len) else '\0';
    forall i | 0 <= i < len
      ensures d[i] == text[rem + i]
    {
      assert CircularAt(d, s, rem + i) == text[rem + i];
    }
  }

  // ------------------------------------------------------------ the C functions

  class Heap {
    const data: array<char>
    var wr: nat
    var count: nat
    ghost var live: seq<string>   // the texts stored, oldest first

    /** scpiheap_init */
    constructor (size: nat)
      ensures Valid() && fresh(data) && data.Length == size && live == []
    {
      data := new char[size](_ => '\0');
      wr, count, live := 0, size, [];
      new;
      assert View(data[..], 0) == Zeros(size) + Flat([]);
    }

    /**
     * Read circularly from wr, the heap is its free bytes, all zero, and then
     * the live texts, contiguous and without overlap, from oldest to newest.
     */
    ghost predicate Valid()
      reads this, data
    {
      && (wr < data.Length || (data.Length == 0 && wr == 0))
      && (forall i :: 0 <= i < |live| ==> Storable(live[i]))
      && count + |Flat(live)| == data.Length
      && View(data[..], wr) == Zeros(count) + Flat(live)
      && (live == [] ==> wr == 0)
    }

    /** Where text k is stored. */
    ghost function IndexOf(k: nat): nat
      requires k < |live|
      reads this
    {
      Wrap(wr + count + |Flat(live[..k])|, data.Length)
    }

    /** Where all the texts are stored. */
    ghost function Indices(): (r: seq<nat>)
      reads this
      ensures |r| == |live| && forall k :: 0 <= k < |live| ==> r[k] == IndexOf(k)
    {
      seq(|live|, k requires 0 <= k < |live| reads this => IndexOf(k))
    }

    method StrNLenAt(from: nat, n: nat) returns (len: nat)
      requires from + n <= data.Length
      ensures IsStrNLen(data[..], from, n, len)
    {
      len := 0;
      while len < n && data[from + len] != '\0'
        invariant len <= n && forall i :: from <= i < from + len ==> data[i] != '\0'
      {
        len := len + 1;
      }
    }

    /** Text k lies at its index. */
    lemma TextAt(k: nat)
      requires Valid() && k < |live|
      ensures data.Length > 0 && IndexOf(k) < data.Length && HoldsText(data[..], IndexOf(k), live[k])
      ensures count + |Flat(live[..k])| + |live[k]| + 1 <= data.Length
    {
      hide View, Zeros, Flat;
      var text, v := live[k], count + |Flat(live[..k])|;
      FlatSplit(live, k);
      FlatFirst(live[k..]);
      var rest := Flat(live[k..][1..]);
      var view := View(data[..], wr);
      assert view == Zeros(count) + Flat(live[..k]) + (text + "\0") + rest;
      forall j | 0 <= j <= |text|
        ensures CircularAt(data[..], IndexOf(k), j) == if j < |text| then text[j] else '\0'
      {
        ViewAt(data[..], wr, v + j);
        assert view[v + j] == (text + "\0")[j];
      }
    }

    /** A live text does not start with a zero. */
    lemma LiveText(k: nat)
      requires Valid() && k < |live|
      ensures Indices()[k] < data.Length && data[Indices()[k]] != '\0'
    {
      TextAt(k);
      assert Storable(live[k]);
      assert CircularAt(data[..], IndexOf(k), 0) == live[k][0];
    }

    /** scpiheap_get_parts: a live text is one part, or two when it wraps around; together they are the text. */
    method GetParts(s: nat) returns (ok: bool, len1: nat, s2: Pointer, len2: nat)
      requires Valid() && s < data.Length
      ensures ok <==> data[s] != '\0'
      ensures s + len1 <= data.Length && len2 <= data.Length
      ensures forall k :: 0 <= k < |live| && s == IndexOf(k) ==>
                && ok && data[s..s + len1] + data[..len2] == live[k]
                && s2 == (if s + |live[k]| < data.Length then Null else Ptr(0))
                && if s2 == Null then len1 == |live[k]| && len2 == 0 else len1 == data.Length - s
    {
      len1, s2, len2 := 0, Null, 0;
      ok := data[s] != '\0';
      if ok {
        var rem := data.Length - s;
        len1 := StrNLenAt(s, rem);
        if s + len1 - 1 == data.Length - 1 {
          s2 := Ptr(0);
          len2 := StrNLenAt(0, data.Length);
        }
      }
      forall k | 0 <= k < |live| && s == IndexOf(k)
        ensures ok && data[s..s + len1] + data[..len2] == live[k]
        ensures s2 == (if s + |live[k]| < data.Length then Null else Ptr(0))
        ensures if s2 == Null then len1 == |live[k]| && len2 == 0 else len1 == data.Length - s
      {
        var text := live[k];
        TextAt(k);
        assert Storable(text);
        assert CircularAt(data[..], s, 0) == text[0] != '\0';
        FirstPart(data[..], s, text, len1);
        if s2 == Null {
          assert text[..len1] == text;
        } else {
          SecondPart(data[..], s, text, len2);
          assert text == text[..len1] + text[len1..];
        }
      }
    }

    /** memset(&data[from], 0, n) */
    method Clear(from: nat, n: nat)
      requires from + n <= data.Length
      modifies data
      ensures forall i :: 0 <= i < data.Length ==> data[i] == if from <= i < from + n then '\0' else old(data[i])
    {
      forall i | from <= i < from + n {
        data[i] := '\0';
      }
    }

    /** memcpy of n characters of a zero-terminated string */
    method Copy(to: nat, s: string, from: nat, n: nat)
      requires to + n <= data.Length && from + n <= |s| + 1
      modifies data
      ensures forall i :: 0 <= i < data.Length ==>
                data[i] == if to <= i < to + n then CharAt(s, from + i - to) else old(data[i])
    {
      forall i | 0 <= i < n {
        data[to + i] := CharAt(s, from + i);
      }
    }

    /**
     * scpiheap_strndup: the text is stored as the newest one when it is not
     * empty and fits with its zero; otherwise the heap does not change.
     */
    method StrNDup(s: string, n: nat) returns (head: Pointer)
      requires Valid() && (n > 0 || CharAt(s, 0) == '\0')
      modifies this, data
      ensures Valid()
      ensures var text := Stored(s, n);
              if text != "" && |text| + 1 <= old(count) then
                && head.Ptr? && live == old(live) + [text] && Indices() == old(Indices()) + [head.index]
                && count == old(count) - |text| - 1
              else
                head == Null && live == old(live) && count == old(count) && Indices() == old(Indices())
    {
      hide Flat, Zeros, View;
      ghost var text := Stored(s, n);
      if data.Length == 0 {
        return Null;
      }
      FirstFree();
      if data[wr] != '\0' {
        return Null;
      }
      if CharAt(s, 0) == '\0' {
        return Null;
      }
      var len := StrNLen(s, n) + 1;
      if len > count {
        return Null;
      }
      head := Ptr(wr);
      ghost var d0, wr0, count0, live0 := data[..], wr, count, live;
      StoreBytes(s, text, len);
      StoredView(d0, data[..], wr0, count0, text, live0);
      live := live0 + [text];
      assert live[..|live0|] == live0;
      forall k | 0 <= k < |live0|
        ensures IndexOf(k) == Wrap(wr0 + count0 + |Flat(live0[..k])|, data.Length)
      {
        assert live[..k] == live0[..k];
        FlatSplit(live0, k);
      }
    }

    /** What the test of the byte at wr tells: it is zero exactly when there is free space. */
    lemma FirstFree()
      requires Valid() && data.Length > 0
      ensures data[wr] == '\0' <==> count > 0
    {
      ViewAt(data[..], wr, 0);
      if count == 0 {
        FlatFirst(live);
        assert Storable(live[0]);
      }
    }

    /** The copying part of scpiheap_strndup. */
    method StoreBytes(s: string, ghost text: string, length: nat)
      requires wr < data.Length && |text| + 1 == length <= count <= data.Length
      requires |text| <= |s| && s[..|text|] == text
      modifies `wr, `count, data
      ensures wr == Wrap(old(wr) + length, data.Length) && count == old(count) - length
      ensures forall i :: 0 <= i < data.Length ==>
                data[i] == var u := ViewIndex(i, old(wr), data.Length);
                           if u < |text| then text[u] else if u == |text| then '\0' else old(data[i])
    {
      var len, ptrs := length, 0;
      var rem := data.Length - wr;
      if len >= rem {
        Copy(wr, s, 0, rem);
        len := len - rem;
        ptrs := rem;
        wr := 0;
        count := count - rem;
      }
      Copy(wr, s, ptrs, len);
      wr := wr + len;
      count := count - len;
      if wr > 0 {
        data[wr - 1] := '\0';
      } else {
        data[data.Length - 1] := '\0';
      }
      assert forall j :: 0 <= j < |text| ==> CharAt(s, j) == s[..|text|][j];
    }

    /**
     * scpiheap_free of the oldest text, or with rollback of the newest: its bytes
     * are zero again, the other texts stay where they are.
     */
    method Free(ghost k: nat, s: Pointer, rollback: bool)
      requires Valid()
      requires s.Ptr? ==> s.index < data.Length
      requires s.Ptr? && data[s.index] != '\0' ==>
                 k < |live| && s.index == IndexOf(k) && k == if rollback then |live| - 1 else 0
      modifies this, data
      ensures Valid()
      ensures if s == Null || old(data[s.index]) == '\0' then
                live == old(live) && count == old(count) && Indices() == old(Indices())
              else
                && live == old(live)[..k] + old(live)[k + 1..] && count == old(count) + |old(live)[k]| + 1
                && Indices() == old(Indices())[..k] + old(Indices())[k + 1..]
    {
      hide Flat, Zeros, View;
      if s == Null {
        return;
      }
      var ok, len1, s2, len2 := GetParts(s.index);
      if !ok {
        return;
      }
      TextAt(k);
      FreeText(k, s.index, len1, s2, len2, rollback);
    }

    /** The rest of scpiheap_free, for a text found in its parts. */
    method FreeText(ghost k: nat, s: nat, len1: nat, s2: Pointer, len2: nat, rollback: bool)
      requires Valid() && k < |live| && s == IndexOf(k) < data.Length && k == if rollback then |live| - 1 else 0
      requires count + |Flat(live[..k])| + |live[k]| + 1 <= data.Length && len1 + len2 == |live[k]|
      requires if s2 == Null then s + len1 < data.Length && len2 == 0 else s + len1 == data.Length && len2 < s
      modifies this, data
      ensures Valid()
      ensures live == old(live)[..k] + old(live)[k + 1..] && count == old(count) + |old(live)[k]| + 1
      ensures Indices() == old(Indices())[..k] + old(Indices())[k + 1..]
    {
      hide Flat, Zeros, View, Wrap;
      ghost var d0, wr0, count0, live0, v := data[..], wr, count, live, count + |Flat(live[..k])|;
      var rb := ReleaseBytes(s, len1, s2, len2);
      forall i | 0 <= i < data.Length
        ensures data[..][i] == if v <= ViewIndex(i, wr0, data.Length) < v + |live0[k]| + 1 then '\0' else d0[i]
      {
        BlockIndex(i, wr0, v, rb, data.Length);
      }
      FreedView(d0, data[..], wr0, count0, live0, k);
      live := live0[..k] + live0[k + 1..];
      assert if k == 0 then live == live0[1..] else live == live0[..k];
      FlatNil();
      if count == data.Length {
        wr := 0;
        return;
      }
      if rollback {
        if rb > wr {
          wr := wr + data.Length;
        }
        wr := wr - rb;
      }
      forall j | 0 <= j < |live|
        ensures IndexOf(j) == Wrap(wr0 + count0 + |Flat(live0[..if j < k then j else j + 1])|, data.Length)
      {
        FreedOffset(live0, k, j, wr0, count0, rb, rollback, data.Length);
      }
    }

    /** The part of scpiheap_free that zeroes the two parts of a text and its final zero. */
    method ReleaseBytes(s: nat, len1: nat, s2: Pointer, len2: nat) returns (rb: nat)
      requires s < data.Length
      requires if s2 == Null then s + len1 < data.Length && len2 == 0 else s + len1 == data.Length && len2 < s
      modifies `count, data
      ensures rb == len1 + len2 + 1 && count == old(count) + rb
      ensures forall i :: 0 <= i < data.Length ==>
                data[i] == if ViewIndex(i, s, data.Length) < rb then '\0' else old(data[i])
    {
      var n1, n2 := len1, len2;
      if s2 != Null {
        n2 := n2 + 1;
        Clear(0, n2);
        count := count + n2;
      } else {
        n1 := n1 + 1;
      }
      Clear(s, n1);
      count := count + n1;
      rb := n1 + n2;
    }
  }

  /** Indices counted from the start of the view do not change when rollback moves it back by n. */
  lemma MovedStart(wr: nat, count: nat, n: nat, rollback: bool, offset: nat, size: nat)
    requires wr < size && n <= size && (rollback ==> count + offset + n <= size)
    ensures var wr' := if rollback then (if n > wr then wr + size - n else wr - n) else wr;
            Wrap(wr' + (count + n) + offset, size) == Wrap(wr + count + offset + (if rollback then 0 else n), size)
  {
  }

  /** The other texts follow one another as before when the first or the last text is taken out. */
  lemma FreedIndex(live: seq<string>, k: nat, j: nat)
    requires k < |live| && (k == 0 || k == |live| - 1) && j < |live| - 1
    ensures var rest := live[..k] + live[k + 1..];
            |Flat(live[..if j < k then j else j + 1])| == |Flat(rest[..j])| + if j < k then 0 else |live[k]| + 1
    ensures j < k ==> |Flat(live[..j])| <= |Flat(live[..k])|
  {
    if j < k {
      FlatSplit(live[..k], j);
      assert live[..k][..j] == live[..j];
    }
    var rest := live[..k] + live[k + 1..];
    if k == 0 {
      var front := live[..j + 1];
      FlatFirst(front);
      assert front[1..] == rest[..j];
    } else {
      assert rest[..j] == live[..j];
    }
  }

  lemma FreedOffset(live: seq<string>, k: nat, j: nat, wr: nat, count: nat, n: nat, rollback: bool, size: nat)
    requires k < |live| && k == (if rollback then |live| - 1 else 0) && j < |live| - 1
    requires wr < size && n == |live[k]| + 1 && count + |Flat(live[..k])| + n <= size
    ensures var rest := live[..k] + live[k + 1..];
            var wr' := if rollback then (if n > wr then wr + size - n else wr - n) else wr;
            Wrap(wr' + (count + n) + |Flat(rest[..j])|, size)
            == Wrap(wr + count + |Flat(live[..if j < k then j else j + 1])|, size)
  {
    hide Flat;
    FreedIndex(live, k, j);
    MovedStart(wr, count, n, rollback, |Flat((live[..k] + live[k + 1..])[..j])|, size);
  }

  /** Zeroing the oldest text, or the newest one, in the circular order. */
  lemma FreedView(d: string, d': string, w: nat, count: nat, live: seq<string>, k: nat)
    requires |d| == |d'| && w < |d| && k < |live| && count + |Flat(live)| == |d|
    requires View(d, w) == Zeros(count) + Flat(live)
    requires var v := count + |Flat(live[..k])|;
             forall i :: 0 <= i < |d| ==>
               d'[i] == if v <= ViewIndex(i, w, |d|) < v + |live[k]| + 1 then '\0' else d[i]
    ensures var n := |live[k]| + 1;
            && count + n <= |d|
            && (k == 0 ==> View(d', w) == Zeros(count + n) + Flat(live[1..]))
            && (k == |live| - 1 ==> var w' := if n > w then w + |d| - n else w - n; w' < |d| && View(d', w') == Zeros(count + n) + Flat(live[..k]))
            && (count + n == |d| ==> View(d', 0) == Zeros(|d|) && |live| == 1)
  {
    hide View, Flat, Zeros;
    FlatNil();
    var n, v := |live[k]| + 1, count + |Flat(live[..k])|;
    FlatSplit(live, k);
    FlatFirst(live[k..]);
    var front, back := Flat(live[..k]), Flat(live[k + 1..]);
    assert live[k..][1..] == live[k + 1..];
    assert Flat(live) == front + (live[k] + "\0") + back;
    BlockOverwritten(d, d', w, v, Zeros(n));
    var view := View(d, w);
    assert view[..v] == Zeros(count) + front && view[v + n..] == back;
    assert View(d', w) == Zeros(count) + front + Zeros(n) + back;
    if k == 0 {
      assert live[..0] == [] && live[k + 1..] == live[1..];
      assert front == "" && Zeros(count) + Zeros(n) == Zeros(count + n);
    }
    if k == |live| - 1 {
      assert Wrap(w + |d| - n, |d|) == if n > w then w + |d| - n else w - n;
      assert live[k + 1..] == [];
      assert back == "" && live[..k] == live[..|live| - 1];
      ViewForward(d', w, |d| - n);
      assert View(d', w)[|d| - n..] == Zeros(n) && View(d', w)[..|d| - n] == Zeros(count) + front;
      assert Zeros(n) + Zeros(count) == Zeros(count + n);
    }
    if count + n == |d| {
      assert front == "" && back == "";
      EmptyFlat(live[..k]);
      EmptyFlat(live[k + 1..]);
      AllZero(d', w);
    }
  }

  lemma FlatNil()
    ensures Flat([]) == ""
  {
  }

  lemma EmptyFlat(texts: seq<string>)
    requires Flat(texts) == ""
    ensures texts == []
  {
  }

  lemma AllZero(d: string, w: nat)
    requires w <= |d| && View(d, w) == Zeros(|d|)
    ensures View(d, 0) == Zeros(|d|)
  {
    forall i | 0 <= i < |d|
      ensures d[i] == '\0'
    {
      ViewAt(d, w, ViewIndex(i, w, |d|));
    }
  }

  function CharAt(s: string, i: nat): char { if i < |s| then s[i] else '\0' }

  /** Storing a text at the start of the free bytes makes it the newest one. */
  lemma StoredView(d: string, d': string, w: nat, count: nat, text: string, live: seq<string>)
    requires |d| == |d'| && w < |d| && |text| + 1 <= count <= |d|
    requires View(d, w) == Zeros(count) + Flat(live)
    requires forall i :: 0 <= i < |d| ==>
               d'[i] == var u := ViewIndex(i, w, |d|);
                        if u < |text| then text[u] else if u == |text| then '\0' else d[i]
    ensures var w' := Wrap(w + |text| + 1, |d|);
            w' <= |d| && View(d', w') == Zeros(count - |text| - 1) + Flat(live + [text])
  {
    hide View;
    var n := |text| + 1;
    var view := View(d, w);
    BlockOverwritten(d, d', w, 0, text + "\0");
    ViewForward(d', w, n);
    assert View(d', w) == (text + "\0") + view[n..];
    assert View(d', w)[n..] == view[n..] && View(d', w)[..n] == text + "\0";
    assert view[n..] == Zeros(count - n) + Flat(live);
    assert (live + [text])[..|live|] == live;
  }
}
