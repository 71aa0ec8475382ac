// The ring buffer of queued errors: fifo.c.

module ErrorFifo {
  import opened Circular
  import opened ErrorHeap

  /** scpi_error_t */
  datatype Entry = Entry(code: int, info: Pointer)

  /** The C code advances its indices with the % operator. */
  lemma WrapIsModulo(i: nat, size: nat)
    requires i < 2 * size
    ensures i % size == Wrap(i, size)
  {
    if i >= size {
      assert i == size + (i - size);
    }
  }

  /** scpi_fifo_t */
  class Fifo {
    const data: array<Entry>
    var wr: nat
    var rd: nat
    var count: nat

    /** fifo_init */
    constructor (size: nat)
      requires size > 0
      ensures Valid() && fresh(data) && data.Length == size && Contents() == []
    {
      data := new Entry[size](_ => Entry(0, Null));
      wr, rd, count := 0, 0, 0;
    }

    ghost predicate Valid()
      reads this
    {
      && 0 < data.Length && rd < data.Length && count <= data.Length
      && wr == Wrap(rd + count, data.Length)
    }

    /** The entries from the oldest to the newest. */
    ghost function Contents(): (c: seq<Entry>)
      requires Valid()
      reads this, data
      ensures |c| == count
    {
      View(data[..], rd)[..count]
    }

    predicate IsEmpty()
      reads this
    {
      count == 0
    }

    predicate IsFull()
      reads this
    {
      count == data.Length
    }

    /** fifo_clear */
    method Clear()
      requires Valid()
      modifies this
      ensures Valid() && Contents() == []
    {
      wr, rd, count := 0, 0, 0;
    }

    /** fifo_add */
    method Add(value: Entry) returns (ok: bool)
      requires Valid()
      modifies this, data
      ensures Valid()
      ensures ok <==> |old(Contents())| < data.Length
      ensures Contents() == if ok then old(Contents()) + [value] else old(Contents())
    {
      hide View;
      if IsFull() {
        return false;
      }
      ghost var d := data[..];
      data[wr] := value;
      forall i | 0 <= i < data.Length
        ensures data[i] == var u := ViewIndex(i, rd, data.Length); if count <= u < count + 1 then [value][u - count] else d[i]
      {
        BlockIndex(i, rd, count, 1, data.Length);
      }
      BlockOverwritten(d, data[..], rd, count, [value]);
      WrapIsModulo(wr + 1, data.Length);
      wr := (wr + 1) % data.Length;
      count := count + 1;
      ok := true;
    }

    /** fifo_remove: the oldest entry, if there is one. */
    method Remove(value0: Entry) returns (ok: bool, value: Entry)
      requires Valid()
      modifies this
      ensures Valid() && (ok <==> old(Contents()) != [])
      ensures ok ==> value == old(Contents())[0] && Contents() == old(Contents())[1..]
      ensures !ok ==> value == value0 && Contents() == old(Contents())
    {
      if IsEmpty() {
        return false, value0;
      }
      value := data[rd];
      ViewForward(data[..], rd, 1);
      WrapIsModulo(rd + 1, data.Length);
      rd := (rd + 1) % data.Length;
      count := count - 1;
      ok := true;
    }

    /** fifo_remove_last: the newest entry, if there is one. */
    method RemoveLast(value0: Entry) returns (ok: bool, value: Entry)
      requires Valid()
      modifies this
      ensures Valid() && (ok <==> old(Contents()) != [])
      ensures ok ==> var n := |old(Contents())| - 1; value == old(Contents())[n] && Contents() == old(Contents())[..n]
      ensures !ok ==> value == value0 && Contents() == old(Contents())
    {
      if IsEmpty() {
        return false, value0;
      }
      ViewAt(data[..], rd, count - 1);
      WrapIsModulo(wr + data.Length - 1, data.Length);
      wr := (wr + data.Length - 1) % data.Length;
      value := data[wr];
      count := count - 1;
      ok := true;
    }
  }
}
