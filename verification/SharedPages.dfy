/** The result list as the growable slice it is: pages handed to readers share its array and
    are encoded after the lock is released. */
module SharedPages {
  import opened Wrappers

  /** A slice of some array, and what it held when it was cut. */
  datatype Slice<T> = Slice(arr: array<T>, lo: nat, hi: nat, seen: seq<T>)

  /** What a reader finds when it encodes the slice now. */
  function Read<T>(p: Slice<T>): seq<T>
    requires p.lo <= p.hi <= p.arr.Length
    reads p.arr
  {
    p.arr[p.lo..p.hi]
  }

  class DoneList<T(0)> {
    var data: array<T>
    var len: nat
    ghost var pages: seq<Slice<T>>

    function Contents(): seq<T>
      requires len <= data.Length
      reads this, data
    {
      data[..len]
    }

    /** Every page ever cut still reads as it did, and none reaches beyond the used part of
        the current array. */
    ghost predicate Valid()
      reads this, data, set p | p in pages :: p.arr
    {
      && len <= data.Length
      && forall p :: p in pages ==>
           p.lo <= p.hi <= p.arr.Length && (p.arr == data ==> p.hi <= len) && Read(p) == p.seen
    }

    constructor ()
      ensures Valid() && Contents() == [] && pages == [] && fresh(data)
    {
      data := new T[0];
      len := 0;
      pages := [];
    }

    /** `append`: in place while the array has room, else into a larger copy whose capacity
        the runtime chooses. Pages cut before read the same afterwards. */
    method Append(xs: seq<T>, capacity: nat)
      requires Valid() && capacity >= len + |xs|
      modifies this`data, this`len, data
      ensures Valid() && Contents() == old(Contents()) + xs
      ensures pages == old(pages)
      ensures data == old(data) || fresh(data)
      ensures data == old(data) <==> len <= old(data).Length
    {
      if len + |xs| <= data.Length {
        var i := 0;
        while i < |xs|
          modifies data
          invariant 0 <= i <= |xs| && data[..len + i] == old(data[..len]) + xs[..i]
          invariant forall p :: p in pages ==> Read(p) == p.seen
        {
          data[len + i] := xs[i];
          i := i + 1;
        }
        assert xs[..i] == xs;
        len := len + |xs|;
      } else {
        var grown := new T[capacity];
        forall i | 0 <= i < len {
          grown[i] := data[i];
        }
        forall i | 0 <= i < |xs| {
          grown[len + i] := xs[i];
        }
        assert grown[..len + |xs|] == data[..len] + xs;
        data := grown;
        len := len + |xs|;
      }
    }

    /** A page of results from a cursor: the slice, the next cursor and whether more exist. */
    method GetResults(cursor: nat, limit: nat) returns (page: Slice<T>, next: nat, more: bool)
      requires Valid()
      modifies this`pages
      ensures Valid() && Contents() == old(Contents()) && pages == old(pages) + [page]
      ensures cursor >= len ==> page.seen == [] && next == cursor && !more
      ensures cursor < len ==>
                && next == Min(cursor + limit, len) && page.seen == Contents()[cursor..next]
                && page.arr == data && page.lo == cursor && page.hi == next
                && (more <==> next < len)
    {
      if cursor >= len {
        page, next, more := Slice(data, 0, 0, []), cursor, false;
      } else {
        var end := cursor + limit;
        if end > len {
          end := len;
        }
        page, next, more := Slice(data, cursor, end, data[cursor..end]), end, end < len;
      }
      pages := pages + [page];
    }
  }

  /** What the batches append, whatever capacity the runtime chooses for each. */
  function Joined<T>(batches: seq<(seq<T>, nat)>): seq<T> {
    if batches == [] then [] else Joined(batches[..|batches| - 1]) + batches[|batches| - 1].0
  }

  /** A page fetched before any number of further appends is encoded unchanged after them. */
  method EncodeLater<T(0)>(list: DoneList<T>, cursor: nat, limit: nat, batches: seq<(seq<T>, nat)>)
    returns (page: Slice<T>, body: seq<T>)
    requires list.Valid()
    modifies list, list.data
    ensures list.Valid()
    ensures cursor < old(list.len) ==>
              body == old(list.Contents())[cursor..Min(cursor + limit, old(list.len))]
    ensures cursor >= old(list.len) ==> body == []
    ensures list.Contents() == old(list.Contents()) + Joined(batches)
  {
    var next, more;
    page, next, more := list.GetResults(cursor, limit);
    for i := 0 to |batches|
      invariant list.Valid() && page in list.pages
      invariant list.data == old(list.data) || fresh(list.data)
      invariant list.Contents() == old(list.Contents()) + Joined(batches[..i])
    {
      assert batches[..i + 1][..i] == batches[..i];
      list.Append(batches[i].0, Max(batches[i].1, list.len + |batches[i].0|));
    }
    assert batches[..|batches|] == batches;
    body := Read(page);
  }
}
