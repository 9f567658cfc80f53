/** The in-memory cursor every segment reader takes (`BufferMngr`). */
module Buffer {
  import opened Base

  /** What `take_slice(count)` does at `pos`: the next `count` bytes and the
      cursor moved past them, or the panic of `split_at` when fewer remain. */
  function SliceAt(data: seq<uint8>, pos: nat, count: nat): (r: Read<seq<uint8>>)
    requires pos <= |data|
    ensures r.result.Ok? <==> pos + count <= |data|
    ensures r.result.Ok? ==> r.next == pos + count && data[pos..r.next] == r.result.value
    ensures r.result.Err? ==> r.result.error == Panic(SliceOutOfRange) && r.next == pos
  {
    if pos + count <= |data| then Read(Ok(data[pos..pos + count]), pos + count)
    else Read(Err(Panic(SliceOutOfRange)), pos)
  }

  /** What `Read::read` into a `count`-byte buffer does at `pos`: as many of the
      next `count` bytes as remain, and the cursor moved past them. */
  function ReadUpToAt(data: seq<uint8>, pos: nat, count: nat): (r: (seq<uint8>, nat))
    requires pos <= |data|
    ensures r.1 == pos + |r.0| <= |data| && data[pos..r.1] == r.0
    ensures |r.0| == count || (|r.0| < count && r.1 == |data|)
  {
    if pos + count <= |data| then (data[pos..pos + count], pos + count)
    else (data[pos..], |data|)
  }

  class BufferMngr {
    const buffer: seq<uint8>
    var cursor: nat

    ghost predicate Valid()
      reads this
    {
      cursor <= |buffer|
    }

    /** `BufferMngr::new` followed by `read_from_file`: the whole input, cursor at the start. */
    constructor (data: seq<uint8>)
      ensures Valid() && buffer == data && cursor == 0
    {
      buffer := data;
      cursor := 0;
    }

    /** `take_slice`: returns `buffer[cursor..cursor + count]` and advances the cursor by `count`. */
    method TakeSlice(count: nat) returns (r: Result<seq<uint8>>)
      requires Valid()
      modifies this
      ensures Valid()
      ensures r == SliceAt(buffer, old(cursor), count).result
      ensures cursor == SliceAt(buffer, old(cursor), count).next
    {
      if cursor + count > |buffer| {
        return Err(Panic(SliceOutOfRange));
      }
      r := Ok(buffer[cursor..cursor + count]);
      cursor := cursor + count;
    }

    /** `read` into a buffer of `count` bytes: a short read only at the end of the input. */
    method ReadUpTo(count: nat) returns (got: seq<uint8>)
      requires Valid()
      modifies this
      ensures Valid()
      ensures (got, cursor) == ReadUpToAt(buffer, old(cursor), count)
    {
      if cursor + count <= |buffer| {
        got := buffer[cursor..cursor + count];
        cursor := cursor + count;
      } else {
        got := buffer[cursor..];
        cursor := |buffer|;
      }
    }
  }
}
