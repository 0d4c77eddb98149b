/** A disk as the array of its bytes. Transfers are complete: see "Left out" in README.md. */
module Storage {
  import opened Bytes

  /** A range of bytes that one transfer wrote. */
  datatype Extent = Extent(off: nat, size: nat)

  class Disk {
    const data: array<byte>
    /** The writes so far, in order. */
    ghost var log: seq<Extent>

    constructor (bytes: array<byte>)
      ensures data == bytes && log == []
    {
      data, log := bytes, [];
    }

    function Contents(): (s: seq<byte>)
      reads data
    {
      data[..]
    }

    method WriteAt(off: nat, src: seq<byte>)
      requires off + |src| <= data.Length
      modifies data, `log
      ensures log == old(log) + [Extent(off, |src|)]
      ensures Contents() == Splice(old(Contents()), off, src)
    {
      for i := 0 to |src|
        invariant log == old(log)
        invariant forall k :: 0 <= k < data.Length ==>
          data[k] == if off <= k < off + i then src[k - off] else old(data[k])
      {
        data[off + i] := src[i];
      }
      log := log + [Extent(off, |src|)];
    }

    method ReadAt(off: nat, n: nat) returns (s: seq<byte>)
      requires off + n <= data.Length
      ensures s == Slice(Contents(), off, n)
    {
      s := data[off..off + n];
    }
  }
}
