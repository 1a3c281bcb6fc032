/** Byte streams as the C++ standard library presents them: a cursor and a state flag. */
module Streams {
  import opened Basics
  import opened Bytes

  class Stream {
    var data: seq<Byte>   // everything ever written to the stream
    var pos: nat          // how much of it has been read
    var good: bool        // false once a read has come up short

    ghost predicate Valid()
      reads this
    {
      pos <= |data|
    }

    /** The bytes still to be read. */
    ghost function Rest(): seq<Byte>
      requires Valid()
      reads this
    {
      data[pos..]
    }

    constructor (contents: seq<Byte>)
      ensures Valid() && good && pos == 0 && data == contents
    {
      data, pos, good := contents, 0, true;
    }

    /** Extracts up to n bytes; a short count sets the end-of-file state. */
    method Take(n: nat) returns (bytes: seq<Byte>)
      requires Valid()
      modifies this
      ensures Valid() && data == old(data)
      ensures |bytes| == if old(good) then Min(n, |old(Rest())|) else 0
      ensures bytes == old(Rest())[..|bytes|] && Rest() == old(Rest())[|bytes|..]
      ensures good == (old(good) && |bytes| == n)
    {
      var count := if good then Min(n, |data| - pos) else 0;
      bytes := data[pos..pos + count];
      pos := pos + count;
      good := good && count == n;
    }

    /** Reads up to n bytes to the front of a buffer and returns how many there were. */
    method Read(buffer: array<Byte>, n: nat) returns (gcount: nat)
      requires Valid() && n <= buffer.Length
      modifies this, buffer
      ensures Valid() && data == old(data)
      ensures gcount == if old(good) then Min(n, |old(Rest())|) else 0
      ensures buffer[..gcount] == old(Rest())[..gcount] && Rest() == old(Rest())[gcount..]
      ensures buffer[gcount..] == old(buffer[gcount..])
      ensures good == (old(good) && gcount == n)
    {
      var bytes := Take(n);
      gcount := |bytes|;
      forall i | 0 <= i < gcount {
        buffer[i] := bytes[i];
      }
      assert buffer[..gcount] == bytes;
    }

    /** True if there is no next byte to be read; never consumes one. */
    method AtEnd() returns (eof: bool)
      requires Valid()
      modifies this
      ensures Valid() && data == old(data) && Rest() == old(Rest())
      ensures eof == (!old(good) || Rest() == [])
      ensures good == !eof
    {
      eof := !good || pos == |data|;
      good := !eof;
    }

    /** Reads a big-endian word; fails if fewer than four bytes are left. */
    method ReadBe32() returns (ok: bool, w: Word32)
      requires Valid()
      modifies this
      ensures Valid() && data == old(data)
      ensures ok == (old(good) && |old(Rest())| >= 4)
      ensures ok ==> w == LoadBe32(old(Rest())[..4]) && Rest() == old(Rest())[4..] && good
    {
      var bytes := Take(4);
      ok, w := |bytes| == 4, 0;
      if ok {
        w := LoadBe32(bytes);
      }
    }

    method Write(bytes: seq<Byte>)
      requires Valid()
      modifies this
      ensures Valid() && data == old(data) + bytes && pos == old(pos) && good == old(good)
    {
      data := data + bytes;
    }

    method WriteBe32(w: Word32)
      requires Valid()
      modifies this
      ensures Valid() && data == old(data) + Be32(w) && pos == old(pos) && good == old(good)
    {
      var buffer := new Byte[4];
      StoreBe32(buffer, 0, w);
      Write(buffer[..]);
      assert buffer[..] == Be32(w);
    }

    /** Goes back to the first byte and clears the end-of-file state. */
    method SeekToStart()
      requires Valid()
      modifies this
      ensures Valid() && data == old(data) && Rest() == data && good
    {
      pos, good := 0, true;
    }
  }
}
