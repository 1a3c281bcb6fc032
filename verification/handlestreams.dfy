/** Stream buffers over operating-system handles that may read or write less than they are asked to. */
module HandleStreams {

  import opened Basics

  const DEFAULT_BUFFER_SIZE := 8192
  const PUTBACK_SIZE := 4

  // ----------------------------------------------------------- the handles

  /** A handle that takes at least one of the bytes it is offered, but how many is its own choice. */
  class Sink {
    var accepted: seq<char>

    method Write(p: array<char>, from: nat, n: nat) returns (k: nat)
      requires from + n <= p.Length && n > 0
      modifies this
      ensures 1 <= k <= n
      ensures accepted == old(accepted) + p[from..from + k]
    {
      k :| 1 <= k <= n;
      accepted := accepted + p[from..from + k];
    }
  }

  /** A handle that gives at least one byte until there are none left, but how many is its own choice. */
  class Source {
    const data: seq<char>
    var pos: nat

    ghost predicate Valid()
      reads this
    {
      pos <= |data|
    }

    method Read(p: array<char>, at: nat, n: nat) returns (k: nat)
      requires Valid() && at + n <= p.Length
      modifies this, p
      ensures Valid() && pos == old(pos) + k
      ensures k <= n && (k == 0 <==> n == 0 || old(pos) == |data|)
      ensures forall i :: at <= i < at + k ==> p[i] == data[old(pos) - at + i]
      ensures forall i :: 0 <= i < p.Length && !(at <= i < at + k) ==> p[i] == old(p[i])
    {
      if n == 0 || pos == |data| {
        return 0;
      }
      k :| 1 <= k <= n && k <= |data| - pos;
      forall i | 0 <= i < k {
        p[at + i] := data[pos + i];
      }
      pos := pos + k;
    }
  }

  // ------------------------------------------------------- the output buffer

  /** The put area starts at the front of the buffer; epptr leaves the last slot for overflow. */
  class OutBuffer {
    const sink: Sink
    const buffer: array<char>
    var bufferSize: nat
    var pptr: nat
    var epptr: nat

    ghost predicate Valid()
      reads this
    {
      1 <= bufferSize <= buffer.Length && pptr <= epptr < buffer.Length
    }

    ghost function Pending(): seq<char>
      requires Valid()
      reads this, buffer
    {
      buffer[..pptr]
    }

    /** Everything put so far: what the handle has taken and what is still in the buffer. */
    ghost function Everything(): seq<char>
      requires Valid()
      reads this, buffer, sink
    {
      sink.accepted + Pending()
    }

    constructor (sink: Sink)
      ensures Valid() && fresh(buffer) && this.sink == sink
      ensures Pending() == [] && bufferSize == DEFAULT_BUFFER_SIZE && epptr == DEFAULT_BUFFER_SIZE - 1
    {
      this.sink := sink;
      buffer := new char[DEFAULT_BUFFER_SIZE](i => '\0');
      bufferSize := DEFAULT_BUFFER_SIZE;
      pptr, epptr := 0, DEFAULT_BUFFER_SIZE - 1;
    }

    method ResetBuffer()
      requires Valid()
      modifies this
      ensures Valid() && bufferSize == old(bufferSize)
      ensures Pending() == [] && epptr == bufferSize - 1
    {
      pptr, epptr := 0, bufferSize - 1;
    }

    /** Writes out the buffer and, in the spare slot, one more character if there is one. */
    method Overflow(c: Option<char>)
      requires Valid()
      modifies this, buffer, sink
      ensures Valid() && bufferSize == old(bufferSize) && epptr == bufferSize - 1
      ensures Pending() == []
      ensures sink.accepted == old(Everything()) + (if c.Some? then [c.value] else [])
    {
      ghost var all := buffer[..pptr] + (if c.Some? then [c.value] else []);
      var p, bytesToWrite := 0, pptr;
      if c.Some? {
        buffer[pptr] := c.value;
        bytesToWrite := bytesToWrite + 1;
      }
      assert buffer[..bytesToWrite] == all;
      while bytesToWrite > 0
        invariant Valid() && bufferSize == old(bufferSize)
        invariant 0 <= p && 0 <= bytesToWrite && p + bytesToWrite == |all| <= buffer.Length
        invariant buffer[..|all|] == all
        invariant sink.accepted == old(sink.accepted) + all[..p]
      {
        var bytesWritten := sink.Write(buffer, p, bytesToWrite);
        assert all[..p + bytesWritten] == all[..p] + buffer[p..p + bytesWritten];
        Assoc(old(sink.accepted), all[..p], buffer[p..p + bytesWritten]);
        bytesToWrite := bytesToWrite - bytesWritten;
        p := p + bytesWritten;
      }
      assert all[..p] == all;
      Assoc(old(sink.accepted), old(Pending()), if c.Some? then [c.value] else []);
      ResetBuffer();
    }

    /** Afterwards the handle has taken everything. */
    method Sync() returns (status: int)
      requires Valid()
      modifies this, buffer, sink
      ensures Valid() && bufferSize == old(bufferSize)
      ensures status == 0 && Pending() == [] && sink.accepted == old(Everything())
    {
      Overflow(None);
      assert old(Everything()) + [] == old(Everything());
      status := 0;
    }

    /** The standard library's single put: into the buffer if there is room before the spare slot. */
    method Sputc(c: char)
      requires Valid()
      modifies this, buffer, sink
      ensures Valid() && bufferSize == old(bufferSize)
      ensures Everything() == old(Everything()) + [c]
    {
      if pptr < epptr {
        buffer[pptr] := c;
        Assoc(sink.accepted, old(Pending()), [c]);
        pptr := pptr + 1;
        assert Pending() == old(Pending()) + [c];
      } else {
        Overflow(Some(c));
        assert Everything() == sink.accepted;
      }
    }

    /** The standard library's block put: fills the buffer, overflowing as often as it has to. */
    method BaseXsputn(s: array<char>, n: nat)
      requires Valid() && n <= s.Length && s != buffer
      modifies this, buffer, sink
      ensures Valid() && bufferSize == old(bufferSize)
      ensures Everything() == old(Everything()) + s[..n]
    {
      var done := 0;
      assert s[..0] == [] && old(Everything()) + [] == old(Everything());
      while done < n
        invariant Valid() && bufferSize == old(bufferSize) && 0 <= done <= n
        invariant Everything() == old(Everything()) + s[..done]
      {
        done := FillBuffer(s, n, done);
        if done < n {
          Assoc(old(Everything()), s[..done], [s[done]]);
          assert s[..done + 1] == s[..done] + [s[done]];
          Overflow(Some(s[done]));
          assert Everything() == sink.accepted;
          done := done + 1;
        }
      }
    }

    /** Copies as much of s, from position `done` on, as fits before the spare slot. */
    method FillBuffer(s: array<char>, n: nat, done: nat) returns (next: nat)
      requires Valid() && done <= n <= s.Length && s != buffer
      modifies this`pptr, buffer
      ensures Valid() && done <= next <= n && (next == n || pptr == epptr)
      ensures Pending() == old(Pending()) + s[done..next]
      ensures forall before: seq<char> :: old(Everything()) == before + s[..done] ==> Everything() == before + s[..next]
    {
      var len := Min(epptr - pptr, n - done);
      next := done + len;
      forall i | 0 <= i < len {
        buffer[pptr + i] := s[done + i];
      }
      pptr := pptr + len;
      assert Pending() == old(Pending()) + s[done..next];
      Assoc(sink.accepted, old(Pending()), s[done..next]);
      forall before: seq<char> | old(Everything()) == before + s[..done]
        ensures Everything() == before + s[..next]
      {
        assert s[..next] == s[..done] + s[done..next];
        Assoc(before, s[..done], s[done..next]);
      }
    }

    /** Large blocks go straight to the handle, after what is already in the buffer. */
    method Xsputn(s: array<char>, n: nat) returns (count: nat)
      requires Valid() && n <= s.Length && s != buffer
      modifies this, buffer, sink
      ensures Valid() && bufferSize == old(bufferSize)
      ensures count == n && Everything() == old(Everything()) + s[..n]
    {
      if n < Min(4096, epptr - pptr) {
        BaseXsputn(s, n);
        return n;
      }
      if pptr != 0 {
        Overflow(None);
        assert old(Everything()) + [] == old(Everything());
      }
      assert sink.accepted + Pending() == sink.accepted == old(Everything());
      var p, bytesToWrite := 0, n;
      while bytesToWrite > 0
        invariant Valid() && bufferSize == old(bufferSize) && pptr == 0
        invariant 0 <= p && 0 <= bytesToWrite && p + bytesToWrite == n
        invariant sink.accepted == old(Everything()) + s[..p]
      {
        var bytesWritten := sink.Write(s, p, bytesToWrite);
        assert s[..p + bytesWritten] == s[..p] + s[p..p + bytesWritten];
        Assoc(old(Everything()), s[..p], s[p..p + bytesWritten]);
        bytesToWrite := bytesToWrite - bytesWritten;
        p := p + bytesWritten;
      }
      assert Everything() == sink.accepted;
      count := n;
    }

    /**
     Meant to switch to unbuffered output without losing what is pending. Resetting the put area
     moves the put pointer back to its start before the distance to advance it by is computed, so
     the pending characters are kept exactly if there are none.
     */
    method SetBufUnbuffered()
      requires Valid()
      modifies this
      ensures Valid() && bufferSize == 1 && Pending() == []
      ensures Everything() == old(Everything()) <==> old(Pending()) == []
      ensures old(Pending()) == [] ==> pptr == epptr
    {
      ghost var before := Pending();
      epptr := pptr;
      pptr := 0;
      pptr := pptr + (pptr - 0);
      bufferSize := 1;
      assert sink.accepted + before == sink.accepted ==> |before| == 0;
      assert sink.accepted + [] == sink.accepted;
    }
  }

  // --------------------------------------------------------- any mix of puts

  datatype PutOp = PutChar(c: char) | PutBlock(s: seq<char>) | SyncOp

  ghost function PutBy(ops: seq<PutOp>): seq<char> {
    if ops == [] then []
    else PutBy(ops[..|ops| - 1]) + PutByOne(ops[|ops| - 1])
  }

  ghost function PutByOne(op: PutOp): seq<char> {
    match op
    case PutChar(c) => [c]
    case PutBlock(s) => s
    case SyncOp => []
  }

  method DoPut(out: OutBuffer, op: PutOp)
    requires out.Valid()
    modifies out, out.buffer, out.sink
    ensures out.Valid()
    ensures out.Everything() == old(out.Everything()) + PutByOne(op)
    ensures op.SyncOp? ==> out.Pending() == []
  {
    match op {
      case PutChar(c) => out.Sputc(c);
      case PutBlock(s) =>
        var block := new char[|s|](i requires 0 <= i < |s| => s[i]);
        assert block[..|s|] == s;
        var count := out.Xsputn(block, |s|);
      case SyncOp =>
        var status := out.Sync();
        assert out.Everything() == out.sink.accepted + [];
    }
  }

  /** Whatever is put in whatever way, and however little the handle takes at a time, it all arrives in order. */
  method PutAll(sink: Sink, ops: seq<PutOp>) returns (out: OutBuffer)
    modifies sink
    ensures out.Valid() && out.sink == sink && out.Everything() == old(sink.accepted) + PutBy(ops)
    ensures ops != [] && ops[|ops| - 1].SyncOp? ==> sink.accepted == old(sink.accepted) + PutBy(ops)
  {
    out := new OutBuffer(sink);
    var i := 0;
    while i < |ops|
      invariant 0 <= i <= |ops| && out.Valid() && out.sink == sink && fresh(out) && fresh(out.buffer)
      invariant out.Everything() == old(sink.accepted) + PutBy(ops[..i])
      invariant i > 0 && ops[i - 1].SyncOp? ==> out.Pending() == []
    {
      DoPut(out, ops[i]);
      assert ops[..i + 1][..i] == ops[..i];
      Assoc(old(sink.accepted), PutBy(ops[..i]), PutByOne(ops[i]));
      i := i + 1;
    }
    assert ops[..i] == ops;
    assert out.Pending() == [] ==> out.Everything() == sink.accepted;
  }

  // -------------------------------------------------------- the input buffer

  /** Reads until n characters of s are filled, of which `total` are there already, or the source ends. */
  method ReadFully(source: Source, s: array<char>, n: nat, total: nat) returns (count: nat)
    requires source.Valid() && total <= n <= s.Length
    modifies source, s
    ensures source.Valid() && count == Min(n, total + (|source.data| - old(source.pos)))
    ensures source.pos == old(source.pos) + (count - total)
    ensures forall i :: total <= i < count ==> s[i] == source.data[old(source.pos) - total + i]
    ensures forall i :: 0 <= i < s.Length && !(total <= i < count) ==> s[i] == old(s[i])
  {
    count := total;
    while count < n
      invariant source.Valid() && total <= count <= n && source.pos == old(source.pos) + (count - total)
      invariant forall i :: total <= i < count ==> s[i] == source.data[old(source.pos) - total + i]
      invariant forall i :: 0 <= i < s.Length && !(total <= i < count) ==> s[i] == old(s[i])
      decreases n - count
    {
      var bytesRead := source.Read(s, count, n - count);
      if bytesRead == 0 {
        break;
      }
      count := count + bytesRead;
    }
  }

  /**
   Up to four characters already delivered are kept in front of position 4 so that they can be put
   back; new ones are read from position 4 on. The next character is at gptr, the end at egptr.
   */
  class InBuffer {
    const source: Source
    const buffer: array<char>
    var bufferSize: nat
    var eback: nat
    var gptr: nat
    var egptr: nat

    ghost predicate Valid()
      reads this, buffer, source
    {
      && source.Valid() && buffer.Length == DEFAULT_BUFFER_SIZE + PUTBACK_SIZE
      && 1 <= bufferSize <= DEFAULT_BUFFER_SIZE
      && eback <= PUTBACK_SIZE <= egptr <= buffer.Length && eback <= gptr <= egptr
      && egptr - gptr <= source.pos
      && forall i :: gptr <= i < egptr ==> buffer[i] == source.data[source.pos - egptr + i]
    }

    /** How many characters of the source have been delivered. */
    ghost function Delivered(): nat
      requires Valid()
      reads this, buffer, source
    {
      source.pos - (egptr - gptr)
    }

    /** The characters that can be put back are the last ones delivered. */
    ghost predicate PutbackIntact()
      requires Valid()
      reads this, buffer, source
    {
      && egptr - eback <= source.pos
      && forall i :: eback <= i < gptr ==> buffer[i] == source.data[source.pos - egptr + i]
    }

    /** How many characters can be put back. */
    ghost function Room(): nat
      requires Valid()
      reads this, buffer, source
    {
      gptr - eback
    }

    constructor (source: Source)
      requires source.Valid()
      ensures Valid() && fresh(buffer) && this.source == source
      ensures Delivered() == source.pos && PutbackIntact() && Room() == 0
    {
      this.source := source;
      buffer := new char[DEFAULT_BUFFER_SIZE + PUTBACK_SIZE](i => '\0');
      bufferSize := DEFAULT_BUFFER_SIZE;
      eback, gptr, egptr := PUTBACK_SIZE, PUTBACK_SIZE, PUTBACK_SIZE;
    }

    /**
     The next character without taking it; none at the end of the source. At the end the putback
     area has been shifted although the pointers have not, so that it only stays intact if nothing
     had been read into the buffer or nothing had been kept.
     */
    method Underflow() returns (c: Option<char>)
      requires Valid()
      modifies this`eback, this`gptr, this`egptr, buffer, source
      ensures Valid() && Delivered() == old(Delivered())
      ensures c == if Delivered() < |source.data| then Some(source.data[Delivered()]) else None
      ensures c.Some? ==> gptr < egptr && (old(PutbackIntact()) ==> PutbackIntact())
      ensures c.Some? ==> Room() >= Min(PUTBACK_SIZE, old(Room()))
      ensures c.None? ==> gptr == egptr
      ensures c.None? && (gptr == PUTBACK_SIZE || eback == PUTBACK_SIZE) && old(PutbackIntact()) ==> PutbackIntact()
    {
      if gptr >= egptr {
        var nPutback := KeepRecent();
        var nRead := source.Read(buffer, PUTBACK_SIZE, bufferSize);
        if nRead == 0 {
          return None;
        }
        eback, gptr, egptr := PUTBACK_SIZE - nPutback, PUTBACK_SIZE, PUTBACK_SIZE + nRead;
      }
      c := Some(buffer[gptr]);
    }

    /** Moves the characters delivered last to the putback area, which they may overlap. */
    method KeepRecent() returns (nPutback: nat)
      requires Valid() && gptr == egptr
      modifies buffer
      ensures Valid() && nPutback == Min(gptr - eback, PUTBACK_SIZE)
      ensures forall i :: PUTBACK_SIZE - nPutback <= i < PUTBACK_SIZE ==>
                  buffer[i] == old(buffer[gptr - PUTBACK_SIZE + i])
      ensures forall i :: 0 <= i < buffer.Length && !(PUTBACK_SIZE - nPutback <= i < PUTBACK_SIZE) ==>
                  buffer[i] == old(buffer[i])
    {
      nPutback := Min(gptr - eback, PUTBACK_SIZE);
      forall i | PUTBACK_SIZE - nPutback <= i < PUTBACK_SIZE {
        buffer[i] := buffer[gptr - PUTBACK_SIZE + i];
      }
    }

    /** The standard library's peek. */
    method Sgetc() returns (c: Option<char>)
      requires Valid()
      modifies this`eback, this`gptr, this`egptr, buffer, source
      ensures Valid() && Delivered() == old(Delivered())
      ensures c == if Delivered() < |source.data| then Some(source.data[Delivered()]) else None
      ensures c.Some? ==> gptr < egptr && Room() >= Min(PUTBACK_SIZE, old(Room()))
      ensures c.Some? && old(PutbackIntact()) ==> PutbackIntact()
    {
      if gptr < egptr {
        return Some(buffer[gptr]);
      }
      c := Underflow();
    }

    /** The standard library's get: the same character, and it is delivered. */
    method Sbumpc() returns (c: Option<char>)
      requires Valid()
      modifies this`eback, this`gptr, this`egptr, buffer, source
      ensures Valid()
      ensures c == if old(Delivered()) < |source.data| then Some(source.data[old(Delivered())]) else None
      ensures Delivered() == old(Delivered()) + (if c.Some? then 1 else 0)
      ensures c.Some? ==> Room() >= Min(PUTBACK_SIZE, old(Room()) + 1)
      ensures c.Some? && old(PutbackIntact()) ==> PutbackIntact()
    {
      c := Sgetc();
      if c.Some? {
        Bump(1);
      }
    }

    /** The standard library's unget: goes back by one character if there is room for that. */
    method Sungetc() returns (c: Option<char>)
      requires Valid() && PutbackIntact()
      modifies this`gptr
      ensures Valid() && PutbackIntact()
      ensures c.Some? <==> old(Room()) > 0
      ensures c.Some? ==> Delivered() == old(Delivered()) - 1 && Room() == old(Room()) - 1
      ensures c.Some? ==> c.value == source.data[Delivered()]
      ensures c.None? ==> Delivered() == old(Delivered())
    {
      if gptr == eback {
        return None;
      }
      gptr := gptr - 1;
      c := Some(buffer[gptr]);
    }

    /** Moves the get pointer over characters that are in the buffer. */
    method Bump(n: nat)
      requires Valid() && n <= egptr - gptr
      modifies this`gptr
      ensures Valid() && gptr == old(gptr) + n && Delivered() == old(Delivered()) + n
      ensures Room() == old(Room()) + n && (old(PutbackIntact()) ==> PutbackIntact())
    {
      gptr := gptr + n;
    }

    /** The standard library's block get: empties the buffer and refills it as often as it has to. */
    method BaseXsgetn(s: array<char>, n: nat) returns (count: nat)
      requires Valid() && n <= s.Length && s != buffer
      modifies this`eback, this`gptr, this`egptr, buffer, source, s
      ensures Valid() && count == Min(n, |source.data| - old(Delivered()))
      ensures Delivered() == old(Delivered()) + count
      ensures forall i :: 0 <= i < count ==> s[i] == source.data[old(Delivered()) + i]
      ensures forall i :: count <= i < s.Length ==> s[i] == old(s[i])
      ensures count == n ==> Room() >= Min(PUTBACK_SIZE, old(Room()) + n)
      ensures count == n && old(PutbackIntact()) ==> PutbackIntact()
    {
      hide PutbackIntact, Room;
      count := 0;
      ghost var from := Delivered();
      while count < n
        invariant Valid() && 0 <= count <= n && Delivered() == from + count
        invariant forall i :: 0 <= i < count ==> s[i] == source.data[from + i]
        invariant forall i :: count <= i < s.Length ==> s[i] == old(s[i])
        invariant Room() >= Min(PUTBACK_SIZE, old(Room()) + count) && (old(PutbackIntact()) ==> PutbackIntact())
        decreases n - count
      {
        count := TakeBuffered(s, n, count);
        if count < n {
          var c := Sbumpc();
          if c.None? {
            break;
          }
          s[count] := c.value;
          count := count + 1;
        }
      }
    }

    /** Copies what is in the buffer to s, behind the `done` characters that are there already. */
    method TakeBuffered(s: array<char>, n: nat, done: nat) returns (next: nat)
      requires Valid() && done <= n <= s.Length && s != buffer
      modifies this`gptr, s
      ensures Valid() && next == Min(n, done + old(egptr - gptr))
      ensures Delivered() == old(Delivered()) + (next - done)
      ensures Room() == old(Room()) + (next - done) && (old(PutbackIntact()) ==> PutbackIntact())
      ensures forall i :: 0 <= i < s.Length && !(done <= i < next) ==> s[i] == old(s[i])
      ensures forall i :: done <= i < next ==> s[i] == source.data[old(Delivered()) - done + i]
    {
      var len := Min(egptr - gptr, n - done);
      next := done + len;
      forall i | done <= i < next {
        s[i] := buffer[gptr - done + i];
      }
      Bump(len);
    }

    /** Large blocks are read straight from the handle, after what is already in the buffer. */
    method Xsgetn(s: array<char>, n: nat) returns (count: nat)
      requires Valid() && n <= s.Length && s != buffer
      modifies this`eback, this`gptr, this`egptr, buffer, source, s
      ensures Valid() && count == Min(n, |source.data| - old(Delivered()))
      ensures Delivered() == old(Delivered()) + count
      ensures forall i :: 0 <= i < count ==> s[i] == source.data[old(Delivered()) + i]
      ensures forall i :: count <= i < s.Length ==> s[i] == old(s[i])
      ensures count == n ==> Room() >= Min(PUTBACK_SIZE, old(Room()) + n)
      ensures count == n && old(PutbackIntact()) ==> PutbackIntact()
    {
      var bytesAvailable := egptr - gptr;
      if n < bytesAvailable + 4096 {
        count := BaseXsgetn(s, n);
        return;
      }
      var total := TakeBuffered(s, n, 0);
      count := ReadFully(source, s, n, total);
      RefillPutback(s, count);
    }

    /** Keeps the last characters of a direct read for putting back; the buffer is empty otherwise. */
    method RefillPutback(s: array<char>, total: nat)
      requires Valid() && gptr == egptr && total <= s.Length && s != buffer
      requires total <= source.pos && forall i :: 0 <= i < total ==> s[i] == source.data[source.pos - total + i]
      modifies this`eback, this`gptr, this`egptr, buffer
      ensures Valid() && gptr == egptr && PutbackIntact() && Room() == Min(total, PUTBACK_SIZE)
    {
      var nPutback := Min(total, PUTBACK_SIZE);
      forall i | PUTBACK_SIZE - nPutback <= i < PUTBACK_SIZE {
        buffer[i] := s[total - PUTBACK_SIZE + i];
      }
      eback, gptr, egptr := PUTBACK_SIZE - nPutback, PUTBACK_SIZE, PUTBACK_SIZE;
    }

    /** Unbuffered reading: takes effect when the buffer is next refilled, so nothing is lost. */
    method SetBufUnbuffered()
      requires Valid()
      modifies this`bufferSize
      ensures Valid() && bufferSize == 1 && Delivered() == old(Delivered())
      ensures Room() == old(Room()) && (old(PutbackIntact()) ==> PutbackIntact())
    {
      bufferSize := 1;
    }
  }

  // --------------------------------------------------------- any mix of gets

  datatype GetOp = Peek | GetChar | GetBlock(n: nat) | Unbuffer

  /** What one operation returns when the characters `left` are still to come, and how many it takes. */
  ghost function Expected(left: seq<char>, op: GetOp): (seq<char>, nat) {
    match op
    case Peek => (left[..Min(1, |left|)], 0)
    case GetChar => (left[..Min(1, |left|)], Min(1, |left|))
    case GetBlock(n) => (left[..Min(n, |left|)], Min(n, |left|))
    case Unbuffer => ([], 0)
  }

  ghost function ExpectedAll(left: seq<char>, ops: seq<GetOp>): seq<seq<char>>
    decreases |ops|
  {
    if ops == [] then []
    else
      var (result, taken) := Expected(left, ops[0]);
      [result] + ExpectedAll(left[taken..], ops[1..])
  }

  /** What the operations that take characters return, one after the other. */
  ghost function Taken(left: seq<char>, ops: seq<GetOp>): seq<char>
    decreases |ops|
  {
    if ops == [] then []
    else
      var (result, taken) := Expected(left, ops[0]);
      (if ops[0].Peek? then [] else result) + Taken(left[taken..], ops[1..])
  }

  /** In the expected results nothing is skipped, repeated or reordered. */
  lemma {:induction false} TakenInOrder(left: seq<char>, ops: seq<GetOp>)
    ensures Taken(left, ops) <= left
    decreases |ops|
  {
    if ops != [] {
      var taken := Expected(left, ops[0]).1;
      TakenInOrder(left[taken..], ops[1..]);
      assert left == left[..taken] + left[taken..];
    }
  }

  /** The operation does not run into the end of the source. */
  ghost predicate Full(left: seq<char>, op: GetOp) {
    match op
    case Peek => left != []
    case GetChar => left != []
    case GetBlock(n) => n <= |left|
    case Unbuffer => true
  }

  ghost predicate AllFull(left: seq<char>, ops: seq<GetOp>)
    decreases |ops|
  {
    ops == [] || (Full(left, ops[0]) && AllFull(left[Expected(left, ops[0]).1..], ops[1..]))
  }

  method DoGet(input: InBuffer, op: GetOp) returns (result: seq<char>)
    requires input.Valid()
    modifies input, input.buffer, input.source
    ensures input.Valid()
    ensures var left := input.source.data[old(input.Delivered())..]; var e := Expected(left, op);
            && result == e.0 && input.Delivered() == old(input.Delivered()) + e.1
            && (Full(left, op) ==> input.Room() >= Min(4, old(input.Room()) + e.1))
            && (Full(left, op) && old(input.PutbackIntact()) ==> input.PutbackIntact())
  {
    ghost var left := input.source.data[input.Delivered()..];
    match op {
      case Peek =>
        var c := input.Sgetc();
        result := if c.Some? then [c.value] else [];
        assert c.Some? ==> left[..1] == [c.value];
      case GetChar =>
        var c := input.Sbumpc();
        result := if c.Some? then [c.value] else [];
        assert c.Some? ==> left[..1] == [c.value];
      case GetBlock(n) =>
        var block := new char[n](i => '\0');
        var count := input.Xsgetn(block, n);
        result := block[..count];
        assert result == left[..count];
      case Unbuffer =>
        input.SetBufUnbuffered();
        result := [];
    }
  }

  /** The operations one after the other; the last characters taken can be put back if none met the end. */
  method DoGets(input: InBuffer, ops: seq<GetOp>) returns (results: seq<seq<char>>)
    requires input.Valid()
    modifies input, input.buffer, input.source
    ensures input.Valid()
    ensures var left := input.source.data[old(input.Delivered())..]; var taken := |Taken(left, ops)|;
            && results == ExpectedAll(left, ops) && input.Delivered() == old(input.Delivered()) + taken
            && (AllFull(left, ops) ==> input.Room() >= Min(4, old(input.Room()) + taken))
            && (AllFull(left, ops) && old(input.PutbackIntact()) ==> input.PutbackIntact())
  {
    hide Expected, Full;
    ghost var all, start, room := input.source.data, input.Delivered(), input.Room();
    ghost var intact := input.PutbackIntact();
    results := [];
    var i := 0;
    assert ops[0..] == ops;
    while i < |ops|
      invariant 0 <= i <= |ops| && input.Valid() && start <= input.Delivered()
      invariant results + ExpectedAll(all[input.Delivered()..], ops[i..]) == ExpectedAll(all[start..], ops)
      invariant |Taken(all[start..], ops)| == input.Delivered() - start + |Taken(all[input.Delivered()..], ops[i..])|
      invariant AllFull(all[start..], ops) ==>
                  && AllFull(all[input.Delivered()..], ops[i..])
                  && input.Room() >= Min(4, room + (input.Delivered() - start))
                  && (intact ==> input.PutbackIntact())
    {
      ghost var left := all[input.Delivered()..];
      var result := DoGet(input, ops[i]);
      ghost var taken := Expected(left, ops[i]).1;
      assert left[taken..] == all[input.Delivered()..];
      assert ops[i..][1..] == ops[i + 1..];
      Assoc(results, [result], ExpectedAll(left[taken..], ops[i + 1..]));
      TakenByOne(left, ops[i..]);
      results := results + [result];
      i := i + 1;
    }
    assert results + [] == results;
  }

  lemma TakenByOne(left: seq<char>, ops: seq<GetOp>)
    requires ops != []
    ensures var taken := Expected(left, ops[0]).1;
            |Taken(left, ops)| == taken + |Taken(left[taken..], ops[1..])|
  {
  }

  /** Every mix of reads gets what a plain queue would give it, however little the handle gives at a time. */
  method GetAll(source: Source, ops: seq<GetOp>) returns (results: seq<seq<char>>)
    requires source.Valid()
    modifies source
    ensures results == ExpectedAll(source.data[old(source.pos)..], ops)
  {
    var input := new InBuffer(source);
    results := DoGets(input, ops);
  }

  /**
   After any mix of reads that did not meet the end of the source, up to four characters can be put
   back, and they are the last ones taken, last first.
   */
  method GetAllThenUnget(source: Source, ops: seq<GetOp>, k: nat) returns (results: seq<seq<char>>, back: seq<char>)
    requires source.Valid()
    requires var left := source.data[source.pos..];
             AllFull(left, ops) && k <= 4 && k <= |Taken(left, ops)|
    modifies source
    ensures var left := source.data[old(source.pos)..]; var taken := Taken(left, ops);
            && results == ExpectedAll(left, ops)
            && |back| == k && forall j :: 0 <= j < k ==> back[j] == taken[|taken| - 1 - j]
  {
    hide ExpectedAll, AllFull, Expected, InBuffer.Valid, InBuffer.PutbackIntact, InBuffer.Room, InBuffer.Delivered;
    ghost var left, start := source.data[source.pos..], source.pos;
    ghost var taken := Taken(left, ops);
    TakenInOrder(left, ops);
    hide Taken;
    var input := new InBuffer(source);
    results := DoGets(input, ops);
    back := [];
    while |back| < k
      invariant |back| <= k && input.Valid() && input.PutbackIntact() && input.source == source
      invariant input.Room() >= k - |back| && input.Delivered() == start + |taken| - |back|
      invariant fresh(input) && forall j :: 0 <= j < |back| ==> back[j] == taken[|taken| - 1 - j]
    {
      var c := input.Sungetc();
      assert c.value == left[|taken| - 1 - |back|];
      back := back + [c.value];
    }
  }

  // -------------------------------------- putting back in between

  datatype MixedOp = Read(op: GetOp) | Unget

  /**
   These are results that the operations may have from position pos of the source on. Reads return
   what is there. Putting back returns the character before; it may only be refused where not as many
   as `room` characters, at most four, have been taken and not put back. Once a read has met the end of
   the source, the run stops when something is to be put back.
   */
  ghost predicate Follows(data: seq<char>, pos: nat, room: nat, met: bool, ops: seq<MixedOp>, results: seq<seq<char>>)
    requires pos <= |data|
    decreases |ops|
  {
    if ops == [] || (met && ops[0].Unget?) then results == []
    else
      && results != []
      && match ops[0]
         case Read(op) =>
           var e := Expected(data[pos..], op);
           && results[0] == e.0
           && Follows(data, pos + e.1, Min(4, room + e.1), met || !Full(data[pos..], op), ops[1..],
                      results[1..])
         case Unget =>
           if results[0] == [] then room == 0 && Follows(data, pos, 0, false, ops[1..], results[1..])
           else
             && pos > 0 && results[0] == [data[pos - 1]]
             && Follows(data, pos - 1, if room > 0 then room - 1 else 0, false, ops[1..], results[1..])
  }

  lemma FollowsRead(data: seq<char>, pos: nat, room: nat, met: bool, ops: seq<MixedOp>, result: seq<char>,
                    tail: seq<seq<char>>)
    requires pos <= |data| && ops != [] && ops[0].Read? && result == Expected(data[pos..], ops[0].op).0
    ensures var taken := Expected(data[pos..], ops[0].op).1;
            Follows(data, pos + taken, Min(4, room + taken), met || !Full(data[pos..], ops[0].op), ops[1..],
                    tail)
            ==> Follows(data, pos, room, met, ops, [result] + tail)
  {
    hide Full;
    assert ([result] + tail)[1..] == tail;
  }

  lemma FollowsUnget(data: seq<char>, pos: nat, room: nat, ops: seq<MixedOp>, result: Option<char>,
                     tail: seq<seq<char>>)
    requires pos <= |data| && ops != [] && ops[0].Unget?
    requires result.None? ==> room == 0
    requires result.Some? ==> pos > 0 && result.value == data[pos - 1]
    ensures var next := if result.Some? then pos - 1 else pos;
            var left := if result.Some? && room > 0 then room - 1 else 0;
            Follows(data, next, left, false, ops[1..], tail)
            ==> Follows(data, pos, room, false, ops, [if result.Some? then [result.value] else []] + tail)
  {
    var first := if result.Some? then [result.value] else [];
    assert ([first] + tail)[1..] == tail;
  }

  lemma FollowsEnd(data: seq<char>, pos: nat, room: nat, met: bool, ops: seq<MixedOp>)
    requires pos <= |data| && (ops == [] || (met && ops[0].Unget?))
    ensures Follows(data, pos, room, met, ops, [])
  {
  }

  /** A result that shows that the end of the source was met. */
  predicate Short(op: GetOp, result: seq<char>) {
    match op
    case Peek => result == []
    case GetChar => result == []
    case GetBlock(n) => |result| < n
    case Unbuffer => false
  }

  lemma ShortIs(left: seq<char>, op: GetOp)
    ensures Short(op, Expected(left, op).0) <==> !Full(left, op)
  {
  }

  /**
   Any mix of reads and putting back: what is put back is what was taken, last first, and is read
   again in order.
   */
  method GetMixed(source: Source, ops: seq<MixedOp>) returns (results: seq<seq<char>>)
    requires source.Valid()
    modifies source
    ensures Follows(source.data, old(source.pos), 0, false, ops, results)
  {
    hide Follows, Full, Expected, Short, InBuffer.PutbackIntact, InBuffer.Room;
    ghost var data, start := source.data, source.pos;
    var input := new InBuffer(source);
    ghost var room: nat := 0;
    var met := false;
    results := [];
    assert ops[0..] == ops && forall tail: seq<seq<char>> :: [] + tail == tail;
    var i := 0;
    while i < |ops| && !(met && ops[i].Unget?)
      invariant 0 <= i <= |ops| && input.Valid() && input.source == source && fresh(input) && fresh(input.buffer)
      invariant input.Delivered() <= |data| && (!met ==> input.PutbackIntact() && input.Room() >= room)
      invariant forall tail :: Follows(data, input.Delivered(), room, met, ops[i..], tail)
                           ==> Follows(data, start, 0, false, ops, results + tail)
    {
      ghost var pos, rest, sofar := input.Delivered(), ops[i..], results;
      ghost var before: nat := room;
      assert rest[1..] == ops[i + 1..];
      match ops[i] {
        case Read(op) =>
          var result := DoGet(input, op);
          ghost var was := met;
          ShortIs(data[pos..], op);
          room := Min(4, room + (input.Delivered() - pos));
          met := met || Short(op, result);
          results := results + [result];
          forall tail | Follows(data, input.Delivered(), room, met, ops[i + 1..], tail)
            ensures Follows(data, start, 0, false, ops, results + tail)
          {
            FollowsRead(data, pos, before, was, rest, result, tail);
            Assoc(sofar, [result], tail);
          }
        case Unget =>
          var c := input.Sungetc();
          room := if c.Some? && room > 0 then room - 1 else 0;
          results := results + [if c.Some? then [c.value] else []];
          forall tail | Follows(data, input.Delivered(), room, met, ops[i + 1..], tail)
            ensures Follows(data, start, 0, false, ops, results + tail)
          {
            FollowsUnget(data, pos, before, rest, c, tail);
            Assoc(sofar, [if c.Some? then [c.value] else []], tail);
          }
      }
      i := i + 1;
    }
    FollowsEnd(data, input.Delivered(), room, met, ops[i..]);
    assert results + [] == results;
  }
}
