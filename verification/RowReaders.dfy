/**
 Streaming rows as bytes: sources of rows, several sources read as one, and a byte reader on top. The bytes delivered
 must not depend on the sizes of the buffers they are read into.
 */
module RowReaders {
  newtype byte = x: int | 0 <= x < 256

  datatype Err = Nil | Eof | Failure(message: string)

  /** What one call of a row reader returns. */
  datatype Reply = Reply(row: seq<byte>, err: Err)

  // ---------------------------------------------------------------- what the readers do, on values

  /** A source that has given all its replies keeps answering with end of file. */
  function Pull(script: seq<Reply>): (Reply, seq<Reply>) {
    if script == [] then (Reply([], Eof), []) else (script[0], script[1..])
  }

  /** One read from the sources not yet exhausted, and those that are left. */
  function ReadNext(scripts: seq<seq<Reply>>): (Reply, seq<seq<Reply>>)
    requires scripts != []
  {
    var (r, rest) := Pull(scripts[0]);
    match r.err
    case Eof => if |scripts| == 1 then (Reply([], Eof), []) else ReadNext(scripts[1..])
    case Failure(_) => (Reply([], r.err), [rest] + scripts[1..])
    case Nil => (r, [rest] + scripts[1..])
  }

  datatype ReaderState = ReaderState(buffer: seq<byte>, eof: bool, totalBytesRead: int, obsCount: int)

  /** Counters wrap around at their widths. */
  function Wrap32(n: int): (w: int)
    ensures -0x8000_0000 <= w < 0x8000_0000
    decreases if n >= 0x8000_0000 then n - 0x7FFF_FFFF else if n < -0x8000_0000 then -0x8000_0000 - n else 0
  {
    if n >= 0x8000_0000 then Wrap32(n - 0x1_0000_0000) else if n < -0x8000_0000 then Wrap32(n + 0x1_0000_0000) else n
  }

  function Wrap64(n: int): (w: int)
    ensures -0x8000_0000_0000_0000 <= w < 0x8000_0000_0000_0000
    decreases
      if n >= 0x8000_0000_0000_0000 then n - 0x7FFF_FFFF_FFFF_FFFF
      else if n < -0x8000_0000_0000_0000 then -0x8000_0000_0000_0000 - n else 0
  {
    if n >= 0x8000_0000_0000_0000 then Wrap64(n - 0x1_0000_0000_0000_0000)
    else if n < -0x8000_0000_0000_0000 then Wrap64(n + 0x1_0000_0000_0000_0000)
    else n
  }

  /** What is buffered after asking for a row, if one had to be asked for. */
  function Refill(st: ReaderState, reply: Reply): ReaderState {
    if st.buffer != [] || reply.err.Failure? then st
    else ReaderState(reply.row, st.eof || reply.err == Eof, st.totalBytesRead, Wrap32(st.obsCount + 1))
  }

  function Min(a: nat, b: nat): nat { if a < b then a else b }

  /** Hands over as much of the buffer as fits; the end is reported with the last bytes. */
  function Deliver(full: ReaderState, cap: nat): (ReaderState, seq<byte>, Err) {
    var n := Min(cap, |full.buffer|);
    var total := Wrap64(full.totalBytesRead + n);
    if |full.buffer| > cap then
      (full.(buffer := full.buffer[n..], totalBytesRead := total), full.buffer[..n], Nil)
    else
      (full.(buffer := [], totalBytesRead := total), full.buffer[..n], if full.eof then Eof else Nil)
  }

  /** One read into a buffer of `cap` bytes: the new state, the bytes delivered and the error. */
  function ReadBytes(st: ReaderState, reply: Reply, cap: nat): (ReaderState, seq<byte>, Err) {
    if st.buffer == [] && reply.err.Failure? then (st, [], reply.err) else Deliver(Refill(st, reply), cap)
  }

  // ---------------------------------------------------------------- the readers

  class RowSource {
    var script: seq<Reply>

    constructor (script: seq<Reply>)
      ensures this.script == script
    {
      this.script := script;
    }

    method Read() returns (row: seq<byte>, err: Err)
      modifies this
      ensures (Reply(row, err), script) == Pull(old(script))
    {
      if script == [] {
        return [], Eof;
      }
      row, err := script[0].row, script[0].err;
      script := script[1..];
    }
  }

  class CompositeRowReader {
    const readers: seq<RowSource>
    var readerIndex: nat

    constructor (readers: seq<RowSource>)
      requires forall i, j | 0 <= i < j < |readers| :: readers[i] != readers[j]
      ensures Valid() && this.readers == readers && readerIndex == 0
    {
      this.readers := readers;
      readerIndex := 0;
    }

    ghost predicate Valid()
      reads this
    {
      && (forall i, j | 0 <= i < j < |readers| :: readers[i] != readers[j])
      && readerIndex <= |readers|
    }

    /** What the readers from `k` on have still to give. */
    ghost function ScriptsFrom(k: nat): (scripts: seq<seq<Reply>>)
      requires k <= |readers|
      reads readers
      ensures |scripts| == |readers| - k
      ensures forall i | k <= i < |readers| :: scripts[i - k] == readers[i].script
      decreases |readers| - k
    {
      if k == |readers| then [] else [readers[k].script] + ScriptsFrom(k + 1)
    }

    ghost function Remaining(): seq<seq<Reply>>
      requires Valid()
      reads this, readers
    {
      ScriptsFrom(readerIndex)
    }

    /** Reading again after the end of the last source is out of range, so there must be a source left. */
    method Read() returns (row: seq<byte>, err: Err)
      requires Valid() && readerIndex < |readers|
      modifies this`readerIndex, readers
      ensures Valid() && (Reply(row, err), Remaining()) == ReadNext(old(Remaining()))
      decreases |readers| - readerIndex
    {
      ghost var before := Remaining();
      row, err := readers[readerIndex].Read();
      ghost var later := ScriptsFrom(readerIndex + 1);
      forall i | 0 <= i < |later| ensures later[i] == before[i + 1] {
        var j := readerIndex + 1 + i;
        assert readers[j] != readers[readerIndex] && readers[j].script == old(readers[j].script);
      }
      assert later == before[1..];
      if err == Eof {
        readerIndex := readerIndex + 1;
        if readerIndex == |readers| {
          return [], Eof;
        }
        row, err := Read();
      } else if err != Nil {
        return [], err;
      }
    }
  }

  /** Go's copy: as much of `src` as fits into `p`. */
  method Copy(p: array<byte>, src: seq<byte>) returns (n: nat)
    modifies p
    ensures n == Min(p.Length, |src|)
    ensures p[..n] == src[..n] && p[n..] == old(p[n..])
  {
    n := Min(p.Length, |src|);
    forall i | 0 <= i < n {
      p[i] := src[i];
    }
  }

  class Reader {
    const csvRowReader: CompositeRowReader
    var buffer: seq<byte>
    var eof: bool
    var totalBytesRead: int
    var obsCount: int

    constructor (csvRowReader: CompositeRowReader)
      requires csvRowReader.Valid()
      ensures Valid() && this.csvRowReader == csvRowReader && State() == ReaderState([], false, 0, 0)
    {
      this.csvRowReader := csvRowReader;
      buffer, eof, totalBytesRead, obsCount := [], false, 0, 0;
    }

    ghost predicate Valid()
      reads this, csvRowReader
    {
      csvRowReader.Valid()
    }

    ghost function State(): ReaderState
      reads this
    {
      ReaderState(buffer, eof, totalBytesRead, obsCount)
    }

    /** What a row reader's next reply would be; a non-empty buffer does not ask for one. */
    ghost function NextReply(): (Reply, seq<seq<Reply>>)
      requires Valid() && (buffer == [] ==> csvRowReader.readerIndex < |csvRowReader.readers|)
      reads this, csvRowReader, csvRowReader.readers
    {
      if buffer == [] then ReadNext(csvRowReader.Remaining()) else (Reply([], Nil), csvRowReader.Remaining())
    }

    /** The first part of Read: asks for a row if the last one has been used up. */
    method FillBuffer() returns (err: Err)
      requires Valid() && (buffer == [] ==> csvRowReader.readerIndex < |csvRowReader.readers|)
      modifies this, csvRowReader, csvRowReader.readers
      ensures Valid() && csvRowReader.Remaining() == old(NextReply()).1
      ensures State() == Refill(old(State()), old(NextReply()).0)
      ensures err == if old(buffer) == [] && old(NextReply()).0.err.Failure? then old(NextReply()).0.err else Nil
    {
      err := Nil;
      if |buffer| == 0 {
        var csvRow, rowErr := csvRowReader.Read();
        if rowErr == Eof {
          eof := true;
        } else if rowErr != Nil {
          return rowErr;
        }
        buffer := csvRow;
        obsCount := Wrap32(obsCount + 1);
      }
    }

    /** The row reader is asked only when the buffer is empty, and must then have a source left. */
    method Read(p: array<byte>) returns (n: nat, err: Err)
      requires Valid() && (buffer == [] ==> csvRowReader.readerIndex < |csvRowReader.readers|)
      modifies this, p, csvRowReader, csvRowReader.readers
      ensures Valid() && csvRowReader.Remaining() == old(NextReply()).1
      ensures n <= p.Length && (State(), p[..n], err) == ReadBytes(old(State()), old(NextReply()).0, p.Length)
      ensures p[n..] == old(p[n..])
    {
      err := FillBuffer();
      if err != Nil {
        return 0, err;
      }
      var copied := Copy(p, buffer);
      totalBytesRead := Wrap64(totalBytesRead + copied);
      if |buffer| > p.Length {
        buffer := buffer[copied..];
      } else {
        buffer := [];
        if eof {
          return copied, Eof;
        }
      }
      return copied, Nil;
    }
  }
}
