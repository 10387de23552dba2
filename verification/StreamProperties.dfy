/** The bytes a consumer gets from the readers, for every choice of buffer sizes. */
module StreamProperties {
  import opened RowReaders

  // ---------------------------------------------------------------- several sources as one

  /** The rows and failures a source gives before its end; a row that comes with the end is dropped. */
  ghost function BeforeEnd(script: seq<Reply>): seq<Reply> {
    if script == [] || script[0].err == Eof then []
    else [if script[0].err.Failure? then Reply([], script[0].err) else script[0]] + BeforeEnd(script[1..])
  }

  ghost function Flatten(scripts: seq<seq<Reply>>): seq<Reply> {
    if scripts == [] then [] else BeforeEnd(scripts[0]) + Flatten(scripts[1..])
  }

  /** Reading the sources one after another is reading the concatenation of what each gives before its end. */
  lemma {:induction false} CompositeIsConcatenation(scripts: seq<seq<Reply>>)
    requires scripts != []
    ensures var (r, rest) := ReadNext(scripts);
      if Flatten(scripts) == [] then r == Reply([], Eof) && rest == []
      else r == Flatten(scripts)[0] && rest != [] && Flatten(rest) == Flatten(scripts)[1..]
    decreases |scripts|
  {
    var (r, rest) := Pull(scripts[0]);
    if r.err == Eof {
      NothingFirst(scripts);
      if |scripts| > 1 {
        CompositeIsConcatenation(scripts[1..]);
      }
    } else {
      PulledOne(scripts);
    }
  }

  lemma NothingFirst(scripts: seq<seq<Reply>>)
    requires scripts != [] && Pull(scripts[0]).0.err == Eof
    ensures Flatten(scripts) == Flatten(scripts[1..]) && (|scripts| == 1 ==> Flatten(scripts) == [])
  {
    assert BeforeEnd(scripts[0]) == [];
  }

  lemma PulledOne(scripts: seq<seq<Reply>>)
    requires scripts != [] && Pull(scripts[0]).0.err != Eof
    ensures var (r, rest) := ReadNext(scripts);
      Flatten(scripts) != [] && r == Flatten(scripts)[0] && rest != [] && Flatten(rest) == Flatten(scripts)[1..]
  {
    var (r, rest) := Pull(scripts[0]);
    FlattenFirst(rest, scripts[1..]);
    HeadFirst(BeforeEnd(scripts[0])[0], BeforeEnd(rest), Flatten(scripts[1..]));
  }

  lemma FlattenFirst(first: seq<Reply>, others: seq<seq<Reply>>)
    ensures Flatten([first] + others) == BeforeEnd(first) + Flatten(others)
  {
    assert ([first] + others)[1..] == others;
  }

  lemma HeadFirst(r: Reply, a: seq<Reply>, b: seq<Reply>)
    ensures ([r] + a) + b == [r] + (a + b)
  {
  }

  // ---------------------------------------------------------------- what a stream of replies contains

  /** The reply at the head of a stream; a stream that is used up is at its end. */
  ghost function Head(replies: seq<Reply>): Reply { if replies == [] then Reply([], Eof) else replies[0] }

  ghost function Tail(replies: seq<Reply>): seq<Reply> { if replies == [] then [] else replies[1..] }

  /** All the bytes up to the first end of file or failure. */
  ghost function Bytes(replies: seq<Reply>): seq<byte> {
    if replies == [] || replies[0].err.Failure? then []
    else replies[0].row + if replies[0].err == Eof then [] else Bytes(replies[1..])
  }

  ghost function Ending(replies: seq<Reply>): Err {
    if replies == [] then Eof else if replies[0].err == Nil then Ending(replies[1..]) else replies[0].err
  }

  /** How often a row is asked for with an answer other than a failure: every row, and the end of file. */
  ghost function Asked(replies: seq<Reply>): nat {
    if replies == [] || replies[0].err == Eof then 1
    else if replies[0].err.Failure? then 0
    else 1 + Asked(replies[1..])
  }

  // ---------------------------------------------------------------- one read

  /** What is still to be delivered, and how it will end. */
  ghost function Pending(st: ReaderState, replies: seq<Reply>): seq<byte> {
    st.buffer + if st.eof then [] else Bytes(replies)
  }

  ghost function PendingEnd(st: ReaderState, replies: seq<Reply>): Err { if st.eof then Eof else Ending(replies) }

  ghost function PendingAsked(st: ReaderState, replies: seq<Reply>): nat { if st.eof then 0 else Asked(replies) }

  /** A reader that has not yet reported the end. */
  ghost predicate Open(st: ReaderState) { st.eof ==> st.buffer != [] }

  ghost function NextOf(st: ReaderState, replies: seq<Reply>): Reply {
    if st.buffer == [] then Head(replies) else Reply([], Nil)
  }

  ghost function After(st: ReaderState, replies: seq<Reply>): seq<Reply> {
    if st.buffer == [] then Tail(replies) else replies
  }

  lemma Turn32(n: int)
    ensures Wrap32(n + 0x1_0000_0000) == Wrap32(n)
  {
  }

  lemma Turn64(n: int)
    ensures Wrap64(n + 0x1_0000_0000_0000_0000) == Wrap64(n)
  {
  }

  lemma {:induction false} WrapAdds(a: int, b: int)
    ensures Wrap32(Wrap32(a) + b) == Wrap32(a + b)
    decreases if a >= 0x8000_0000 then a - 0x7FFF_FFFF else if a < -0x8000_0000 then -0x8000_0000 - a else 0
  {
    if a >= 0x8000_0000 {
      WrapAdds(a - 0x1_0000_0000, b);
      Turn32(a - 0x1_0000_0000 + b);
    } else if a < -0x8000_0000 {
      WrapAdds(a + 0x1_0000_0000, b);
      Turn32(a + b);
    }
  }

  lemma {:induction false} WrapAdds64(a: int, b: int)
    ensures Wrap64(Wrap64(a) + b) == Wrap64(a + b)
    decreases
      if a >= 0x8000_0000_0000_0000 then a - 0x7FFF_FFFF_FFFF_FFFF
      else if a < -0x8000_0000_0000_0000 then -0x8000_0000_0000_0000 - a else 0
  {
    if a >= 0x8000_0000_0000_0000 {
      WrapAdds64(a - 0x1_0000_0000_0000_0000, b);
      Turn64(a - 0x1_0000_0000_0000_0000 + b);
    } else if a < -0x8000_0000_0000_0000 {
      WrapAdds64(a + 0x1_0000_0000_0000_0000, b);
      Turn64(a + b);
    }
  }

  lemma RefillKeeps(st: ReaderState, replies: seq<Reply>)
    requires Open(st) && !(st.buffer == [] && Head(replies).err.Failure?)
    ensures var full := Refill(st, NextOf(st, replies)); var rest := After(st, replies);
      && Pending(full, rest) == Pending(st, replies) && PendingEnd(full, rest) == PendingEnd(st, replies)
      && full.totalBytesRead == st.totalBytesRead
      && Wrap32(full.obsCount + PendingAsked(full, rest)) == Wrap32(st.obsCount + PendingAsked(st, replies))
      && (st.buffer == [] ==> PendingAsked(full, rest) == PendingAsked(st, replies) - 1)
  {
    if st.buffer == [] {
      WrapAdds(st.obsCount + 1, PendingAsked(Refill(st, NextOf(st, replies)), After(st, replies)));
    }
  }

  /** The counters hold values that fit their widths. */
  ghost predicate InRange(st: ReaderState) {
    Wrap64(st.totalBytesRead) == st.totalBytesRead && Wrap32(st.obsCount) == st.obsCount
  }

  lemma SplitBuffer(buffer: seq<byte>, n: nat, more: seq<byte>)
    requires n <= |buffer|
    ensures buffer[..n] + (buffer[n..] + more) == buffer + more
    ensures n == |buffer| ==> buffer[..n] == buffer
  {
  }

  lemma DeliverKeeps(full: ReaderState, rest: seq<Reply>, cap: nat)
    requires cap > 0
    ensures var (next, out, err) := Deliver(full, cap);
      && !err.Failure? && (err == Eof ==> full.eof)
      && out + (if err == Nil then Pending(next, rest) else []) == Pending(full, rest)
      && (err == Nil ==> Open(next))
      && next.eof == full.eof && next.obsCount == full.obsCount
      && next.totalBytesRead == Wrap64(full.totalBytesRead + |out|)
      && (full.buffer != [] ==> out != [])
  {
    SplitBuffer(full.buffer, Min(cap, |full.buffer|), if full.eof then [] else Bytes(rest));
  }

  /** What one read must keep, given the state and the stream before it and what it returned. */
  ghost predicate KeptBy(st: ReaderState, replies: seq<Reply>, next: ReaderState, rest: seq<Reply>, out: seq<byte>, err: Err) {
    && out + (if err == Nil then Pending(next, rest) else []) == Pending(st, replies)
    && (err != Nil ==> err == PendingEnd(st, replies))
    && (err == Nil ==> Open(next) && PendingEnd(next, rest) == PendingEnd(st, replies))
    && Wrap64(next.totalBytesRead) == Wrap64(st.totalBytesRead + |out|)
    && (InRange(st) ==> InRange(next))
    && Wrap32(st.obsCount + PendingAsked(st, replies))
       == Wrap32(next.obsCount + if err == Nil then PendingAsked(next, rest) else 0)
  }

  /** One read delivers the next bytes, keeps the totals right, and reports the end exactly when nothing is pending. */
  lemma ReadStep(st: ReaderState, replies: seq<Reply>, cap: nat)
    requires Open(st) && cap > 0
    ensures var (next, out, err) := ReadBytes(st, NextOf(st, replies), cap); var rest := After(st, replies);
      && KeptBy(st, replies, next, rest, out, err)
      && (err == Nil ==> |Pending(next, rest)| + PendingAsked(next, rest) < |Pending(st, replies)| + PendingAsked(st, replies))
  {
    if st.buffer == [] && Head(replies).err.Failure? {
    } else {
      RefillKeeps(st, replies);
      var full := Refill(st, NextOf(st, replies));
      DeliverKeeps(full, After(st, replies), cap);
      WrapAdds64(full.totalBytesRead + |Deliver(full, cap).1|, 0);
      WrapAdds(st.obsCount + 1, 0);
    }
  }

  // ---------------------------------------------------------------- a whole drain

  /** Reads into buffers of the given sizes until one read reports an error: the bytes, the error, and the final state. */
  ghost function Drain(st: ReaderState, replies: seq<Reply>, caps: seq<nat>): (seq<byte>, Err, ReaderState)
    decreases |caps|
  {
    if caps == [] then ([], Nil, st)
    else
      var (next, out, err) := ReadBytes(st, NextOf(st, replies), caps[0]);
      if err != Nil then (out, err, next)
      else
        var (more, last, final) := Drain(next, After(st, replies), caps[1..]);
        (out + more, last, final)
  }

  ghost predicate Positive(caps: seq<nat>) { caps == [] || (caps[0] > 0 && Positive(caps[1..])) }

  lemma {:induction false} DrainBytes(st: ReaderState, replies: seq<Reply>, caps: seq<nat>)
    requires Open(st) && Positive(caps)
    ensures var (out, err, final) := Drain(st, replies, caps);
      && out <= Pending(st, replies)
      && (err != Nil ==> out == Pending(st, replies) && err == PendingEnd(st, replies))
      && (|caps| > |Pending(st, replies)| + PendingAsked(st, replies) ==> err != Nil)
    decreases |caps|
  {
    if caps != [] {
      ReadStep(st, replies, caps[0]);
      var (next, out, err) := ReadBytes(st, NextOf(st, replies), caps[0]);
      if err == Nil {
        DrainBytes(next, After(st, replies), caps[1..]);
      }
    }
  }

  /** What the counters will be at the end. */
  ghost function TotalAtEnd(st: ReaderState, replies: seq<Reply>): int { Wrap64(st.totalBytesRead + |Pending(st, replies)|) }

  ghost function RowsAtEnd(st: ReaderState, replies: seq<Reply>): int { Wrap32(st.obsCount + PendingAsked(st, replies)) }

  /** One read does not change what the counters will be at the end, and at the end that is what they are. */
  lemma StepKeepsTotals(st: ReaderState, replies: seq<Reply>, next: ReaderState, rest: seq<Reply>, out: seq<byte>, err: Err)
    requires KeptBy(st, replies, next, rest, out, err) && InRange(st)
    ensures InRange(next)
    ensures err == Nil ==> TotalAtEnd(next, rest) == TotalAtEnd(st, replies) && RowsAtEnd(next, rest) == RowsAtEnd(st, replies)
    ensures err != Nil ==> next.totalBytesRead == TotalAtEnd(st, replies) && next.obsCount == RowsAtEnd(st, replies)
  {
    if err == Nil {
      TotalMoves(st.totalBytesRead, next.totalBytesRead, |out|, |Pending(next, rest)|);
    }
  }

  lemma TotalMoves(a: int, b: int, m: nat, n: nat)
    requires Wrap64(b) == Wrap64(a + m)
    ensures Wrap64(b + n) == Wrap64(a + (m + n))
  {
    WrapAdds64(b, n);
    WrapAdds64(a + m, n);
  }

  lemma {:induction false} DrainCounters(st: ReaderState, replies: seq<Reply>, caps: seq<nat>)
    requires Open(st) && InRange(st) && Positive(caps) && Drain(st, replies, caps).1 != Nil
    ensures Drain(st, replies, caps).2.totalBytesRead == TotalAtEnd(st, replies)
    ensures Drain(st, replies, caps).2.obsCount == RowsAtEnd(st, replies)
    decreases |caps|
  {
    ReadStep(st, replies, caps[0]);
    var (next, out, err) := ReadBytes(st, NextOf(st, replies), caps[0]);
    StepKeepsTotals(st, replies, next, After(st, replies), out, err);
    if err == Nil {
      DrainCounters(next, After(st, replies), caps[1..]);
    }
  }

  const START: ReaderState := ReaderState([], false, 0, 0)

  lemma StartHasAll(replies: seq<Reply>)
    ensures Open(START) && InRange(START)
    ensures Pending(START, replies) == Bytes(replies) && PendingEnd(START, replies) == Ending(replies)
    ensures TotalAtEnd(START, replies) == Wrap64(|Bytes(replies)|) && RowsAtEnd(START, replies) == Wrap32(Asked(replies))
  {
    var bytes, rows := Bytes(replies), Asked(replies);
    assert Pending(START, replies) == bytes;
    assert START.totalBytesRead + |Pending(START, replies)| == |bytes|;
    assert START.obsCount + PendingAsked(START, replies) == rows;
  }

  /**
   Independence of buffer sizes. Whatever positive sizes are used, a drain that reaches the end has delivered exactly
   the bytes of the stream and reports how the stream ends; the totals depend on the stream alone; a drain cut short
   has delivered a prefix; and one read per byte and per row asked for, and one more, always reach the end.
   */
  lemma BufferSizesDoNotMatter(replies: seq<Reply>, caps: seq<nat>)
    requires Positive(caps)
    ensures var (out, err, final) := Drain(START, replies, caps);
      && out <= Bytes(replies)
      && (err != Nil ==> out == Bytes(replies) && err == Ending(replies)
                         && final.totalBytesRead == Wrap64(|Bytes(replies)|) && final.obsCount == Wrap32(Asked(replies)))
      && (|caps| > |Bytes(replies)| + Asked(replies) ==> err != Nil)
  {
    DrainDelivers(replies, caps);
    DrainReports(replies, caps);
  }

  lemma DrainDelivers(replies: seq<Reply>, caps: seq<nat>)
    requires Positive(caps)
    ensures var (out, err, final) := Drain(START, replies, caps);
      && out <= Bytes(replies)
      && (err != Nil ==> out == Bytes(replies) && err == Ending(replies))
      && (|caps| > |Bytes(replies)| + Asked(replies) ==> err != Nil)
  {
    StartHasAll(replies);
    DrainBytes(START, replies, caps);
  }

  lemma DrainReports(replies: seq<Reply>, caps: seq<nat>)
    requires Positive(caps)
    ensures var (out, err, final) := Drain(START, replies, caps);
      err != Nil ==> final.totalBytesRead == Wrap64(|Bytes(replies)|) && final.obsCount == Wrap32(Asked(replies))
  {
    StartHasAll(replies);
    if Drain(START, replies, caps).1 != Nil {
      DrainCounters(START, replies, caps);
    }
  }

  // ---------------------------------------------------------------- sources of rows

  /** A source of rows: replies without error, then the end. */
  ghost predicate IsRows(script: seq<Reply>) {
    script != [] && script[|script| - 1] == Reply([], Eof) && forall i | 0 <= i < |script| - 1 :: script[i].err == Nil
  }

  ghost function Rows(script: seq<Reply>): seq<seq<byte>> {
    if script == [] || script[0].err != Nil then [] else [script[0].row] + Rows(script[1..])
  }

  ghost function AllRows(scripts: seq<seq<Reply>>): seq<seq<byte>> {
    if scripts == [] then [] else Rows(scripts[0]) + AllRows(scripts[1..])
  }

  ghost function Concat(rows: seq<seq<byte>>): seq<byte> { if rows == [] then [] else rows[0] + Concat(rows[1..]) }

  /** A stream of plain rows. */
  ghost function Plain(rows: seq<seq<byte>>): seq<Reply> {
    if rows == [] then [] else [Reply(rows[0], Nil)] + Plain(rows[1..])
  }

  lemma {:induction false} PlainJoins(a: seq<seq<byte>>, b: seq<seq<byte>>)
    ensures Plain(a + b) == Plain(a) + Plain(b)
  {
    if a == [] {
      assert a + b == b;
    } else {
      PlainJoins(a[1..], b);
      assert (a + b)[1..] == a[1..] + b;
    }
  }

  lemma {:induction false} RowsBeforeEnd(script: seq<Reply>)
    requires IsRows(script)
    ensures BeforeEnd(script) == Plain(Rows(script))
  {
    if |script| > 1 {
      RowsBeforeEnd(script[1..]);
    }
  }

  lemma {:induction false} FlattenRows(scripts: seq<seq<Reply>>)
    requires forall i | 0 <= i < |scripts| :: IsRows(scripts[i])
    ensures Flatten(scripts) == Plain(AllRows(scripts))
  {
    if scripts != [] {
      RowsBeforeEnd(scripts[0]);
      FlattenRows(scripts[1..]);
      PlainJoins(Rows(scripts[0]), AllRows(scripts[1..]));
    }
  }

  lemma {:induction false} PlainStream(rows: seq<seq<byte>>)
    ensures Bytes(Plain(rows)) == Concat(rows) && Ending(Plain(rows)) == Eof && Asked(Plain(rows)) == |rows| + 1
  {
    if rows != [] {
      PlainStream(rows[1..]);
      assert Plain(rows)[1..] == Plain(rows[1..]);
    }
  }

  /** Over sources of rows the stream is the rows of all of them, one source after another. */
  lemma SourcesOfRows(scripts: seq<seq<Reply>>)
    requires forall i | 0 <= i < |scripts| :: IsRows(scripts[i])
    ensures Bytes(Flatten(scripts)) == Concat(AllRows(scripts))
    ensures Ending(Flatten(scripts)) == Eof && Asked(Flatten(scripts)) == |AllRows(scripts)| + 1
  {
    FlattenRows(scripts);
    PlainStream(AllRows(scripts));
  }

  // ---------------------------------------------------------------- draining the reader itself

  /** A reader that has not reported the end still has a source to ask; its counters fit their widths. */
  ghost predicate CanRead(reader: Reader)
    reads reader, reader.csvRowReader
  {
    reader.Valid() && Open(reader.State()) && InRange(reader.State())
    && (!reader.eof ==> reader.csvRowReader.readerIndex < |reader.csvRowReader.readers|)
  }

  ghost function Stream(reader: Reader): seq<Reply>
    requires reader.Valid()
    reads reader, reader.csvRowReader, reader.csvRowReader.readers
  {
    Flatten(reader.csvRowReader.Remaining())
  }

  /** What the reader asks its sources for is the head of their concatenation. */
  lemma {:induction false} AsksForHead(st: ReaderState, scripts: seq<seq<Reply>>, next: (Reply, seq<seq<Reply>>))
    requires st.buffer == [] ==> scripts != []
    requires next == if st.buffer == [] then ReadNext(scripts) else (Reply([], Nil), scripts)
    ensures next.0 == NextOf(st, Flatten(scripts)) && Flatten(next.1) == After(st, Flatten(scripts))
    ensures st.buffer == [] && next.0.err != Eof ==> next.1 != []
  {
    if st.buffer == [] {
      CompositeIsConcatenation(scripts);
    }
  }

  ghost function Left(reader: Reader): seq<byte>
    requires reader.Valid()
    reads reader, reader.csvRowReader, reader.csvRowReader.readers
  {
    Pending(reader.State(), Stream(reader))
  }

  ghost function LeftEnd(reader: Reader): Err
    requires reader.Valid()
    reads reader, reader.csvRowReader, reader.csvRowReader.readers
  {
    PendingEnd(reader.State(), Stream(reader))
  }

  ghost function ReadsLeft(reader: Reader): nat
    requires reader.Valid()
    reads reader, reader.csvRowReader, reader.csvRowReader.readers
  {
    |Left(reader)| + PendingAsked(reader.State(), Stream(reader))
  }

  ghost function FinalTotal(reader: Reader): int
    requires reader.Valid()
    reads reader, reader.csvRowReader, reader.csvRowReader.readers
  {
    TotalAtEnd(reader.State(), Stream(reader))
  }

  ghost function FinalRows(reader: Reader): int
    requires reader.Valid()
    reads reader, reader.csvRowReader, reader.csvRowReader.readers
  {
    RowsAtEnd(reader.State(), Stream(reader))
  }

  /** One Read call of the reader is one step of the drain. */
  method ReadOnce(reader: Reader, p: array<byte>) returns (n: nat, err: Err)
    requires CanRead(reader) && p.Length > 0
    modifies reader, p, reader.csvRowReader, reader.csvRowReader.readers
    ensures n <= p.Length && reader.Valid() && (err == Nil ==> CanRead(reader))
    ensures err == Nil ==> p[..n] + Left(reader) == old(Left(reader)) && LeftEnd(reader) == old(LeftEnd(reader))
    ensures err == Nil ==> ReadsLeft(reader) < old(ReadsLeft(reader))
    ensures err != Nil ==> p[..n] == old(Left(reader)) && err == old(LeftEnd(reader))
    ensures err == Nil ==> FinalTotal(reader) == old(FinalTotal(reader)) && FinalRows(reader) == old(FinalRows(reader))
    ensures err != Nil ==> reader.totalBytesRead == old(FinalTotal(reader)) && reader.obsCount == old(FinalRows(reader))
  {
    ghost var st, replies := reader.State(), Stream(reader);
    AsksForHead(st, reader.csvRowReader.Remaining(), reader.NextReply());
    ReadStep(st, replies, p.Length);
    n, err := reader.Read(p);
    assert (reader.State(), p[..n], err) == ReadBytes(st, NextOf(st, replies), p.Length);
    assert Stream(reader) == After(st, replies);
    StepKeepsTotals(st, replies, reader.State(), After(st, replies), p[..n], err);
  }

  /** Reads until an error is reported, into a new buffer of some positive size each time. */
  method ReadAll(reader: Reader) returns (out: seq<byte>, err: Err)
    requires CanRead(reader)
    modifies reader, reader.csvRowReader, reader.csvRowReader.readers
    ensures err != Nil && out == old(Left(reader)) && err == old(LeftEnd(reader))
    ensures reader.totalBytesRead == old(FinalTotal(reader)) && reader.obsCount == old(FinalRows(reader))
    decreases ReadsLeft(reader)
  {
    var size: int := *;
    var p := new byte[if size > 0 then size else 1];
    var n;
    n, err := ReadOnce(reader, p);
    out := p[..n];
    if err == Nil {
      var more;
      more, err := ReadAll(reader);
      out := out + more;
    }
  }

  /** A new reader over a composite of at least one source has the whole stream before it. */
  lemma NewReaderHasWholeStream(reader: Reader)
    requires reader.Valid() && reader.State() == START && reader.csvRowReader.readerIndex < |reader.csvRowReader.readers|
    ensures CanRead(reader) && Left(reader) == Bytes(Stream(reader)) && LeftEnd(reader) == Ending(Stream(reader))
    ensures FinalTotal(reader) == Wrap64(|Bytes(Stream(reader))|) && FinalRows(reader) == Wrap32(Asked(Stream(reader)))
  {
    StartHasAll(Stream(reader));
  }

  ghost function ScriptsOf(sources: seq<RowSource>): seq<seq<Reply>>
    reads sources
  {
    if sources == [] then [] else [sources[0].script] + ScriptsOf(sources[1..])
  }

  lemma {:induction false} ScriptsFromIs(c: CompositeRowReader, k: nat)
    requires k <= |c.readers|
    ensures c.ScriptsFrom(k) == ScriptsOf(c.readers[k..])
    decreases |c.readers| - k
  {
    if k < |c.readers| {
      ScriptsFromIs(c, k + 1);
      assert c.readers[k..][1..] == c.readers[k + 1..];
    }
  }

  /**
   From end to end: a new reader over the sources, drained with whatever buffers, delivers the bytes of the stream up to its
   first end or failure and reports which it was, with the number of those bytes and of the rows asked for in its counters.
   */
  method StreamEverything(sources: seq<RowSource>) returns (reader: Reader, out: seq<byte>, err: Err)
    requires sources != [] && forall i, j | 0 <= i < j < |sources| :: sources[i] != sources[j]
    modifies sources
    ensures var stream := Flatten(old(ScriptsOf(sources)));
      && out == Bytes(stream) && err == Ending(stream)
      && reader.totalBytesRead == Wrap64(|Bytes(stream)|) && reader.obsCount == Wrap32(Asked(stream))
  {
    ghost var stream := Flatten(ScriptsOf(sources));
    var composite := new CompositeRowReader(sources);
    ScriptsFromIs(composite, 0);
    assert sources[0..] == sources;
    reader := new Reader(composite);
    assert reader.csvRowReader == composite && composite.readers == sources;
    assert Stream(reader) == stream;
    NewReaderHasWholeStream(reader);
    out, err := ReadAll(reader);
  }

  /** Over sources of rows that is all the rows, one source after another, up to the end. */
  method StreamRows(sources: seq<RowSource>) returns (reader: Reader, out: seq<byte>, err: Err)
    requires sources != [] && forall i, j | 0 <= i < j < |sources| :: sources[i] != sources[j]
    requires forall i | 0 <= i < |ScriptsOf(sources)| :: IsRows(ScriptsOf(sources)[i])
    modifies sources
    ensures var rows := AllRows(old(ScriptsOf(sources)));
      && out == Concat(rows) && err == Eof
      && reader.totalBytesRead == Wrap64(|Concat(rows)|) && reader.obsCount == Wrap32(|rows| + 1)
  {
    SourcesOfRows(ScriptsOf(sources));
    reader, out, err := StreamEverything(sources);
  }
}
