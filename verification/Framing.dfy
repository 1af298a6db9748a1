/** Cutting a byte stream that arrives in chunks into newline-terminated records. */
module Framing {
  import opened Wrappers

  const NEWLINE: byte := 10
  const MAX_RECORD_BYTES: nat := 1_000_000

  /** A consumer's step: its next state, and its result when it is done. */
  type Consumer<!S, !R> = (S, seq<byte>) -> (S, Option<R>)

  /** How the stream ends: by the consumer, at a record over the bound, or with no more bytes. */
  datatype Outcome<S, R> = Done(state: S, result: R) | TooLong(state: S) | AtEnd(state: S)

  /** Offset of the first newline, or the length when there is none. */
  function NewlineAt(data: seq<byte>): (i: nat)
    ensures i <= |data| && forall j :: 0 <= j < i ==> data[j] != NEWLINE
    ensures i < |data| ==> data[i] == NEWLINE
  {
    if data == [] || data[0] == NEWLINE then 0 else 1 + NewlineAt(data[1..])
  }

  /** The whole stream split at its newlines; a last record may lack its newline. */
  function Records(data: seq<byte>): seq<seq<byte>> {
    if data == [] then []
    else
      var i := NewlineAt(data);
      if i == |data| then [data] else [data[..i]] + Records(data[i + 1..])
  }

  function Rejoin(records: seq<seq<byte>>): seq<byte> {
    if records == [] then [] else records[0] + [NEWLINE] + Rejoin(records[1..])
  }

  /** The newline that the last record lacks, if it lacks one. */
  function MissingNewline(data: seq<byte>): seq<byte> {
    if data == [] || data[|data| - 1] == NEWLINE then [] else [NEWLINE]
  }

  /** The records hold every byte of the stream in order, and none holds a newline. */
  lemma {:induction false} RecordsAreTheLines(data: seq<byte>)
    ensures forall r :: r in Records(data) ==> (10 as byte) !in r
    ensures Rejoin(Records(data)) == data + MissingNewline(data)
  {
    hide Rejoin, MissingNewline;
    var i := NewlineAt(data);
    if i == |data| {
      EndsWithoutNewline(data);
    } else {
      var rest := data[i + 1..];
      RecordsAreTheLines(rest);
      MissingNewlineOfRest(data, i);
      RejoinHead(data[..i], Records(rest));
      assert data == data[..i] + [NEWLINE] + rest;
    }
  }

  lemma EndsWithoutNewline(data: seq<byte>)
    requires NewlineAt(data) == |data|
    ensures Rejoin(if data == [] then [] else [data]) == data + MissingNewline(data)
  {
  }

  lemma MissingNewlineOfRest(data: seq<byte>, i: nat)
    requires i < |data| && data[i] == NEWLINE
    ensures MissingNewline(data[i + 1..]) == MissingNewline(data)
  {
  }

  lemma RejoinHead(record: seq<byte>, records: seq<seq<byte>>)
    ensures Rejoin([record] + records) == record + [NEWLINE] + Rejoin(records)
  {
    assert ([record] + records)[1..] == records;
  }

  function Consume<S, R>(records: seq<seq<byte>>, state: S, step: Consumer<S, R>): Outcome<S, R> {
    if records == [] then AtEnd(state)
    else if |records[0]| > MAX_RECORD_BYTES then TooLong(state)
    else
      var (state', result) := step(state, records[0]);
      if result.Some? then Done(state', result.value) else Consume(records[1..], state', step)
  }

  function Concat(chunks: seq<seq<byte>>): seq<byte> {
    if chunks == [] then [] else chunks[0] + Concat(chunks[1..])
  }

  /** What consuming a stream comes to: the records of the whole, one after another. */
  function Run<S, R>(data: seq<byte>, state: S, step: Consumer<S, R>): Outcome<S, R> {
    Consume(Records(data), state, step)
  }

  /** The bound on a record is a million bytes; what is longer ends the stream, and what is not is consumed. */
  lemma ConsumeIs<S, R>(record: seq<byte>, rest: seq<seq<byte>>, state: S, step: Consumer<S, R>)
    ensures |record| > 1_000_000 ==> Consume([record] + rest, state, step) == TooLong(state)
    ensures |record| <= 1_000_000 ==>
      Consume([record] + rest, state, step) ==
        var (state', result) := step(state, record);
        if result.Some? then Done(state', result.value) else Consume(rest, state', step)
  {
    assert ([record] + rest)[1..] == rest;
  }

  lemma FirstRecord(pending: seq<byte>, rest: seq<byte>)
    requires NEWLINE in pending
    ensures var i := NewlineAt(pending);
      i < |pending| && Records(pending + rest) == [pending[..i]] + Records(pending[i + 1..] + rest)
  {
    var i, all := NewlineAt(pending), pending + rest;
    assert i < |pending| && all[i] == NEWLINE;
    assert forall j :: 0 <= j < i ==> all[j] == pending[j];
    assert NewlineAt(all) == i;
    assert all[..i] == pending[..i] && all[i + 1..] == pending[i + 1..] + rest;
  }

  /** A newline in the pending bytes ends a record, whatever follows. */
  lemma RecordEnds<S, R>(pending: seq<byte>, rest: seq<byte>, state: S, step: Consumer<S, R>)
    requires NEWLINE in pending
    ensures var i := NewlineAt(pending);
      && i < |pending|
      && Run(pending + rest, state, step) ==
           if i > MAX_RECORD_BYTES then TooLong(state)
           else
             var (state', result) := step(state, pending[..i]);
             if result.Some? then Done(state', result.value) else Run(pending[i + 1..] + rest, state', step)
  {
    FirstRecord(pending, rest);
    var i := NewlineAt(pending);
    assert ([pending[..i]] + Records(pending[i + 1..] + rest))[1..] == Records(pending[i + 1..] + rest);
  }

  /** Bytes without a newline all belong to one record, which may already be too long. */
  lemma RecordGrows<S, R>(pending: seq<byte>, rest: seq<byte>, state: S, step: Consumer<S, R>)
    requires NEWLINE !in pending && |pending| > MAX_RECORD_BYTES
    ensures Run(pending + rest, state, step) == TooLong(state)
  {
    var all := pending + rest;
    assert forall j :: 0 <= j < |pending| ==> all[j] == pending[j];
    assert NewlineAt(all) >= |pending|;
  }

  /** At the end of the stream the pending bytes are the last record. */
  lemma StreamEnds<S, R>(pending: seq<byte>, state: S, step: Consumer<S, R>)
    requires NEWLINE !in pending && |pending| <= MAX_RECORD_BYTES
    ensures Run(pending, state, step) ==
      if pending == [] then AtEnd(state)
      else
        var (state', result) := step(state, pending);
        if result.Some? then Done(state', result.value) else AtEnd(state')
  {
    if pending != [] {
      assert Records(pending) == [pending] && [pending][1..] == [];
      assert Consume([], step(state, pending).0, step) == AtEnd(step(state, pending).0);
    }
  }

  /**
   Reads the chunks and consumes each record as soon as it is complete, stopping at a record over
   the bound as soon as enough of it has arrived.  Where the stream was cut makes no difference.
   */
  method ReadRecords<S, R>(chunks: seq<seq<byte>>, state: S, step: Consumer<S, R>) returns (end: Outcome<S, R>)
    requires [] !in chunks
    ensures end == Run(Concat(chunks), state, step)
  {
    hide Run, NewlineAt;
    var s := state;
    var pending: seq<byte> := [];
    assert chunks[0..] == chunks && [] + Concat(chunks) == Concat(chunks);
    for k := 0 to |chunks|
      invariant |pending| <= MAX_RECORD_BYTES && NEWLINE !in pending
      invariant Run(pending + Concat(chunks[k..]), s, step) == Run(Concat(chunks), state, step)
    {
      ghost var rest := Concat(chunks[k + 1..]);
      assert pending + Concat(chunks[k..]) == pending + chunks[k] + rest;
      pending := pending + chunks[k];
      while NEWLINE in pending
        invariant Run(pending + rest, s, step) == Run(Concat(chunks), state, step)
        decreases |pending|
      {
        RecordEnds(pending, rest, s, step);
        var i := NewlineAt(pending);
        var record := pending[..i];
        pending := pending[i + 1..];
        if |record| > MAX_RECORD_BYTES {
          return TooLong(s);
        }
        var (s', result) := step(s, record);
        if result.Some? {
          return Done(s', result.value);
        }
        s := s';
      }
      if |pending| > MAX_RECORD_BYTES {
        RecordGrows(pending, rest, s, step);
        return TooLong(s);
      }
    }
    assert pending + [] == pending;
    StreamEnds(pending, s, step);
    if pending != [] {
      var (s', result) := step(s, pending);
      return if result.Some? then Done(s', result.value) else AtEnd(s');
    }
    end := AtEnd(s);
  }
}
