/** `createCSVStream` (src/csv/createCSVStream.ts): a pull-driven stream of
    CSV text over a generator of rows. The generator is given as the
    sequence of outcomes its `next()` calls produce; the host's scheduling
    of `pull` becomes explicit `Pull` and `Read` calls. */
module CsvStream {
  import opened CsvCell
  import opened CsvRow
  import opened Wrappers

  /** The byte order mark enqueued when the stream starts. */
  const BOM: string := ['\U{FEFF}']

  /** What one `rowGenerator.next()` call produces: a row, the end of the
      rows, or a thrown error. */
  datatype Outcome<E> = Row(cells: seq<Cell>) | Done | Fail(error: E)

  /** What the stream errors with: the generator's own throw, or the
      `RangeError` a date format throws while a row is serialised. Both
      are caught by the same `catch` in `pull`. */
  datatype StreamError<E> = Thrown(error: E) | FormatError(message: string)

  /** The controller's state. */
  datatype Phase<E> = Active | Closed | Errored(error: StreamError<E>)

  /** What a `reader.read()` call settles to. */
  datatype ReadResult<E> = Chunk(text: string) | End | Rejected(error: StreamError<E>)

  /** The outcome of the `i`-th `next()` call; a generator that has
      finished keeps reporting done. */
  function OutcomeAt<E>(rows: seq<Outcome<E>>, i: nat): Outcome<E> {
    if i < |rows| then rows[i] else Done
  }

  /** An outcome that `pull` turns into a chunk: a row every cell of
      which can be formatted. */
  predicate Enqueues<E>(outcome: Outcome<E>) {
    outcome.Row? && AllFormattable(outcome.cells)
  }

  /** How many rows the stream enqueues before the generator finishes,
      throws, or yields a row that cannot be serialised. */
  function LeadingRows<E>(rows: seq<Outcome<E>>): (n: nat)
    ensures n <= |rows|
    ensures forall i :: 0 <= i < n ==> Enqueues(rows[i])
    ensures !Enqueues(OutcomeAt(rows, n))
  {
    if rows == [] || !Enqueues(rows[0]) then 0 else 1 + LeadingRows(rows[1..])
  }

  /** The serialised forms of the first `k` rows, in yield order. */
  function RowChunks<E>(rows: seq<Outcome<E>>, k: nat, options: Options, host: Host): (r: seq<string>)
    requires k <= LeadingRows(rows)
    ensures |r| == k
  {
    if k == 0 then []
    else RowChunks(rows, k - 1, options, host) + [SerializeRow(rows[k - 1].cells, options, host).value]
  }

  /** The phase a stream ends in once it stops enqueueing rows: closed
      when the generator is done, errored by the generator's throw, or
      errored by the `RangeError` of a row that cannot be serialised. */
  function FinalPhase<E>(ending: Outcome<E>): Phase<E> {
    match ending
    case Fail(e) => Errored(Thrown(e))
    case Row(_) => Errored(FormatError(InvalidTimeValue))
    case Done => Closed
  }

  /** The chunks enqueued after `k` pulls: the BOM, then one per row
      enqueued. */
  ghost function ChunksAfter<E>(rows: seq<Outcome<E>>, k: nat, options: Options, host: Host): seq<string>
    requires k <= LeadingRows(rows) + 1
  {
    var n := LeadingRows(rows);
    [BOM] + RowChunks(rows, if k <= n then k else n, options, host)
  }

  /** The phase after `k` pulls: active until a pull did not enqueue a row. */
  ghost function PhaseAfter<E>(rows: seq<Outcome<E>>, k: nat): Phase<E> {
    var n := LeadingRows(rows);
    if k <= n then Active else FinalPhase(OutcomeAt(rows, n))
  }

  /** The strings in order, end to end. */
  function Concat(parts: seq<string>): string {
    if parts == [] then [] else Concat(parts[..|parts| - 1]) + parts[|parts| - 1]
  }

  class Stream<E> {
    /** The generator returned by the one `getRows()` call. */
    const rows: seq<Outcome<E>>
    const options: Options
    const host: Host
    /** `next()` calls made so far. */
    var nextCalls: nat
    /** Every chunk enqueued, in order. */
    var chunks: seq<string>
    var phase: Phase<E>
    /** The errors passed to `reportError`. */
    var reported: seq<StreamError<E>>
    /** How many chunks the reader has taken. */
    var delivered: nat

    /** The state the stream is in after `nextCalls` pulls: the BOM and one
        chunk per row pulled, and a closed or errored phase once a pull
        did not enqueue a row. */
    ghost predicate Valid()
      reads this
    {
      nextCalls <= LeadingRows(rows) + 1 &&
      chunks == ChunksAfter(rows, nextCalls, options, host) &&
      phase == PhaseAfter(rows, nextCalls) &&
      reported == (if phase.Errored? then [phase.error] else []) &&
      delivered <= |chunks| &&
      (phase.Errored? ==> delivered == |chunks|)
    }

    /** Work left before the reader sees the end: pulls not yet made
        count twice, chunks not yet taken once. */
    ghost function Pending(): nat
      reads this
      requires Valid()
    {
      2 * (LeadingRows(rows) + 1 - nextCalls) + (|chunks| - delivered)
    }

    /** The text of the chunks the reader has taken. */
    ghost function Taken(): string
      reads this
      requires delivered <= |chunks|
    {
      Concat(chunks[..delivered])
    }

    /** `createCSVStream(getRows, options)` followed by `start`: the BOM is
        the first chunk, before any row is asked for. */
    constructor (rows: seq<Outcome<E>>, options: Options, host: Host)
      ensures Valid()
      ensures this.rows == rows && this.options == options && this.host == host
      ensures chunks == [BOM] && phase == Active && nextCalls == 0
      ensures reported == [] && delivered == 0
    {
      this.rows := rows;
      this.options := options;
      this.host := host;
      nextCalls := 0;
      chunks := [BOM];
      phase := Active;
      reported := [];
      delivered := 0;
    }

    /** `pull`: exactly one `next()` call; a row is enqueued serialised;
        otherwise the stream takes its final phase: the end closes it, and
        an error, thrown by the generator or by serialising the row, is
        reported once and then errors it. Chunks already enqueued stay. With the default
        high-water mark of one chunk the host pulls only once the queue is
        empty. */
    method Pull()
      requires Valid() && phase.Active? && delivered == |chunks|
      modifies this
      ensures Valid()
      ensures nextCalls == old(nextCalls) + 1 && delivered == old(delivered)
      ensures if phase.Active? then |chunks| == |old(chunks)| + 1 else chunks == old(chunks)
      ensures old(chunks) <= chunks
      ensures var outcome := OutcomeAt(rows, old(nextCalls));
        if Enqueues(outcome) then
          chunks == old(chunks) + [SerializeRow(outcome.cells, options, host).value] &&
          phase == Active && reported == old(reported)
        else
          chunks == old(chunks) && phase == FinalPhase(outcome) &&
          reported == old(reported) + (if phase.Errored? then [phase.error] else [])
    {
      ghost var k := nextCalls;
      PullStep(rows, k, options, host);
      var outcome := if nextCalls < |rows| then rows[nextCalls] else Done;
      assert outcome == OutcomeAt(rows, k);
      var added: seq<string> := [];
      var next: Phase<E> := Active;
      match outcome {
        case Row(cells) =>
          var row := SerializeRow(cells, options, host);
          if row.Ok? {
            added := [row.value];
          } else {
            next := Errored(FormatError(row.message));
          }
        case Done =>
          next := Closed;
        case Fail(e) =>
          next := Errored(Thrown(e));
      }
      nextCalls := nextCalls + 1;
      chunks := chunks + added;
      phase := next;
      if next.Errored? {
        reported := reported + [next.error];
      }
    }

    /** `reader.read()`: an errored stream rejects with its error (its queue
        was discarded); a queued chunk is handed over; a closed stream
        whose chunks are all taken reports the end; otherwise the host
        pulls once and answers from the new state. */
    method Read() returns (r: ReadResult<E>)
      requires Valid()
      modifies this
      ensures Valid()
      ensures old(phase).Errored? ==> r == Rejected(old(phase).error) && nextCalls == old(nextCalls)
      ensures old(phase) == Closed && old(delivered) == |old(chunks)| ==>
        r == End && nextCalls == old(nextCalls) && delivered == old(delivered)
      ensures r.Chunk? ==> delivered == old(delivered) + 1 && r.text == chunks[old(delivered)]
      ensures !r.Chunk? ==> delivered == old(delivered)
      ensures r.End? ==> phase == Closed && delivered == |chunks|
      ensures old(chunks) <= chunks && |chunks| <= |old(chunks)| + 1
      ensures r.Rejected? ==> phase == Errored(r.error)
      ensures nextCalls == old(nextCalls) + (if old(phase).Active? && old(delivered) == |old(chunks)| then 1 else 0)
      ensures nextCalls == old(nextCalls) ==> chunks == old(chunks)
      ensures if r.Chunk? then Pending() < old(Pending()) else Pending() <= old(Pending())
      ensures Taken() == if r.Chunk? then old(Taken()) + r.text else old(Taken())
    {
      if phase.Active? && delivered == |chunks| {
        ghost var queued := chunks;
        Pull();
        assert chunks[..delivered] == queued[..delivered];
      }
      if phase.Errored? {
        r := Rejected(phase.error);
      } else if delivered < |chunks| {
        r := Chunk(chunks[delivered]);
        ConcatSnoc(chunks, delivered);
        delivered := delivered + 1;
      } else {
        r := End;
      }
    }

    /** Reads a new stream to its end: the text is the BOM followed by the
        serialised rows in yield order, and the last read reports the end,
        or rejects with the error the generator threw, or with the
        `RangeError` of the first row holding an invalid date. */
    method ReadAll() returns (text: string, last: ReadResult<E>)
      requires Valid() && delivered == 0
      modifies this
      ensures Valid()
      ensures text == BOM + Concat(RowChunks(rows, LeadingRows(rows), options, host))
      ensures last == match OutcomeAt(rows, LeadingRows(rows))
        case Fail(e) => Rejected(Thrown(e))
        case Row(_) => Rejected(FormatError(InvalidTimeValue))
        case Done => End
      ensures nextCalls == LeadingRows(rows) + 1
    {
      text := [];
      last := End;
      var done := false;
      while !done
        invariant Valid()
        invariant text == Taken()
        invariant done ==> delivered == |chunks| && !phase.Active?
        invariant done && last.End? ==> phase == Closed
        invariant done && !last.End? ==> last.Rejected? && phase == Errored(last.error)
        decreases Pending(), !done
      {
        var r := Read();
        if r.Chunk? {
          text := text + r.text;
        } else {
          last := r;
          done := true;
        }
      }
      assert chunks[..delivered] == chunks;
      Finished();
      ConcatCons(BOM, RowChunks(rows, LeadingRows(rows), options, host));
    }

    /** A stream that is no longer active has pulled past the last row. */
    lemma Finished()
      requires Valid() && !phase.Active?
      ensures chunks == [BOM] + RowChunks(rows, LeadingRows(rows), options, host)
      ensures nextCalls == LeadingRows(rows) + 1
      ensures phase == FinalPhase(OutcomeAt(rows, LeadingRows(rows)))
    {
    }
  }

  /** The `k`-th pull enqueues a row exactly while rows remain to be
      enqueued, adding its serialised form at the end; otherwise the stream
      takes its final phase, and a row it does not enqueue fails with the
      date format's message. */
  lemma PullStep<E>(rows: seq<Outcome<E>>, k: nat, options: Options, host: Host)
    requires k <= LeadingRows(rows)
    ensures var outcome := OutcomeAt(rows, k);
      if Enqueues(outcome) then
        SerializeRow(outcome.cells, options, host).Ok? &&
        ChunksAfter(rows, k + 1, options, host) ==
          ChunksAfter(rows, k, options, host) + [SerializeRow(outcome.cells, options, host).value] &&
        PhaseAfter(rows, k + 1) == Active
      else
        (outcome.Row? ==> SerializeRow(outcome.cells, options, host) == Err(InvalidTimeValue)) &&
        ChunksAfter(rows, k + 1, options, host) == ChunksAfter(rows, k, options, host) &&
        PhaseAfter(rows, k + 1) == FinalPhase(outcome)
  {
    if k < LeadingRows(rows) {
      RowChunksSnoc(rows, k, options, host);
    }
  }

  /** One more row pulled adds its serialised form at the end. */
  lemma RowChunksSnoc<E>(rows: seq<Outcome<E>>, k: nat, options: Options, host: Host)
    requires k < LeadingRows(rows)
    ensures RowChunks(rows, k + 1, options, host) ==
      RowChunks(rows, k, options, host) + [SerializeRow(rows[k].cells, options, host).value]
  {
  }

  lemma ConcatSnoc(parts: seq<string>, k: nat)
    requires k < |parts|
    ensures Concat(parts[..k + 1]) == Concat(parts[..k]) + parts[k]
  {
    assert parts[..k + 1][..k] == parts[..k];
  }

  lemma {:induction false} ConcatCons(first: string, parts: seq<string>)
    ensures Concat([first] + parts) == first + Concat(parts)
  {
    if parts != [] {
      var all := [first] + parts;
      assert all[..|all| - 1] == [first] + parts[..|parts| - 1];
      ConcatCons(first, parts[..|parts| - 1]);
    } else {
      assert [first] + parts == [first];
      assert [first][..0] == [];
    }
  }
}
