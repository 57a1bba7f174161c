/**
 * `DocumentConversionEngine.convertPublisher`: the streaming engine. A
 * worker reads the source in chunks, writes the complement of every byte to
 * the target, publishes the cumulative fraction written after each chunk and
 * polls a cancellation flag at the head of every pass. The publisher ends
 * with exactly one completion: `.finished`, `CancellationError`, or the
 * error that was thrown.
 *
 * The random fault and the cancellation flag are oracles indexed by the
 * pass of the loop (`fault(k)`, `cancelled(k)` are what the k-th pass sees);
 * the pacing sleep has no observable effect here and is omitted.
 */
module DocumentConversionEngine {
  import opened Wrappers
  import opened Paths
  import opened Streams
  import opened DocumentItem

  datatype Completion = Finished | Failure(error: Error)

  /** What the publisher sends: a progress value or its single completion. */
  datatype Event = Value(progress: Fraction) | Completion(completion: Completion)

  /** The random fault draw and the cancellation flag, as seen by pass k of the loop. */
  datatype Oracle = Oracle(fault: nat -> bool, cancelled: nat -> bool)

  /** What the loop appends to the target file and sends to the subject. */
  datatype Run = Run(output: seq<byte>, events: seq<Event>)
  {
    /** This run, preceded by the given output and events. */
    function After(output': seq<byte>, events': seq<Event>): Run
    {
      Run(output' + output, events' + events)
    }
  }

  /** The target file's final contents (`None`: never created) and all events sent. */
  datatype Trace = Trace(target: Option<seq<byte>>, events: seq<Event>)

  /** The stream the source promises: some values, then exactly one completion, then nothing. */
  predicate IsStream(events: seq<Event>)
  {
    && |events| >= 1
    && events[|events| - 1].Completion?
    && forall i :: 0 <= i < |events| - 1 ==> events[i].Value?
  }

  /** The progress values of a stream, in the order they were sent. */
  function Values(events: seq<Event>): (vs: seq<Fraction>)
    requires IsStream(events)
    ensures |vs| == |events| - 1
    ensures forall i :: 0 <= i < |vs| ==> events[i] == Value(vs[i])
  {
    seq(|events| - 1, i requires 0 <= i < |events| - 1 => events[i].progress)
  }

  function Terminal(events: seq<Event>): Completion
    requires IsStream(events)
  {
    events[|events| - 1].completion
  }

  /**
   * The `while !workItem.isCancelled` loop from the pass `iteration` on, with
   * the input handle at `written` (which is also `bytesWritten`).
   */
  function Pump(data: seq<byte>, total: nat, written: nat, iteration: nat, oracle: Oracle): Run
    requires written <= |data|
    decreases |data| - written
  {
    if oracle.cancelled(iteration) then
      Run([], [Completion(Failure(Cancellation))])
    else if oracle.fault(iteration) then
      Run([], [Completion(Failure(Conversion(DataError)))])
    else
      var chunk := Chunk(data, written);
      if chunk == [] then
        Run([], [Completion(Finished)])
      else
        var rest := Pump(data, total, written + |chunk|, iteration + 1, oracle);
        Run(ComplementAll(chunk) + rest.output, [Value(Fraction(written + |chunk|, total))] + rest.events)
  }

  /**
   * The whole worker: reading the size attribute (a missing source makes
   * `attributesOfItem` throw), opening the source, creating the target
   * (truncating it), then the loop.
   */
  function Convert(source: Option<SourceFile>, targetCreatable: bool, oracle: Oracle): Trace
  {
    if source.None? then
      Trace(None, [Completion(Failure(FileSystem))])
    else if source.value.sizeAttribute.None? then
      Trace(None, [Completion(Failure(Conversion(InputError)))])
    else if !source.value.readable then
      Trace(None, [Completion(Failure(FileSystem))])
    else if !targetCreatable then
      Trace(None, [Completion(Failure(Conversion(OutputError)))])
    else
      var run := Pump(source.value.contents, source.value.sizeAttribute.value, 0, 0, oracle);
      Trace(Some(run.output), run.events)
  }

  /** `convertPublisher(from:to:)`: the worker item, run to its end. */
  method ConvertPublisher(source: Option<SourceFile>, targetCreatable: bool, oracle: Oracle)
    returns (target: Option<seq<byte>>, events: seq<Event>)
    ensures Trace(target, events) == Convert(source, targetCreatable, oracle)
  {
    if source.None? {
      return None, [Completion(Failure(FileSystem))];
    }
    var file := source.value;
    if file.sizeAttribute.None? {
      return None, [Completion(Failure(Conversion(InputError)))];
    }
    var totalBytes := file.sizeAttribute.value;
    if !file.readable {
      return None, [Completion(Failure(FileSystem))];
    }
    if !targetCreatable {
      return None, [Completion(Failure(Conversion(OutputError)))];
    }
    var data := file.contents;
    var output: seq<byte> := [];
    var offset: nat := 0;
    var bytesWritten: nat := 0;
    var iteration: nat := 0;
    events := [];
    ghost var whole := Pump(data, totalBytes, 0, 0, oracle);
    assert Convert(source, targetCreatable, oracle) == Trace(Some(whole.output), whole.events);
    assert whole.After([], []) == whole;
    while !oracle.cancelled(iteration)
      invariant offset == bytesWritten <= |data|
      invariant whole == Pump(data, totalBytes, bytesWritten, iteration, oracle).After(output, events)
      decreases |data| - bytesWritten
    {
      if oracle.fault(iteration) {
        PumpEnds(data, totalBytes, bytesWritten, iteration, oracle, output, events);
        events := events + [Completion(Failure(Conversion(DataError)))];
        return Some(output), events;
      }
      var readData := Chunk(data, offset);
      if readData == [] {
        PumpEnds(data, totalBytes, bytesWritten, iteration, oracle, output, events);
        events := events + [Completion(Finished)];
        return Some(output), events;
      }
      PumpStep(data, totalBytes, bytesWritten, iteration, oracle, output, events);
      offset := offset + |readData|;
      var convertedData := ComplementAll(readData);
      output := output + convertedData;
      bytesWritten := bytesWritten + |convertedData|;
      events := events + [Value(Fraction(bytesWritten, totalBytes))];
      iteration := iteration + 1;
    }
    PumpEnds(data, totalBytes, bytesWritten, iteration, oracle, output, events);
    events := events + [Completion(Failure(Cancellation))];
    target := Some(output);
  }

  /**
   * A pass that sees the cancellation flag, draws a fault or finds the
   * input exhausted sends its completion after what was sent so far.
   */
  lemma PumpEnds(data: seq<byte>, total: nat, written: nat, iteration: nat, oracle: Oracle,
                 output: seq<byte>, events: seq<Event>)
    requires written <= |data|
    requires oracle.cancelled(iteration) || oracle.fault(iteration) || written == |data|
    ensures Pump(data, total, written, iteration, oracle).After(output, events)
      == Run(output, events + [Completion(
           if oracle.cancelled(iteration) then Failure(Cancellation)
           else if oracle.fault(iteration) then Failure(Conversion(DataError))
           else Finished)])
  {
    assert output + [] == output;
  }

  /**
   * One pass that reads a non-empty chunk, seen from the run so far: it
   * appends the converted chunk and its value and leaves the same whole run
   * to the next pass.
   */
  lemma PumpStep(data: seq<byte>, total: nat, written: nat, iteration: nat, oracle: Oracle,
                 output: seq<byte>, events: seq<Event>)
    requires written < |data|
    requires !oracle.cancelled(iteration) && !oracle.fault(iteration)
    ensures var converted := ComplementAll(Chunk(data, written));
      var next := written + |converted|;
      && next == written + |Chunk(data, written)| <= |data|
      && Pump(data, total, written, iteration, oracle).After(output, events)
           == Pump(data, total, next, iteration + 1, oracle)
                .After(output + converted, events + [Value(Fraction(next, total))])
  {
    var chunk := Chunk(data, written);
    var rest := Pump(data, total, written + |chunk|, iteration + 1, oracle);
    assert output + (ComplementAll(chunk) + rest.output) == output + ComplementAll(chunk) + rest.output;
    var value := Value(Fraction(written + |chunk|, total));
    assert events + ([value] + rest.events) == events + [value] + rest.events;
  }

  /** Prepending a value to a stream keeps it a stream and puts the value first. */
  lemma ValuesCons(v: Fraction, events: seq<Event>)
    requires IsStream(events)
    ensures IsStream([Value(v)] + events)
    ensures Values([Value(v)] + events) == [v] + Values(events)
    ensures Terminal([Value(v)] + events) == Terminal(events)
  {
  }

  /** One pass that reads a non-empty chunk contributes its complement and one value. */
  lemma PumpUnfold(data: seq<byte>, total: nat, written: nat, iteration: nat, oracle: Oracle)
    requires written <= |data|
    requires !oracle.cancelled(iteration) && !oracle.fault(iteration) && written < |data|
    ensures var next := Min(written + BufferSize, |data|);
      var rest := Pump(data, total, next, iteration + 1, oracle);
      && data[written..next] == Chunk(data, written)
      && Pump(data, total, written, iteration, oracle)
           == Run(ComplementAll(data[written..next]) + rest.output, [Value(Fraction(next, total))] + rest.events)
  {
  }

  /** The output is the complement of exactly the bytes consumed, in order. */
  lemma {:induction false} PumpOutput(data: seq<byte>, total: nat, written: nat, iteration: nat, oracle: Oracle)
    requires written <= |data|
    ensures var r := Pump(data, total, written, iteration, oracle);
      && written + |r.output| <= |data|
      && r.output == ComplementAll(data[written..written + |r.output|])
    decreases |data| - written
  {
    if !oracle.cancelled(iteration) && !oracle.fault(iteration) && written < |data| {
      var next := Min(written + BufferSize, |data|);
      PumpUnfold(data, total, written, iteration, oracle);
      PumpOutput(data, total, next, iteration + 1, oracle);
      var rest := Pump(data, total, next, iteration + 1, oracle);
      assert data[written..next + |rest.output|] == data[written..next] + data[next..next + |rest.output|];
      ComplementAllAppend(data[written..next], data[next..next + |rest.output|]);
    }
  }

  /** The loop sends some values and then exactly one completion. */
  lemma {:induction false} PumpIsStream(data: seq<byte>, total: nat, written: nat, iteration: nat, oracle: Oracle)
    requires written <= |data|
    ensures IsStream(Pump(data, total, written, iteration, oracle).events)
    decreases |data| - written
  {
    if !oracle.cancelled(iteration) && !oracle.fault(iteration) && written < |data| {
      var next := Min(written + BufferSize, |data|);
      PumpUnfold(data, total, written, iteration, oracle);
      PumpIsStream(data, total, next, iteration + 1, oracle);
      ValuesCons(Fraction(next, total), Pump(data, total, next, iteration + 1, oracle).events);
    }
  }

  /**
   * The i-th value reports the handle position after the i-th chunk, every
   * chunk before it being a full `BufferSize` bytes.
   */
  lemma {:induction false} PumpPositions(data: seq<byte>, total: nat, written: nat, iteration: nat, oracle: Oracle)
    requires written <= |data|
    ensures var r := Pump(data, total, written, iteration, oracle);
      && IsStream(r.events)
      && (forall i :: 0 <= i < |Values(r.events)| ==>
            && Values(r.events)[i] == Fraction(Min(written + (i + 1) * BufferSize, |data|), total)
            && written + i * BufferSize < |data|)
    decreases |data| - written
  {
    PumpIsStream(data, total, written, iteration, oracle);
    if !oracle.cancelled(iteration) && !oracle.fault(iteration) && written < |data| {
      var next := Min(written + BufferSize, |data|);
      PumpUnfold(data, total, written, iteration, oracle);
      PumpPositions(data, total, next, iteration + 1, oracle);
      var rest := Pump(data, total, next, iteration + 1, oracle);
      ValuesCons(Fraction(next, total), rest.events);
      var rvs := Values(rest.events);
      if rvs != [] {
        assert next + 0 * BufferSize < |data|;
      }
      PositionsStep(rvs, written, next, |data|, total);
    }
  }

  /** The output ends where the last value says. */
  lemma {:induction false} PumpWritten(data: seq<byte>, total: nat, written: nat, iteration: nat, oracle: Oracle)
    requires written <= |data|
    ensures var r := Pump(data, total, written, iteration, oracle);
      && IsStream(r.events)
      && written + |r.output| == Min(written + |Values(r.events)| * BufferSize, |data|)
    decreases |data| - written
  {
    PumpIsStream(data, total, written, iteration, oracle);
    if !oracle.cancelled(iteration) && !oracle.fault(iteration) && written < |data| {
      var next := Min(written + BufferSize, |data|);
      PumpUnfold(data, total, written, iteration, oracle);
      PumpWritten(data, total, next, iteration + 1, oracle);
      PumpPositions(data, total, next, iteration + 1, oracle);
      var rest := Pump(data, total, next, iteration + 1, oracle);
      ValuesCons(Fraction(next, total), rest.events);
      var rvs := Values(rest.events);
      if rvs != [] {
        assert next + 0 * BufferSize < |data|;
        ShiftByChunk(written, |rvs| + 1);
      }
    }
  }

  /**
   * The events form a stream; the i-th value reports the handle position
   * after the i-th chunk, every chunk before it being a full `BufferSize`
   * bytes; and the output ends where the last value says.
   */
  lemma PumpValues(data: seq<byte>, total: nat, written: nat, iteration: nat, oracle: Oracle)
    requires written <= |data|
    ensures var r := Pump(data, total, written, iteration, oracle);
      && IsStream(r.events)
      && (forall i :: 0 <= i < |Values(r.events)| ==>
            && Values(r.events)[i] == Fraction(Min(written + (i + 1) * BufferSize, |data|), total)
            && written + i * BufferSize < |data|)
      && written + |r.output| == Min(written + |Values(r.events)| * BufferSize, |data|)
  {
    PumpPositions(data, total, written, iteration, oracle);
    PumpWritten(data, total, written, iteration, oracle);
  }

  /** `.finished` is sent only once a read came back empty, i.e. the whole input was consumed. */
  lemma {:induction false} PumpFinished(data: seq<byte>, total: nat, written: nat, iteration: nat, oracle: Oracle)
    requires written <= |data|
    ensures var r := Pump(data, total, written, iteration, oracle);
      IsStream(r.events) && (Terminal(r.events) == Finished ==> written + |r.output| == |data|)
    decreases |data| - written
  {
    PumpValues(data, total, written, iteration, oracle);
    if !oracle.cancelled(iteration) && !oracle.fault(iteration) && written < |data| {
      var next := Min(written + BufferSize, |data|);
      PumpUnfold(data, total, written, iteration, oracle);
      PumpFinished(data, total, next, iteration + 1, oracle);
      var rest := Pump(data, total, next, iteration + 1, oracle);
      ValuesCons(Fraction(next, total), rest.events);
    }
  }

  /** No pass from `from` up to `to` saw the cancellation flag or drew a fault. */
  predicate Clean(oracle: Oracle, from: nat, to: nat)
  {
    forall k :: from <= k < to ==> !oracle.cancelled(k) && !oracle.fault(k)
  }

  /**
   * The completion a pass sends when it ends the loop: `CancellationError`
   * when it sees the flag, `dataError` when it draws a fault instead, and
   * `.finished` otherwise.
   */
  function Decided(oracle: Oracle, pass: nat): (c: Completion)
    ensures c == Failure(Cancellation) <==> oracle.cancelled(pass)
    ensures c == Failure(Conversion(DataError)) <==> !oracle.cancelled(pass) && oracle.fault(pass)
    ensures c == Finished <==> !oracle.cancelled(pass) && !oracle.fault(pass)
  {
    if oracle.cancelled(pass) then Failure(Cancellation)
    else if oracle.fault(pass) then Failure(Conversion(DataError))
    else Finished
  }

  /**
   * The loop ends in exactly one of three ways, decided by the pass after
   * the last value; every earlier pass saw neither the flag nor a fault.
   */
  lemma {:induction false} PumpOutcome(data: seq<byte>, total: nat, written: nat, iteration: nat, oracle: Oracle)
    requires written <= |data|
    ensures var r := Pump(data, total, written, iteration, oracle);
      && IsStream(r.events)
      && Clean(oracle, iteration, iteration + |Values(r.events)|)
      && Terminal(r.events) == Decided(oracle, iteration + |Values(r.events)|)
    decreases |data| - written
  {
    if !oracle.cancelled(iteration) && !oracle.fault(iteration) && written < |data| {
      var next := Min(written + BufferSize, |data|);
      PumpUnfold(data, total, written, iteration, oracle);
      PumpOutcome(data, total, next, iteration + 1, oracle);
      var rest := Pump(data, total, next, iteration + 1, oracle);
      OutcomeCons(oracle, iteration, Fraction(next, total), rest.events);
    } else {
      assert Pump(data, total, written, iteration, oracle).events == [Completion(Decided(oracle, iteration))];
      assert Clean(oracle, iteration, iteration);
    }
  }

  /** A clean pass that sends a value, in front of a decided stream, gives a stream decided at the same pass. */
  lemma OutcomeCons(oracle: Oracle, iteration: nat, v: Fraction, events: seq<Event>)
    requires !oracle.cancelled(iteration) && !oracle.fault(iteration)
    requires IsStream(events)
    requires Clean(oracle, iteration + 1, iteration + 1 + |Values(events)|)
    requires Terminal(events) == Decided(oracle, iteration + 1 + |Values(events)|)
    ensures IsStream([Value(v)] + events)
    ensures Clean(oracle, iteration, iteration + |Values([Value(v)] + events)|)
    ensures Terminal([Value(v)] + events) == Decided(oracle, iteration + |Values([Value(v)] + events)|)
  {
    ValuesCons(v, events);
    CleanCons(oracle, iteration, iteration + 1 + |Values(events)|);
  }

  /** A clean pass in front of a clean stretch makes a longer clean stretch. */
  lemma CleanCons(oracle: Oracle, from: nat, to: nat)
    requires !oracle.cancelled(from) && !oracle.fault(from) && Clean(oracle, from + 1, to)
    ensures Clean(oracle, from, to)
  {
  }

  /**
   * With the flag never set and no fault drawn, the loop finishes after
   * converting the whole rest of the input.
   */
  lemma {:induction false} PumpCompletes(data: seq<byte>, total: nat, written: nat, iteration: nat, oracle: Oracle)
    requires written <= |data|
    requires forall k :: iteration <= k ==> !oracle.cancelled(k) && !oracle.fault(k)
    ensures var r := Pump(data, total, written, iteration, oracle);
      && IsStream(r.events)
      && Terminal(r.events) == Finished
      && r.output == ComplementAll(data[written..])
    decreases |data| - written
  {
    PumpIsStream(data, total, written, iteration, oracle);
    assert !oracle.cancelled(iteration) && !oracle.fault(iteration);
    if written < |data| {
      var next := Min(written + BufferSize, |data|);
      PumpUnfold(data, total, written, iteration, oracle);
      PumpCompletes(data, total, next, iteration + 1, oracle);
      ValuesCons(Fraction(next, total), Pump(data, total, next, iteration + 1, oracle).events);
      assert data[written..] == data[written..next] + data[next..];
      ComplementAllAppend(data[written..next], data[next..]);
    } else {
      assert ComplementAll(data[written..]) == [];
    }
  }

  /**
   * Past the early checks, the worker's completion is decided by the pass
   * after the last value, as for the loop.
   */
  lemma ConvertOutcome(source: SourceFile, oracle: Oracle)
    requires source.sizeAttribute.Some? && source.readable
    ensures var t := Convert(Some(source), true, oracle);
      && IsStream(t.events)
      && var last := |Values(t.events)|;
      && (forall k :: 0 <= k < last ==> !oracle.cancelled(k) && !oracle.fault(k))
      && (Terminal(t.events) == Failure(Cancellation) <==> oracle.cancelled(last))
      && (Terminal(t.events) == Failure(Conversion(DataError)) <==> !oracle.cancelled(last) && oracle.fault(last))
      && (Terminal(t.events) == Finished <==> !oracle.cancelled(last) && !oracle.fault(last))
  {
    PumpOutcome(source.contents, source.sizeAttribute.value, 0, 0, oracle);
    var t := Convert(Some(source), true, oracle);
    var c := Decided(oracle, |Values(t.events)|);
  }

  /**
   * With the flag never set and no fault drawn, the worker finishes and the
   * target is the complement of the whole source, which converts back to it.
   */
  lemma ConvertCompletes(source: SourceFile, oracle: Oracle)
    requires source.sizeAttribute.Some? && source.readable
    requires forall k :: !oracle.cancelled(k) && !oracle.fault(k)
    ensures var t := Convert(Some(source), true, oracle);
      && IsStream(t.events)
      && Terminal(t.events) == Finished
      && t.target == Some(ComplementAll(source.contents))
      && ComplementAll(t.target.value) == source.contents
  {
    PumpCompletes(source.contents, source.sizeAttribute.value, 0, 0, oracle);
    assert source.contents[0..] == source.contents;
    ComplementInvolution(source.contents);
  }

  /**
   * Every run of the worker sends exactly one completion and nothing after
   * it; a failure to open or create a file is that completion, before any
   * value and with the target never written.
   */
  lemma ConvertIsStream(source: Option<SourceFile>, targetCreatable: bool, oracle: Oracle)
    ensures var t := Convert(source, targetCreatable, oracle);
      && IsStream(t.events)
      && (t.target.None? ==> |t.events| == 1 && Terminal(t.events).Failure?)
  {
    if source.Some? && source.value.sizeAttribute.Some? && source.value.readable && targetCreatable {
      PumpValues(source.value.contents, source.value.sizeAttribute.value, 0, 0, oracle);
    }
  }

  /** The error cases before the loop, each of them the whole stream. */
  lemma ConvertEarlyFailures(source: SourceFile, targetCreatable: bool, oracle: Oracle)
    ensures source.sizeAttribute.None? ==>
      Convert(Some(source), targetCreatable, oracle) == Trace(None, [Completion(Failure(Conversion(InputError)))])
    ensures source.sizeAttribute.Some? && !source.readable ==>
      Convert(Some(source), targetCreatable, oracle) == Trace(None, [Completion(Failure(FileSystem))])
    ensures source.sizeAttribute.Some? && source.readable && !targetCreatable ==>
      Convert(Some(source), targetCreatable, oracle) == Trace(None, [Completion(Failure(Conversion(OutputError)))])
    ensures Convert(None, targetCreatable, oracle) == Trace(None, [Completion(Failure(FileSystem))])
  {
  }

  /**
   * The target holds the complement of the bytes consumed so far, in order,
   * and converting it again restores that prefix of the source; after
   * `.finished` it is the complement of the whole source.
   */
  lemma ConvertOutput(source: SourceFile, targetCreatable: bool, oracle: Oracle)
    ensures IsStream(Convert(Some(source), targetCreatable, oracle).events)
    ensures var t := Convert(Some(source), targetCreatable, oracle);
      t.target.Some? ==>
        var out := t.target.value;
        && |out| <= |source.contents|
        && out == ComplementAll(source.contents[..|out|])
        && ComplementAll(out) == source.contents[..|out|]
        && (Terminal(t.events) == Finished ==> out == ComplementAll(source.contents))
  {
    ConvertIsStream(Some(source), targetCreatable, oracle);
    var t := Convert(Some(source), targetCreatable, oracle);
    if t.target.Some? {
      var data := source.contents;
      var total := source.sizeAttribute.value;
      PumpOutput(data, total, 0, 0, oracle);
      PumpFinished(data, total, 0, 0, oracle);
      assert data[0..|t.target.value|] == data[..|t.target.value|];
      ComplementInvolution(data[..|t.target.value|]);
      assert data[..|data|] == data;
    }
  }

  /**
   * The values sent: each is the cumulative count over the size attribute,
   * they strictly increase, they grow by at most `BufferSize` at a time, and
   * the last one is the length of the target.
   */
  lemma ConvertProgress(source: SourceFile, targetCreatable: bool, oracle: Oracle)
    requires source.sizeAttribute.Some? && source.readable && targetCreatable
    ensures IsStream(Convert(Some(source), targetCreatable, oracle).events)
    ensures var t := Convert(Some(source), targetCreatable, oracle);
      var vs := Values(t.events);
      && (forall i :: 0 <= i < |vs| ==> vs[i].total == source.sizeAttribute.value)
      && (forall i :: 0 <= i < |vs| ==> 0 < vs[i].written <= |source.contents|)
      && (forall i, j :: 0 <= i < j < |vs| ==> vs[i].written < vs[j].written)
      && (|vs| > 0 ==> vs[0].written <= BufferSize)
      && (forall i :: 0 < i < |vs| ==> vs[i].written - vs[i - 1].written <= BufferSize)
      && (|vs| > 0 ==> t.target.Some? && vs[|vs| - 1].written == |t.target.value|)
  {
    var data := source.contents;
    var total := source.sizeAttribute.value;
    var t := Convert(Some(source), targetCreatable, oracle);
    var r := Pump(data, total, 0, 0, oracle);
    assert t == Trace(Some(r.output), r.events);
    ProgressBounds(data, total, oracle);
    ProgressSteps(data, total, oracle);
  }

  /** Each value counts over `total`, lies in (0, |data|], and the last one is the output length. */
  lemma ProgressBounds(data: seq<byte>, total: nat, oracle: Oracle)
    ensures IsStream(Pump(data, total, 0, 0, oracle).events)
    ensures var r := Pump(data, total, 0, 0, oracle);
      var vs := Values(r.events);
      && (forall i :: 0 <= i < |vs| ==> vs[i].total == total)
      && (forall i :: 0 <= i < |vs| ==> 0 < vs[i].written <= |data|)
      && (|vs| > 0 ==> vs[0].written <= BufferSize)
      && (|vs| > 0 ==> vs[|vs| - 1].written == |r.output|)
  {
    PumpValues(data, total, 0, 0, oracle);
    var r := Pump(data, total, 0, 0, oracle);
    var vs := Values(r.events);
    assert forall i :: 0 <= i < |vs| ==> vs[i] == Fraction(Min(0 + (i + 1) * BufferSize, |data|), total);
  }

  /** The values strictly increase, by at most `BufferSize` a step. */
  lemma ProgressSteps(data: seq<byte>, total: nat, oracle: Oracle)
    ensures IsStream(Pump(data, total, 0, 0, oracle).events)
    ensures var vs := Values(Pump(data, total, 0, 0, oracle).events);
      && (forall i, j :: 0 <= i < j < |vs| ==> vs[i].written < vs[j].written)
      && (forall i :: 0 < i < |vs| ==> vs[i].written - vs[i - 1].written <= BufferSize)
  {
    PumpValues(data, total, 0, 0, oracle);
    var vs := Values(Pump(data, total, 0, 0, oracle).events);
    forall i, j | 0 <= i < j < |vs| ensures vs[i].written < vs[j].written {
      ValueIncreases(data, total, oracle, i, j);
    }
    forall i | 0 < i < |vs| ensures vs[i].written - vs[i - 1].written <= BufferSize {
      assert vs[i - 1].written == Min(i * BufferSize, |data|);
      assert i * BufferSize < |data|;
      assert vs[i].written == Min((i + 1) * BufferSize, |data|);
    }
  }

  lemma ValueIncreases(data: seq<byte>, total: nat, oracle: Oracle, i: nat, j: nat)
    requires IsStream(Pump(data, total, 0, 0, oracle).events)
    requires i < j < |Values(Pump(data, total, 0, 0, oracle).events)|
    ensures var vs := Values(Pump(data, total, 0, 0, oracle).events); vs[i].written < vs[j].written
  {
    PumpValues(data, total, 0, 0, oracle);
    var vs := Values(Pump(data, total, 0, 0, oracle).events);
    assert vs[i].written == Min((i + 1) * BufferSize, |data|);
    assert vs[j].written == Min((j + 1) * BufferSize, |data|);
    assert j * BufferSize < |data|;
    assert (i + 1) * BufferSize <= j * BufferSize;
  }

  /**
   * When the size attribute is the real length, every value lies in (0, 1],
   * the values increase as fractions, and a finished non-empty run ends at
   * exactly 1.
   */
  lemma ConvertProgressRatio(source: SourceFile, targetCreatable: bool, oracle: Oracle)
    requires source.sizeAttribute == Some(|source.contents|) && source.readable && targetCreatable
    ensures IsStream(Convert(Some(source), targetCreatable, oracle).events)
    ensures var t := Convert(Some(source), targetCreatable, oracle);
      var vs := Values(t.events);
      && (forall i :: 0 <= i < |vs| ==> vs[i].total > 0 && 0.0 < vs[i].Value() <= 1.0)
      && (forall i, j :: 0 <= i < j < |vs| ==> vs[i].Value() < vs[j].Value())
      && (source.contents != [] && Terminal(t.events) == Finished ==>
            |vs| > 0 && vs[|vs| - 1] == Fraction(|source.contents|, |source.contents|) && vs[|vs| - 1].Value() == 1.0)
  {
    ConvertProgress(source, targetCreatable, oracle);
    var t := Convert(Some(source), targetCreatable, oracle);
    var vs := Values(t.events);
    RatiosOfCounts(vs, |source.contents|);
    if source.contents != [] && Terminal(t.events) == Finished {
      FinishedReportsWhole(source, oracle);
      WholeIsOne(vs[|vs| - 1]);
    }
  }

  lemma WholeIsOne(f: Fraction)
    requires f.written == f.total > 0
    ensures f.Value() == 1.0
  {
  }

  /** A finished run on a non-empty source sends at least one value, and the last one counts every byte. */
  lemma FinishedReportsWhole(source: SourceFile, oracle: Oracle)
    requires source.sizeAttribute.Some? && source.readable && source.contents != []
    requires IsStream(Convert(Some(source), true, oracle).events)
    requires Terminal(Convert(Some(source), true, oracle).events) == Finished
    ensures var vs := Values(Convert(Some(source), true, oracle).events);
      |vs| > 0 && vs[|vs| - 1].written == |source.contents|
  {
    var data := source.contents;
    var total := source.sizeAttribute.value;
    PumpValues(data, total, 0, 0, oracle);
    PumpFinished(data, total, 0, 0, oracle);
    ConvertProgress(source, true, oracle);
  }

  /** Counts out of the same positive total that lie in (0, total] and increase are ratios in (0, 1] that increase. */
  lemma RatiosOfCounts(vs: seq<Fraction>, total: nat)
    requires forall i :: 0 <= i < |vs| ==> vs[i].total == total && 0 < vs[i].written <= total
    requires forall i, j :: 0 <= i < j < |vs| ==> vs[i].written < vs[j].written
    ensures forall i :: 0 <= i < |vs| ==> vs[i].total > 0 && 0.0 < vs[i].Value() <= 1.0
    ensures forall i, j :: 0 <= i < j < |vs| ==> vs[i].Value() < vs[j].Value()
  {
    forall i | 0 <= i < |vs| ensures vs[i].total > 0 && 0.0 < vs[i].Value() <= 1.0 {
      FractionInUnitInterval(vs[i]);
    }
    forall i, j | 0 <= i < j < |vs| ensures vs[i].Value() < vs[j].Value() {
      FractionsIncrease(vs[i], vs[j]);
    }
  }

  lemma FractionInUnitInterval(f: Fraction)
    requires 0 < f.written <= f.total
    ensures 0.0 < f.Value() <= 1.0
  {
    assert f.written as real <= f.total as real;
  }

  /** Later values are larger fractions as well as larger counts. */
  lemma FractionsIncrease(f: Fraction, g: Fraction)
    requires f.total == g.total > 0 && f.written < g.written
    ensures f.Value() < g.Value()
  {
    var t := f.total as real;
    assert f.written as real < g.written as real;
    assert f.Value() * t == f.written as real;
    assert g.Value() * t == g.written as real;
  }

  /** With no fault and no cancellation on the first pass, an empty source finishes without any value. */
  lemma EmptySourceFinishes(size: nat, oracle: Oracle)
    requires !oracle.cancelled(0) && !oracle.fault(0)
    ensures Convert(Some(SourceFile(Some(size), [], true)), true, oracle) == Trace(Some([]), [Completion(Finished)])
  {
  }

  /**
   * Cancellation is polled only at the head of a pass. If the flag is first
   * seen on pass j (and the input lasts that long), exactly the first j
   * chunks were written and reported, including a chunk that was being
   * processed while cancellation was requested, and then the stream fails
   * with `CancellationError`.
   */
  lemma {:induction false} CancelledFrom(data: seq<byte>, total: nat, written: nat, iteration: nat, oracle: Oracle, j: nat)
    requires written == iteration * BufferSize <= |data|
    requires iteration <= j
    requires forall k :: iteration <= k < j ==> !oracle.cancelled(k) && !oracle.fault(k)
    requires oracle.cancelled(j)
    requires (j - 1) * BufferSize < |data|
    ensures var r := Pump(data, total, written, iteration, oracle);
      && IsStream(r.events)
      && |Values(r.events)| == j - iteration
      && Terminal(r.events) == Failure(Cancellation)
    decreases j - iteration
  {
    if iteration < j {
      assert iteration * BufferSize <= (j - 1) * BufferSize;
      var next := Min(written + BufferSize, |data|);
      PumpUnfold(data, total, written, iteration, oracle);
      var rest := Pump(data, total, next, iteration + 1, oracle);
      PumpIsStream(data, total, next, iteration + 1, oracle);
      if iteration + 1 < j {
        assert (iteration + 1) * BufferSize <= (j - 1) * BufferSize;
        assert next == (iteration + 1) * BufferSize;
        CancelledFrom(data, total, next, iteration + 1, oracle, j);
      } else {
        assert rest.events == [Completion(Failure(Cancellation))];
        assert |Values(rest.events)| == 0;
      }
      ValuesCons(Fraction(next, total), rest.events);
      assert Pump(data, total, written, iteration, oracle).events == [Value(Fraction(next, total))] + rest.events;
    } else {
      assert Pump(data, total, written, iteration, oracle).events == [Completion(Failure(Cancellation))];
    }
  }

  lemma CancelledAtPass(source: SourceFile, oracle: Oracle, j: nat)
    requires source.sizeAttribute.Some? && source.readable
    requires forall k :: 0 <= k < j ==> !oracle.cancelled(k) && !oracle.fault(k)
    requires oracle.cancelled(j)
    requires (j - 1) * BufferSize < |source.contents|
    ensures var t := Convert(Some(source), true, oracle);
      && IsStream(t.events)
      && |Values(t.events)| == j
      && Terminal(t.events) == Failure(Cancellation)
      && t.target == Some(ComplementAll(source.contents[..Min(j * BufferSize, |source.contents|)]))
  {
    var data := source.contents;
    var total := source.sizeAttribute.value;
    CancelledFrom(data, total, 0, 0, oracle, j);
    PumpOutput(data, total, 0, 0, oracle);
    PumpValues(data, total, 0, 0, oracle);
    assert data[0..Min(j * BufferSize, |data|)] == data[..Min(j * BufferSize, |data|)];
  }

  /** `outputURL(for:format:)`: same directory and stem, the format tag without its dot as extension. */
  function OutputURL(inputURL: Url, format: ConversionFormat): Url
  {
    AppendingPathExtension(DeletingPathExtension(inputURL), TrimDots(format.RawValue()))
  }

  /** The extension a format's output gets: the raw value with its dot trimmed. */
  lemma FormatExtension(format: ConversionFormat)
    ensures TrimDots(format.RawValue()) == match format case Step => "step" case Stl => "stl" case Obj => "obj"
    ensures TrimDots(format.RawValue()) != [] && HasNoDot(TrimDots(format.RawValue()))
  {
    match format
    case Step =>
      assert TrimLeadingDots(".step") == TrimLeadingDots("step") == "step";
      assert TrimTrailingDots("step") == "step";
    case Stl =>
      assert TrimLeadingDots(".stl") == TrimLeadingDots("stl") == "stl";
      assert TrimTrailingDots("stl") == "stl";
    case Obj =>
      assert TrimLeadingDots(".obj") == TrimLeadingDots("obj") == "obj";
      assert TrimTrailingDots("obj") == "obj";
  }

  /** The output sits next to the input, with the input's stem and the format's extension. */
  lemma OutputURLShape(inputURL: Url, format: ConversionFormat)
    ensures OutputURL(inputURL, format).parent == inputURL.parent
    ensures OutputURL(inputURL, format).last == Stem(inputURL.last) + "." + TrimDots(format.RawValue())
  {
  }

  /**
   * Asking for another format of an output replaces the extension again
   * rather than stacking it; in particular the rule is idempotent.
   */
  lemma OutputURLReplacesExtension(inputURL: Url, first: ConversionFormat, second: ConversionFormat)
    requires inputURL.last != []
    ensures OutputURL(OutputURL(inputURL, first), second) == OutputURL(inputURL, second)
    ensures OutputURL(OutputURL(inputURL, first), first) == OutputURL(inputURL, first)
  {
    FormatExtension(first);
    StemNonEmpty(inputURL.last);
    StemOfExtended(Stem(inputURL.last), TrimDots(first.RawValue()));
  }

  /** Different formats of one input never share an output path. */
  lemma OutputURLsDistinct(inputURL: Url, first: ConversionFormat, second: ConversionFormat)
    requires first != second
    ensures OutputURL(inputURL, first) != OutputURL(inputURL, second)
  {
    FormatExtension(first);
    FormatExtension(second);
    var stem := Stem(inputURL.last);
    var a := stem + "." + TrimDots(first.RawValue());
    var b := stem + "." + TrimDots(second.RawValue());
    assert a[|stem| + 1..] == TrimDots(first.RawValue());
    assert b[|stem| + 1..] == TrimDots(second.RawValue());
  }
}
