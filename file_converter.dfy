/**
 * `FileConverter.convert`: the older synchronous engine. The same chunk
 * loop as the streaming engine, but it reports progress by calling an
 * optional callback after every chunk, stops with `aborted` when the
 * callback answers `.abort`, and returns normally when a read comes back
 * empty. The fault draw precedes every read, the last empty one included.
 *
 * The fault draw is an oracle indexed by the pass of the loop, and the
 * callback by its invocation number (the callback may keep state, so its
 * k-th answer is arbitrary); the pacing sleep is omitted.
 */
module FileConverter {
  import opened Wrappers
  import opened Streams

  /** `ProgressAction`, the callback's answer. */
  datatype ProgressAction = Continue | Abort

  /** The optional `progress` closure; its answer to its k-th invocation is `answer(k)`. */
  datatype Callback = Silent | Reporting(answer: nat -> ProgressAction)

  datatype Outcome = Returned | Threw(error: Error)

  /** What the loop appends to the target, the values it passes to the callback, and how it ends. */
  datatype Run = Run(output: seq<byte>, calls: seq<Fraction>, outcome: Outcome)
  {
    /** This run, preceded by the given output and calls. */
    function After(output': seq<byte>, calls': seq<Fraction>): Run
    {
      Run(output' + output, calls' + calls, outcome)
    }
  }

  /** The target's final contents (`None`: never created), the callback's arguments, the outcome. */
  datatype Result = Result(target: Option<seq<byte>>, calls: seq<Fraction>, outcome: Outcome)

  /** The `while true` loop from pass `iteration` on, with the input handle at `written`. */
  function Loop(data: seq<byte>, total: nat, written: nat, iteration: nat,
                fault: nat -> bool, progress: Callback): Run
    requires written <= |data|
    decreases |data| - written
  {
    if fault(iteration) then
      Run([], [], Threw(Conversion(DataError)))
    else
      var chunk := Chunk(data, written);
      if chunk == [] then
        Run([], [], Returned)
      else
        var value := Fraction(written + |chunk|, total);
        if progress.Reporting? && progress.answer(iteration) == Abort then
          Run(ComplementAll(chunk), [value], Threw(Conversion(Aborted)))
        else
          var rest := Loop(data, total, written + |chunk|, iteration + 1, fault, progress);
          Run(ComplementAll(chunk) + rest.output, (if progress.Reporting? then [value] else []) + rest.calls, rest.outcome)
  }

  /** The whole call: size attribute, opening the source, creating the target, then the loop. */
  function Converted(source: Option<SourceFile>, targetCreatable: bool,
                     fault: nat -> bool, progress: Callback): Result
  {
    if source.None? then
      Result(None, [], Threw(FileSystem))
    else if source.value.sizeAttribute.None? then
      Result(None, [], Threw(Conversion(InputError)))
    else if !source.value.readable then
      Result(None, [], Threw(FileSystem))
    else if !targetCreatable then
      Result(None, [], Threw(Conversion(OutputError)))
    else
      var run := Loop(source.value.contents, source.value.sizeAttribute.value, 0, 0, fault, progress);
      Result(Some(run.output), run.calls, run.outcome)
  }

  /** `convert(from:to:progress:)`; the input handle's position is `bytesWritten`. */
  method Convert(source: Option<SourceFile>, targetCreatable: bool,
                 fault: nat -> bool, progress: Callback)
    returns (target: Option<seq<byte>>, calls: seq<Fraction>, outcome: Outcome)
    ensures Result(target, calls, outcome) == Converted(source, targetCreatable, fault, progress)
  {
    if source.None? {
      return None, [], Threw(FileSystem);
    }
    var file := source.value;
    if file.sizeAttribute.None? {
      return None, [], Threw(Conversion(InputError));
    }
    var totalBytes := file.sizeAttribute.value;
    if !file.readable {
      return None, [], Threw(FileSystem);
    }
    if !targetCreatable {
      return None, [], Threw(Conversion(OutputError));
    }
    var output, calls', outcome' := Pump(file.contents, totalBytes, fault, progress);
    return Some(output), calls', outcome';
  }

  /** The `while true` loop of `convert`, from an empty target; the input handle's position is `bytesWritten`. */
  method Pump(data: seq<byte>, totalBytes: nat, fault: nat -> bool, progress: Callback)
    returns (output: seq<byte>, calls: seq<Fraction>, outcome: Outcome)
    ensures Run(output, calls, outcome) == Loop(data, totalBytes, 0, 0, fault, progress)
  {
    output := [];
    calls := [];
    var bytesWritten: nat := 0;
    var iteration: nat := 0;
    ghost var whole := Loop(data, totalBytes, 0, 0, fault, progress);
    YieldsFromStart(data, totalBytes, fault, progress);
    while true
      invariant bytesWritten <= |data|
      invariant Yields(data, totalBytes, bytesWritten, iteration, fault, progress, output, calls, whole)
      decreases |data| - bytesWritten
    {
      if fault(iteration) {
        LoopEnds(data, totalBytes, bytesWritten, iteration, fault, progress, output, calls, whole);
        return output, calls, Threw(Conversion(DataError));
      }
      var readData := Chunk(data, bytesWritten);
      if readData == [] {
        LoopEnds(data, totalBytes, bytesWritten, iteration, fault, progress, output, calls, whole);
        return output, calls, Returned;
      }
      if progress.Reporting? {
        LoopStepReporting(data, totalBytes, bytesWritten, iteration, fault, progress, output, calls, whole);
      } else {
        LoopStepSilent(data, totalBytes, bytesWritten, iteration, fault, progress, output, calls, whole);
      }
      var convertedData := ComplementAll(readData);
      output := output + convertedData;
      bytesWritten := bytesWritten + |convertedData|;
      if progress.Reporting? {
        calls := calls + [Fraction(bytesWritten, totalBytes)];
        if progress.answer(iteration) == Abort {
          return output, calls, Threw(Conversion(Aborted));
        }
      }
      iteration := iteration + 1;
    }
  }

  /**
   * The loop from the pass `iteration`, with the handle at `written`, after
   * `output` was written and `calls` were made, completes the run `whole`.
   * It is phrased over the continued run `rest.After(output, calls)`, so that
   * the loop's definition is only unfolded where a proof speaks of that run.
   */
  ghost predicate Yields(data: seq<byte>, total: nat, written: nat, iteration: nat,
                         fault: nat -> bool, progress: Callback,
                         output: seq<byte>, calls: seq<Fraction>, whole: Run)
  {
    && written <= |data|
    && forall rest {:trigger rest.After(output, calls)} ::
         rest == Loop(data, total, written, iteration, fault, progress) ==> rest.After(output, calls) == whole
  }

  /** Nothing written and no call made yet, the loop from the start completes its own run. */
  lemma YieldsFromStart(data: seq<byte>, total: nat, fault: nat -> bool, progress: Callback)
    ensures Yields(data, total, 0, 0, fault, progress, [], [], Loop(data, total, 0, 0, fault, progress))
  {
    var whole := Loop(data, total, 0, 0, fault, progress);
    assert [] + whole.output == whole.output && [] + whole.calls == whole.calls;
  }

  /**
   * One pass that reads a non-empty chunk without a progress callback, seen
   * from the run so far: it leaves the same whole run to the next pass.
   */
  lemma LoopStepSilent(data: seq<byte>, total: nat, written: nat, iteration: nat,
                       fault: nat -> bool, progress: Callback,
                       output: seq<byte>, calls: seq<Fraction>, whole: Run)
    requires Yields(data, total, written, iteration, fault, progress, output, calls, whole)
    requires written < |data| && !fault(iteration) && progress.Silent?
    ensures var converted := ComplementAll(Chunk(data, written));
      var next := written + |converted|;
      Yields(data, total, next, iteration + 1, fault, progress, output + converted, calls, whole)
  {
    assert Loop(data, total, written, iteration, fault, progress).After(output, calls) == whole;
    var chunk := Chunk(data, written);
    var rest := Loop(data, total, written + |chunk|, iteration + 1, fault, progress);
    assert output + (ComplementAll(chunk) + rest.output) == output + ComplementAll(chunk) + rest.output;
    assert calls + ([] + rest.calls) == calls + rest.calls;
  }

  /**
   * One pass that reads a non-empty chunk and reports it, seen from the run
   * so far: it ends the run on `.abort`, and otherwise leaves the same whole
   * run to the next pass.
   */
  lemma LoopStepReporting(data: seq<byte>, total: nat, written: nat, iteration: nat,
                          fault: nat -> bool, progress: Callback,
                          output: seq<byte>, calls: seq<Fraction>, whole: Run)
    requires Yields(data, total, written, iteration, fault, progress, output, calls, whole)
    requires written < |data| && !fault(iteration) && progress.Reporting?
    ensures var converted := ComplementAll(Chunk(data, written));
      var next := written + |converted|;
      && (progress.answer(iteration) == Continue ==>
            Yields(data, total, next, iteration + 1, fault, progress, output + converted, calls + [Fraction(next, total)], whole))
      && (progress.answer(iteration) == Abort ==>
            whole == Run(output + converted, calls + [Fraction(next, total)], Threw(Conversion(Aborted))))
  {
    assert Loop(data, total, written, iteration, fault, progress).After(output, calls) == whole;
    var chunk := Chunk(data, written);
    var value := Fraction(written + |chunk|, total);
    if progress.answer(iteration) == Continue {
      var rest := Loop(data, total, written + |chunk|, iteration + 1, fault, progress);
      assert output + (ComplementAll(chunk) + rest.output) == output + ComplementAll(chunk) + rest.output;
      assert calls + ([value] + rest.calls) == calls + [value] + rest.calls;
    }
  }

  /** A pass that draws a fault, or finds the input exhausted, ends the run with what was written so far. */
  lemma LoopEnds(data: seq<byte>, total: nat, written: nat, iteration: nat,
                 fault: nat -> bool, progress: Callback,
                 output: seq<byte>, calls: seq<Fraction>, whole: Run)
    requires Yields(data, total, written, iteration, fault, progress, output, calls, whole)
    requires fault(iteration) || written == |data|
    ensures whole == Run(output, calls, if fault(iteration) then Threw(Conversion(DataError)) else Returned)
  {
    assert Loop(data, total, written, iteration, fault, progress).After(output, calls) == whole;
    assert output + [] == output && calls + [] == calls;
  }

  /** A pass that reads a non-empty chunk, with the chunk's bounds written out. */
  lemma LoopUnfold(data: seq<byte>, total: nat, written: nat, iteration: nat,
                   fault: nat -> bool, progress: Callback)
    requires written < |data| && !fault(iteration)
    ensures var next := Min(written + BufferSize, |data|);
      var here := Loop(data, total, written, iteration, fault, progress);
      var rest := Loop(data, total, next, iteration + 1, fault, progress);
      var out := ComplementAll(data[written..next]);
      && written < next
      && data[written..next] == Chunk(data, written)
      && (progress.Reporting? && progress.answer(iteration) == Abort ==>
            here == Run(out, [Fraction(next, total)], Threw(Conversion(Aborted))))
      && (progress.Reporting? && progress.answer(iteration) == Continue ==>
            here == Run(out + rest.output, [Fraction(next, total)] + rest.calls, rest.outcome))
      && (progress.Silent? ==> here == Run(out + rest.output, rest.calls, rest.outcome))
  {
  }

  /**
   * What one pass writes before the rest of the loop: nothing on a fault or
   * at the end of the input, otherwise the converted chunk, followed by the
   * rest of the loop unless the callback answered `.abort`.
   */
  lemma OutputStep(data: seq<byte>, total: nat, written: nat, iteration: nat,
                   fault: nat -> bool, progress: Callback)
    returns (next: nat, continues: bool)
    requires written <= |data|
    ensures written <= next <= |data|
    ensures continues <==> !fault(iteration) && written < |data| && !(progress.Reporting? && progress.answer(iteration) == Abort)
    ensures continues ==> written < next
    ensures Loop(data, total, written, iteration, fault, progress).output
      == ComplementAll(data[written..next])
         + (if continues then Loop(data, total, next, iteration + 1, fault, progress).output else [])
  {
    continues := !fault(iteration) && written < |data| && !(progress.Reporting? && progress.answer(iteration) == Abort);
    if !fault(iteration) && written < |data| {
      next := Min(written + BufferSize, |data|);
      LoopUnfold(data, total, written, iteration, fault, progress);
    } else {
      next := written;
      assert ComplementAll(data[written..written]) + [] == [];
    }
  }

  /** `output` is the complement of the bytes of `data` from `written` on, as many as it holds. */
  predicate ConvertedFrom(data: seq<byte>, written: nat, output: seq<byte>)
  {
    written + |output| <= |data| && output == ComplementAll(data[written..written + |output|])
  }

  /** The loop writes the complement of exactly the bytes it consumed, in order. */
  lemma {:induction false} LoopOutput(data: seq<byte>, total: nat, written: nat, iteration: nat,
                                      fault: nat -> bool, progress: Callback)
    requires written <= |data|
    ensures ConvertedFrom(data, written, Loop(data, total, written, iteration, fault, progress).output)
    decreases |data| - written
  {
    var next, continues := OutputStep(data, total, written, iteration, fault, progress);
    var output := Loop(data, total, written, iteration, fault, progress).output;
    if continues {
      LoopOutput(data, total, next, iteration + 1, fault, progress);
      OutputJoin(data, written, next, Loop(data, total, next, iteration + 1, fault, progress).output, output);
    } else {
      assert data[next..next] == [];
      OutputJoin(data, written, next, [], output);
    }
  }

  /** The complement of one slice followed by the complement of the next is the complement of both. */
  lemma OutputJoin(data: seq<byte>, written: nat, next: nat, rest: seq<byte>, output: seq<byte>)
    requires written <= next && ConvertedFrom(data, next, rest)
    requires output == ComplementAll(data[written..next]) + rest
    ensures ConvertedFrom(data, written, output)
  {
    ComplementSlices(data, written, next, next + |rest|);
  }

  /**
   * Without a callback nothing is reported. With one, the i-th call reports
   * the handle position after the i-th chunk, every chunk before it being a
   * full `BufferSize` bytes, and each call follows a non-empty read.
   */
  lemma {:induction false} LoopPositions(data: seq<byte>, total: nat, written: nat, iteration: nat,
                                         fault: nat -> bool, progress: Callback)
    requires written <= |data|
    ensures var r := Loop(data, total, written, iteration, fault, progress);
      && (progress.Silent? ==> r.calls == [])
      && (progress.Reporting? ==>
            forall i :: 0 <= i < |r.calls| ==>
              r.calls[i] == Fraction(Min(written + (i + 1) * BufferSize, |data|), total) && written + i * BufferSize < |data|)
    decreases |data| - written
  {
    if !fault(iteration) && written < |data| {
      var next := Min(written + BufferSize, |data|);
      LoopUnfold(data, total, written, iteration, fault, progress);
      if progress.Reporting? && progress.answer(iteration) == Abort {
        PositionsStep([], written, next, |data|, total);
      } else {
        LoopPositions(data, total, next, iteration + 1, fault, progress);
        if progress.Reporting? {
          var rest := Loop(data, total, next, iteration + 1, fault, progress);
          if rest.calls != [] {
            assert next + 0 * BufferSize < |data|;
          }
          PositionsStep(rest.calls, written, next, |data|, total);
        }
      }
    }
  }

  /** With a callback, the output ends where the last call says. */
  lemma {:induction false} LoopWritten(data: seq<byte>, total: nat, written: nat, iteration: nat,
                                       fault: nat -> bool, progress: Callback)
    requires written <= |data|
    ensures var r := Loop(data, total, written, iteration, fault, progress);
      progress.Reporting? ==> written + |r.output| == Min(written + |r.calls| * BufferSize, |data|)
    decreases |data| - written
  {
    if !fault(iteration) && written < |data| && progress.Reporting? {
      var next := Min(written + BufferSize, |data|);
      LoopUnfold(data, total, written, iteration, fault, progress);
      if progress.answer(iteration) == Continue {
        LoopWritten(data, total, next, iteration + 1, fault, progress);
        LoopPositions(data, total, next, iteration + 1, fault, progress);
        var rest := Loop(data, total, next, iteration + 1, fault, progress);
        if rest.calls != [] {
          assert next + 0 * BufferSize < |data|;
          ShiftByChunk(written, |rest.calls| + 1);
        }
      }
    }
  }

  /**
   * Without a callback nothing is reported. With one, the i-th call reports
   * the handle position after the i-th chunk, every chunk before it being a
   * full `BufferSize` bytes, each call follows a non-empty read, and the
   * output ends where the last call says.
   */
  lemma LoopCalls(data: seq<byte>, total: nat, written: nat, iteration: nat,
                  fault: nat -> bool, progress: Callback)
    requires written <= |data|
    ensures var r := Loop(data, total, written, iteration, fault, progress);
      && (progress.Silent? ==> r.calls == [])
      && (progress.Reporting? ==>
            && (forall i :: 0 <= i < |r.calls| ==> r.calls[i] == Fraction(Min(written + (i + 1) * BufferSize, |data|), total))
            && (forall i :: 0 <= i < |r.calls| ==> written + i * BufferSize < |data|)
            && written + |r.output| == Min(written + |r.calls| * BufferSize, |data|))
  {
    LoopPositions(data, total, written, iteration, fault, progress);
    LoopWritten(data, total, written, iteration, fault, progress);
  }

  /**
   * How a run can end: returning only once the whole input was consumed,
   * `aborted` only right after a call the callback answered with `.abort`,
   * and otherwise with `dataError`.
   */
  /**
   * The number of non-empty reads that deliver `n` bytes in all when every
   * read but the last is a full chunk.
   */
  function ChunksOf(n: nat): nat
  {
    (n + BufferSize - 1) / BufferSize
  }

  /** Every pass from `from` up to `to` drew no fault and, with a callback, was answered `.continue`. */
  predicate Proceeds(fault: nat -> bool, progress: Callback, from: nat, to: nat)
  {
    forall k :: from <= k < to ==> !fault(k) && (progress.Reporting? ==> progress.answer(k) == Continue)
  }

  lemma LoopOutcome(data: seq<byte>, total: nat, written: nat, iteration: nat,
                    fault: nat -> bool, progress: Callback)
    requires written <= |data|
    ensures var r := Loop(data, total, written, iteration, fault, progress);
      var last := iteration + ChunksOf(|r.output|);
      && (r.outcome == Returned || r.outcome == Threw(Conversion(DataError)) || r.outcome == Threw(Conversion(Aborted)))
      && (r.outcome == Returned ==> written + |r.output| == |data|)
      && (r.outcome == Threw(Conversion(Aborted)) ==>
            progress.Reporting? && |r.calls| > 0 && progress.answer(iteration + |r.calls| - 1) == Abort)
      && (r.outcome != Threw(Conversion(Aborted)) ==> Proceeds(fault, progress, iteration, last))
      && (r.outcome == Threw(Conversion(DataError)) ==> fault(last))
      && (r.outcome == Returned ==> !fault(last))
  {
    OutcomeKinds(data, total, written, iteration, fault, progress);
    FaultPass(data, total, written, iteration, fault, progress);
  }

  /** The three outcomes, and what ends a run in `aborted`. */
  lemma {:induction false} OutcomeKinds(data: seq<byte>, total: nat, written: nat, iteration: nat,
                                       fault: nat -> bool, progress: Callback)
    requires written <= |data|
    ensures var r := Loop(data, total, written, iteration, fault, progress);
      && (r.outcome == Returned || r.outcome == Threw(Conversion(DataError)) || r.outcome == Threw(Conversion(Aborted)))
      && (r.outcome == Returned ==> written + |r.output| == |data|)
      && (r.outcome == Threw(Conversion(Aborted)) ==>
            progress.Reporting? && |r.calls| > 0 && progress.answer(iteration + |r.calls| - 1) == Abort)
    decreases |data| - written
  {
    if !fault(iteration) && written < |data| {
      var next := Min(written + BufferSize, |data|);
      LoopUnfold(data, total, written, iteration, fault, progress);
      if !(progress.Reporting? && progress.answer(iteration) == Abort) {
        OutcomeKinds(data, total, next, iteration + 1, fault, progress);
        var rest := Loop(data, total, next, iteration + 1, fault, progress);
        if progress.Reporting? && rest.outcome == Threw(Conversion(Aborted)) {
          assert iteration + 1 + |rest.calls| - 1 == iteration + (1 + |rest.calls|) - 1;
        }
      }
    }
  }

  /**
   * A run that does not abort ends at the pass after its last chunk: that
   * pass draws the fault of `dataError`, or reads the end of input and
   * returns; no pass before it drew a fault or was answered `.abort`.
   */
  predicate EndsAtPass(fault: nat -> bool, progress: Callback, iteration: nat, r: Run)
  {
    r.outcome != Threw(Conversion(Aborted)) ==>
      && Proceeds(fault, progress, iteration, iteration + ChunksOf(|r.output|))
      && (r.outcome == Threw(Conversion(DataError)) <==> fault(iteration + ChunksOf(|r.output|)))
  }

  lemma {:induction false} FaultPass(data: seq<byte>, total: nat, written: nat, iteration: nat,
                                     fault: nat -> bool, progress: Callback)
    requires written <= |data|
    ensures EndsAtPass(fault, progress, iteration, Loop(data, total, written, iteration, fault, progress))
    decreases |data| - written
  {
    if !fault(iteration) && written < |data| {
      var next := Min(written + BufferSize, |data|);
      LoopUnfold(data, total, written, iteration, fault, progress);
      if !(progress.Reporting? && progress.answer(iteration) == Abort) {
        FaultPass(data, total, next, iteration + 1, fault, progress);
        var rest := Loop(data, total, next, iteration + 1, fault, progress);
        if next < written + BufferSize {
          assert next == |data|;
          assert rest.output == [];
        }
        EndsAtPassCons(fault, progress, iteration, next - written,
                       Loop(data, total, written, iteration, fault, progress), rest);
      }
    } else {
      assert ChunksOf(0) == 0;
    }
  }

  /** A pass that converts `c` bytes and proceeds, in front of a run that ends at a pass, ends at that pass too. */
  lemma EndsAtPassCons(fault: nat -> bool, progress: Callback, iteration: nat, c: nat, here: Run, rest: Run)
    requires !fault(iteration) && (progress.Reporting? ==> progress.answer(iteration) == Continue)
    requires 0 < c <= BufferSize && (c == BufferSize || rest.output == [])
    requires |here.output| == c + |rest.output| && here.outcome == rest.outcome
    requires EndsAtPass(fault, progress, iteration + 1, rest)
    ensures EndsAtPass(fault, progress, iteration, here)
  {
    ChunksStep(c, |rest.output|);
    if rest.outcome != Threw(Conversion(Aborted)) {
      ProceedsCons(fault, progress, iteration, iteration + 1 + ChunksOf(|rest.output|));
    }
  }

  /** One more non-empty read, full unless nothing follows it, counts one more chunk. */
  lemma ChunksStep(c: nat, n: nat)
    requires 0 < c <= BufferSize && (c == BufferSize || n == 0)
    ensures ChunksOf(c + n) == 1 + ChunksOf(n)
  {
  }

  /** A pass that proceeds in front of a stretch that proceeds makes a longer stretch. */
  lemma ProceedsCons(fault: nat -> bool, progress: Callback, from: nat, to: nat)
    requires !fault(from) && (progress.Reporting? ==> progress.answer(from) == Continue)
    requires Proceeds(fault, progress, from + 1, to)
    ensures Proceeds(fault, progress, from, to)
  {
  }

  /**
   * When the first j passes proceed and each of them still finds input, and
   * pass j draws the fault, the loop throws `dataError` with exactly the
   * first j chunks converted.
   */
  lemma LoopFaultsAtPass(data: seq<byte>, total: nat, written: nat, iteration: nat,
                         fault: nat -> bool, progress: Callback, j: nat)
    requires written <= |data|
    requires j == 0 || written + (j - 1) * BufferSize < |data|
    requires Proceeds(fault, progress, iteration, iteration + j)
    requires fault(iteration + j)
    ensures var r := Loop(data, total, written, iteration, fault, progress);
      && r.outcome == Threw(Conversion(DataError))
      && r.output == ComplementAll(data[written..Min(written + j * BufferSize, |data|)])
  {
    FaultedAfter(data, total, written, iteration, fault, progress, j);
    LoopOutput(data, total, written, iteration, fault, progress);
  }

  /** The same run, with how far it wrote in place of what it wrote. */
  lemma {:induction false} FaultedAfter(data: seq<byte>, total: nat, written: nat, iteration: nat,
                                        fault: nat -> bool, progress: Callback, j: nat)
    requires written <= |data|
    requires j == 0 || written + (j - 1) * BufferSize < |data|
    requires Proceeds(fault, progress, iteration, iteration + j)
    requires fault(iteration + j)
    ensures var r := Loop(data, total, written, iteration, fault, progress);
      && r.outcome == Threw(Conversion(DataError))
      && written + |r.output| == Min(written + j * BufferSize, |data|)
    decreases j
  {
    if j > 0 {
      assert !fault(iteration) && (progress.Reporting? ==> progress.answer(iteration) == Continue);
      LoopUnfold(data, total, written, iteration, fault, progress);
      var next := Min(written + BufferSize, |data|);
      if j > 1 {
        assert next == written + BufferSize;
        assert next + (j - 2) * BufferSize == written + (j - 1) * BufferSize;
      }
      assert iteration + 1 + (j - 1) == iteration + j;
      assert Proceeds(fault, progress, iteration + 1, iteration + 1 + (j - 1));
      FaultedAfter(data, total, next, iteration + 1, fault, progress, j - 1);
      if next == written + BufferSize {
        assert next + (j - 1) * BufferSize == written + j * BufferSize;
      }
    }
  }

  /** With no fault and no `.abort`, the loop returns after converting the whole rest of the input. */
  lemma {:induction false} LoopCompletes(data: seq<byte>, total: nat, written: nat, iteration: nat,
                                         fault: nat -> bool, progress: Callback)
    requires written <= |data|
    requires forall k :: !fault(k)
    requires progress.Reporting? ==> forall k :: progress.answer(k) == Continue
    ensures var r := Loop(data, total, written, iteration, fault, progress);
      r.outcome == Returned && r.output == ComplementAll(data[written..])
    decreases |data| - written
  {
    if written < |data| {
      var next := Min(written + BufferSize, |data|);
      LoopUnfold(data, total, written, iteration, fault, progress);
      LoopCompletes(data, total, next, iteration + 1, fault, progress);
      assert data[written..] == data[written..next] + data[next..];
      ComplementAllAppend(data[written..next], data[next..]);
    } else {
      assert !fault(iteration);
      assert ComplementAll(data[written..]) == [];
    }
  }

  /**
   * When the callback answers `.continue` to its first j calls and `.abort`
   * to the next one, and the input still has a chunk for that call, the loop
   * throws `aborted` after exactly j + 1 calls, with the first j + 1 chunks
   * converted.
   */
  lemma LoopAbortsAtCall(data: seq<byte>, total: nat, written: nat, iteration: nat,
                         fault: nat -> bool, progress: Callback, j: nat)
    requires written + j * BufferSize < |data|
    requires forall k :: iteration <= k <= iteration + j ==> !fault(k)
    requires progress.Reporting?
    requires forall k :: iteration <= k < iteration + j ==> progress.answer(k) == Continue
    requires progress.answer(iteration + j) == Abort
    ensures var r := Loop(data, total, written, iteration, fault, progress);
      && r.outcome == Threw(Conversion(Aborted))
      && |r.calls| == j + 1
      && r.output == ComplementAll(data[written..Min(written + (j + 1) * BufferSize, |data|)])
  {
    AbortedAfter(data, total, written, iteration, fault, progress, j);
    LoopOutput(data, total, written, iteration, fault, progress);
  }

  /** The same run, with how far it wrote in place of what it wrote. */
  lemma {:induction false} AbortedAfter(data: seq<byte>, total: nat, written: nat, iteration: nat,
                                        fault: nat -> bool, progress: Callback, j: nat)
    requires written + j * BufferSize < |data|
    requires forall k :: iteration <= k <= iteration + j ==> !fault(k)
    requires progress.Reporting?
    requires forall k :: iteration <= k < iteration + j ==> progress.answer(k) == Continue
    requires progress.answer(iteration + j) == Abort
    ensures var r := Loop(data, total, written, iteration, fault, progress);
      && r.outcome == Threw(Conversion(Aborted))
      && |r.calls| == j + 1
      && written + |r.output| == Min(written + (j + 1) * BufferSize, |data|)
    decreases j
  {
    assert !fault(iteration);
    LoopUnfold(data, total, written, iteration, fault, progress);
    var next := Min(written + BufferSize, |data|);
    if j > 0 {
      assert progress.answer(iteration) == Continue;
      assert next == written + BufferSize;
      assert next + (j - 1) * BufferSize == written + j * BufferSize;
      assert iteration + 1 + (j - 1) == iteration + j;
      AbortedAfter(data, total, next, iteration + 1, fault, progress, j - 1);
      assert next + j * BufferSize == written + (j + 1) * BufferSize;
    }
  }

  /** The error cases before the loop: nothing reported and no target. */
  lemma ConvertedEarlyFailures(source: SourceFile, targetCreatable: bool, fault: nat -> bool, progress: Callback)
    ensures Converted(None, targetCreatable, fault, progress) == Result(None, [], Threw(FileSystem))
    ensures source.sizeAttribute.None? ==>
      Converted(Some(source), targetCreatable, fault, progress) == Result(None, [], Threw(Conversion(InputError)))
    ensures source.sizeAttribute.Some? && !source.readable ==>
      Converted(Some(source), targetCreatable, fault, progress) == Result(None, [], Threw(FileSystem))
    ensures source.sizeAttribute.Some? && source.readable && !targetCreatable ==>
      Converted(Some(source), targetCreatable, fault, progress) == Result(None, [], Threw(Conversion(OutputError)))
  {
  }

  /**
   * The target holds the complement of a prefix of the source, from which
   * converting again restores that prefix; after a normal return it is the
   * complement of the whole source.
   */
  lemma ConvertedOutput(source: SourceFile, targetCreatable: bool, fault: nat -> bool, progress: Callback)
    ensures var t := Converted(Some(source), targetCreatable, fault, progress);
      t.target.Some? ==>
        var out := t.target.value;
        && |out| <= |source.contents|
        && out == ComplementAll(source.contents[..|out|])
        && ComplementAll(out) == source.contents[..|out|]
        && (t.outcome == Returned ==> out == ComplementAll(source.contents))
  {
    var t := Converted(Some(source), targetCreatable, fault, progress);
    if t.target.Some? {
      var data := source.contents;
      var total := source.sizeAttribute.value;
      LoopOutput(data, total, 0, 0, fault, progress);
      LoopOutcome(data, total, 0, 0, fault, progress);
      assert data[0..|t.target.value|] == data[..|t.target.value|];
      ComplementInvolution(data[..|t.target.value|]);
      assert data[..|data|] == data;
    }
  }

  /**
   * The callback's arguments: none without a callback; with one, the
   * cumulative count over the size attribute after every chunk, strictly
   * increasing, the first reporting at most `BufferSize` bytes, and the last
   * one the length of the target.
   */
  lemma ConvertedCalls(source: SourceFile, targetCreatable: bool, fault: nat -> bool, progress: Callback)
    requires source.sizeAttribute.Some? && source.readable && targetCreatable
    ensures var t := Converted(Some(source), targetCreatable, fault, progress);
      && t.target.Some?
      && (progress.Silent? ==> t.calls == [])
      && (progress.Reporting? ==>
            && (forall i :: 0 <= i < |t.calls| ==>
                  t.calls[i] == Fraction(Min((i + 1) * BufferSize, |source.contents|), source.sizeAttribute.value))
            && (forall i :: 0 <= i < |t.calls| ==> 0 < t.calls[i].written <= |source.contents|)
            && (forall i, j :: 0 <= i < j < |t.calls| ==> t.calls[i].written < t.calls[j].written)
            && (|t.calls| > 0 ==> t.calls[|t.calls| - 1].written == |t.target.value|))
  {
    var data := source.contents;
    var t := Converted(Some(source), targetCreatable, fault, progress);
    LoopCalls(data, source.sizeAttribute.value, 0, 0, fault, progress);
    if progress.Reporting? {
      var cs := t.calls;
      forall i | 0 <= i < |cs|
        ensures 0 < cs[i].written <= |data|
      {
        assert 0 + i * BufferSize < |data|;
      }
      forall i, j | 0 <= i < j < |cs|
        ensures cs[i].written < cs[j].written
      {
        assert 0 + j * BufferSize < |data|;
        assert (i + 1) * BufferSize <= j * BufferSize;
      }
    }
  }

  /** `aborted` is thrown only right after a call that the callback answered with `.abort`. */
  lemma ConvertedAbortFollowsAnswer(source: SourceFile, targetCreatable: bool, fault: nat -> bool, progress: Callback)
    ensures var t := Converted(Some(source), targetCreatable, fault, progress);
      t.outcome == Threw(Conversion(Aborted)) ==>
        progress.Reporting? && |t.calls| > 0 && progress.answer(|t.calls| - 1) == Abort
  {
    if source.sizeAttribute.Some? && source.readable && targetCreatable {
      LoopOutcome(source.contents, source.sizeAttribute.value, 0, 0, fault, progress);
    }
  }

  /**
   * With no fault and no `.abort`, the call returns normally with the
   * complement of the whole source in the target, and converting the target
   * again gives back the source.
   */
  lemma ConvertedCompletes(source: SourceFile, fault: nat -> bool, progress: Callback)
    requires source.sizeAttribute.Some? && source.readable
    requires forall k :: !fault(k)
    requires progress.Reporting? ==> forall k :: progress.answer(k) == Continue
    ensures var t := Converted(Some(source), true, fault, progress);
      && t.outcome == Returned
      && t.target == Some(ComplementAll(source.contents))
      && ComplementAll(t.target.value) == source.contents
  {
    LoopCompletes(source.contents, source.sizeAttribute.value, 0, 0, fault, progress);
    assert source.contents[0..] == source.contents;
    ComplementInvolution(source.contents);
  }

  /**
   * An `.abort` answered to call j (the first j answered `.continue`) stops
   * the conversion after j + 1 calls with the first j + 1 chunks converted.
   */
  lemma ConvertedAbortsAtCall(source: SourceFile, fault: nat -> bool, progress: Callback, j: nat)
    requires source.sizeAttribute.Some? && source.readable
    requires j * BufferSize < |source.contents|
    requires forall k :: 0 <= k <= j ==> !fault(k)
    requires progress.Reporting?
    requires forall k :: 0 <= k < j ==> progress.answer(k) == Continue
    requires progress.answer(j) == Abort
    ensures var t := Converted(Some(source), true, fault, progress);
      && t.outcome == Threw(Conversion(Aborted))
      && |t.calls| == j + 1
      && t.target == Some(ComplementAll(source.contents[..Min((j + 1) * BufferSize, |source.contents|)]))
  {
    LoopAbortsAtCall(source.contents, source.sizeAttribute.value, 0, 0, fault, progress, j);
    assert source.contents[0..Min((j + 1) * BufferSize, |source.contents|)]
        == source.contents[..Min((j + 1) * BufferSize, |source.contents|)];
  }

  /**
   * When the first j passes proceed and each of them still finds input, a
   * fault drawn at pass j stops the conversion with `dataError` and the
   * first j chunks converted.
   */
  lemma ConvertedFaultsAtPass(source: SourceFile, fault: nat -> bool, progress: Callback, j: nat)
    requires source.sizeAttribute.Some? && source.readable
    requires j == 0 || (j - 1) * BufferSize < |source.contents|
    requires Proceeds(fault, progress, 0, j)
    requires fault(j)
    ensures var t := Converted(Some(source), true, fault, progress);
      && t.outcome == Threw(Conversion(DataError))
      && t.target == Some(ComplementAll(source.contents[..Min(j * BufferSize, |source.contents|)]))
  {
    LoopFaultsAtPass(source.contents, source.sizeAttribute.value, 0, 0, fault, progress, j);
    assert source.contents[0..Min(j * BufferSize, |source.contents|)]
        == source.contents[..Min(j * BufferSize, |source.contents|)];
  }

  /**
   * The fault draw precedes the final, empty read too: a source can be fully
   * converted and still end in `dataError`, when the fault is drawn at the
   * pass after its last chunk.
   */
  lemma ConvertedFaultAfterLastChunk(source: SourceFile, fault: nat -> bool, progress: Callback)
    requires source.sizeAttribute.Some? && source.readable
    requires Proceeds(fault, progress, 0, ChunksOf(|source.contents|))
    requires fault(ChunksOf(|source.contents|))
    ensures var t := Converted(Some(source), true, fault, progress);
      && t.outcome == Threw(Conversion(DataError))
      && t.target == Some(ComplementAll(source.contents))
  {
    var n := |source.contents|;
    ChunksCover(n);
    ConvertedFaultsAtPass(source, fault, progress, ChunksOf(n));
    assert source.contents[..n] == source.contents;
  }

  /** `ChunksOf(n)` full chunks cover n bytes, and one fewer does not. */
  lemma ChunksCover(n: nat)
    ensures n <= ChunksOf(n) * BufferSize
    ensures ChunksOf(n) == 0 || (ChunksOf(n) - 1) * BufferSize < n
  {
  }

  /** An empty source returns at once, with an empty target, and the callback is never called. */
  lemma ConvertedEmptySource(source: SourceFile, fault: nat -> bool, progress: Callback)
    requires source.sizeAttribute.Some? && source.readable && source.contents == []
    requires !fault(0)
    ensures Converted(Some(source), true, fault, progress) == Result(Some([]), [], Returned)
  {
    assert Chunk(source.contents, 0) == [];
  }
}
