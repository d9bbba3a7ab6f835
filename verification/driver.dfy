/**
 * The per-input-byte driver loop: read a byte, hand it to the decoder,
 * account for the code units it writes, and in the limit modes remember the
 * last input offset whose encoded length is still within the limit,
 * stopping at the first byte that goes over.
 */
module Driver {
  import opened Wrappers
  import opened CodeUnits
  import opened Accumulator
  import opened Decoder

  /**
   * What the caller asked for: the SMS length of the whole input, the
   * number of input bytes that fit under a limit (`-r`), or those bytes
   * themselves (`-t`).
   */
  datatype Mode = Measure | CountFitting(limit: nat) | CopyFitting(limit: nat)

  /** The byte limit in force, if any. */
  function Limit(mode: Mode): Option<nat> {
    match mode
    case Measure => None
    case CountFitting(limit) => Some(limit)
    case CopyFitting(limit) => Some(limit)
  }

  /** The final answer of a successful run. */
  datatype Answer = Length(length: nat) | FittingBytes(count: nat) | Prefix(prefix: seq<uint8>)

  /**
   * Why a run produced no answer. An invalid sequence is reported with the
   * number of input bytes read, the offending byte included.
   */
  datatype Failure = InvalidSequence(offset: nat) | DecoderFailure

  /**
   * The loop's state: the totals, the code units left in the output buffer
   * by incomplete conversions, `input_count`, `input_mark`, and the copy of
   * the input kept in `-t` mode.
   */
  datatype State = State(totals: Totals, pending: seq<uint16>, count: nat, mark: nat, copy: seq<uint8>)

  /** The state before the first byte is read. */
  const Initial: State := State(Start, [], 0, 0, [])

  /** Where one iteration of the loop leaves the run. */
  datatype Next = Continue(state: State) | Stop(state: State) | Abort(failure: Failure)

  /** The failure a fatal decoder report causes at the given input count. */
  function FailureOf(o: Outcome, count: nat): Failure
    requires IsError(o)
  {
    if o.Invalid? then InvalidSequence(count) else DecoderFailure
  }

  /**
   * One iteration of the loop for the input byte of `step`. The byte is
   * counted (and copied in `-t` mode) before the decoder report is looked
   * at; a fatal report aborts; an incomplete character leaves totals and
   * mark alone; a conversion drains the output buffer into the totals and,
   * unless the new length exceeds the limit, moves the mark to the count.
   */
  function Feed(mode: Mode, s: State, step: Step): (n: Next)
    ensures n.Abort? <==> IsError(step.outcome)
    ensures n.Abort? ==> n.failure == FailureOf(step.outcome, s.count + 1)
    ensures !n.Abort? ==> n.state.count == s.count + 1
    ensures !n.Abort? ==> n.state.copy == if mode.CopyFitting? then s.copy + [step.byte] else s.copy
    ensures !n.Abort? ==> (s.totals.needUtf16 ==> n.state.totals.needUtf16)
    ensures !n.Abort? ==> (s.totals.needUtf16 ==> n.state.totals.gsmBits == s.totals.gsmBits)
    ensures n.Continue? && step.outcome.Converted? ==> n.state.mark == n.state.count
    ensures !(n.Continue? && step.outcome.Converted?) && !n.Abort? ==> n.state.mark == s.mark
    ensures n.Stop? <==> step.outcome.Converted? && Limit(mode).Some? && CalculateLength(n.state.totals) > Limit(mode).value
    ensures step.outcome.NeedMore? ==>
      n.state.totals == s.totals && n.state.pending == s.pending + step.outcome.partial
    ensures step.outcome.Converted? ==>
      n.state.totals == ObserveAll(s.totals, s.pending + step.outcome.units) && n.state.pending == []
  {
    var count := s.count + 1;
    var copy := if mode.CopyFitting? then s.copy + [step.byte] else s.copy;
    match step.outcome
    case NeedMore(partial) =>
      Continue(s.(count := count, copy := copy, pending := s.pending + partial))
    case Invalid =>
      Abort(InvalidSequence(count))
    case Failed =>
      Abort(DecoderFailure)
    case Converted(units) =>
      ObserveAllEffect(s.totals, s.pending + units);
      var totals := ObserveAll(s.totals, s.pending + units);
      var s' := s.(totals := totals, pending := [], count := count, copy := copy);
      if Limit(mode).Some? && CalculateLength(totals) > Limit(mode).value then
        Stop(s')
      else
        Continue(s'.(mark := count))
  }

  /** The answer printed or written once the loop is over. */
  function Output(mode: Mode, s: State): Answer
    requires mode.CopyFitting? ==> s.mark <= |s.copy|
  {
    match mode
    case Measure => Length(CalculateLength(s.totals))
    case CountFitting(_) => FittingBytes(s.mark)
    case CopyFitting(_) => Prefix(s.copy[..s.mark])
  }

  // ---------------------------------------------------------------------
  // What the answer means, stated over the input independently of the loop

  /** The code units fully decoded from the first `k` bytes fit within `limit` bytes of SMS. */
  predicate FitsWithin(steps: seq<Step>, k: nat, limit: nat)
    requires k <= |steps|
  {
    SmsLength(Decoded(steps[..k])) <= limit
  }

  /**
   * `k` is the truncation point of the input under `limit`: a clean offset
   * reached without error whose decoded text fits, after which no clean
   * offset fits, and before the first of those no fatal report occurs.
   */
  ghost predicate IsTruncationPoint(steps: seq<Step>, limit: nat, k: nat) {
    && k <= |steps|
    && CleanAt(steps, k)
    && NoErrorBefore(steps, k)
    && FitsWithin(steps, k, limit)
    && (forall j :: k < j <= |steps| && CleanAt(steps, j) ==> !FitsWithin(steps, j, limit))
    && (forall e :: k <= e < |steps| && IsError(steps[e].outcome) ==>
          exists j :: k < j <= e && CleanAt(steps, j))
  }

  /**
   * The fatal report at step `e` is reached: no earlier step was fatal and,
   * under a limit, every earlier clean offset still fit.
   */
  ghost predicate IsReachedError(steps: seq<Step>, limit: Option<nat>, e: nat) {
    && e < |steps|
    && IsError(steps[e].outcome)
    && NoErrorBefore(steps, e)
    && (limit.Some? ==> forall k :: 0 <= k <= e && CleanAt(steps, k) ==> FitsWithin(steps, k, limit.value))
  }

  /** There is at most one truncation point. */
  lemma TruncationPointUnique(steps: seq<Step>, limit: nat, k1: nat, k2: nat)
    requires IsTruncationPoint(steps, limit, k1) && IsTruncationPoint(steps, limit, k2)
    ensures k1 == k2
  {
  }

  /**
   * Once a clean offset does not fit, no later clean offset fits: the
   * decoded text only grows and the SMS length with it.
   */
  lemma OvershootPersists(steps: seq<Step>, limit: nat, a: nat, b: nat)
    requires a <= b <= |steps|
    requires !FitsWithin(steps, a, limit)
    ensures !FitsWithin(steps, b, limit)
  {
    DecodedSplit(steps, a, b);
    SmsLengthMonotone(Decoded(steps[..a]), Decoded(steps[a..b]));
  }

  /**
   * What was flushed at the last clean offset, then buffered since, then
   * written by step `i`, is everything decoded from the first `i + 1` bytes.
   */
  lemma DecodedThroughStep(steps: seq<Step>, c: nat, i: nat)
    requires c <= i < |steps|
    ensures Decoded(steps[..c]) + (Decoded(steps[c..i]) + Written(steps[i].outcome)) == Decoded(steps[..i + 1])
  {
    var flushed, buffered, written := Decoded(steps[..c]), Decoded(steps[c..i]), Written(steps[i].outcome);
    assert flushed + buffered == Decoded(steps[..i]) by {
      DecodedSplit(steps, c, i);
    }
    assert Decoded(steps[..i + 1]) == Decoded(steps[..i]) + written by {
      DecodedSnoc(steps, i);
    }
    assert flushed + (buffered + written) == (flushed + buffered) + written;
  }

  /**
   * Draining the output buffer at a converted step `i` brings the totals to
   * those of everything decoded from the first `i + 1` bytes.
   */
  lemma DrainedTotals(steps: seq<Step>, c: nat, i: nat, totals: Totals, pending: seq<uint16>)
    requires c <= i < |steps| && steps[i].outcome.Converted?
    requires totals == Accumulate(Decoded(steps[..c]))
    requires pending == Decoded(steps[c..i])
    ensures ObserveAll(totals, pending + steps[i].outcome.units) == Accumulate(Decoded(steps[..i + 1]))
  {
    DecodedThroughStep(steps, c, i);
    AccumulateExtend(Decoded(steps[..c]), pending + steps[i].outcome.units, Decoded(steps[..i + 1]));
  }

  /** Every offset from an overshooting one onwards overshoots too. */
  lemma OvershootPersistsAll(steps: seq<Step>, limit: nat, a: nat)
    requires a <= |steps| && !FitsWithin(steps, a, limit)
    ensures forall b :: a <= b <= |steps| ==> !FitsWithin(steps, b, limit)
  {
    forall b | a <= b <= |steps| {
      OvershootPersists(steps, limit, a, b);
    }
  }

  /**
   * A fatal report at or after offset `c` comes after the clean offset
   * `i + 1` when no report before step `i` is fatal and step `i` converted.
   */
  lemma ErrorsAfterStop(steps: seq<Step>, c: nat, i: nat)
    requires c <= i < |steps| && steps[i].outcome.Converted?
    requires NoErrorBefore(steps, i)
    ensures forall e :: c <= e < |steps| && IsError(steps[e].outcome) ==>
      exists j :: c < j <= e && CleanAt(steps, j)
  {
    forall e | c <= e < |steps| && IsError(steps[e].outcome)
      ensures exists j :: c < j <= e && CleanAt(steps, j)
    {
      assert c < i + 1 <= e && CleanAt(steps, i + 1);
    }
  }

  /**
   * The loop stopping at step `i`, with every earlier clean offset fitting,
   * leaves the truncation point at the last clean offset `c` before it.
   */
  lemma StopIsTruncationPoint(steps: seq<Step>, limit: nat, c: nat, i: nat)
    requires c <= i < |steps| && steps[i].outcome.Converted?
    requires CleanAt(steps, c) && forall j :: c < j <= i ==> !CleanAt(steps, j)
    requires NoErrorBefore(steps, i)
    requires forall k :: 0 <= k <= i && CleanAt(steps, k) ==> FitsWithin(steps, k, limit)
    requires !FitsWithin(steps, i + 1, limit)
    ensures IsTruncationPoint(steps, limit, c)
  {
    assert NoErrorBefore(steps, c) && FitsWithin(steps, c, limit);
    OvershootPersistsAll(steps, limit, i + 1);
    ErrorsAfterStop(steps, c, i);
  }

  // ---------------------------------------------------------------------
  // The loop invariant

  /** Every clean offset up to `i` fits within `limit`. */
  ghost predicate AllCleanFit(steps: seq<Step>, i: nat, limit: nat)
    requires i <= |steps|
  {
    forall k :: 0 <= k <= i && CleanAt(steps, k) ==> FitsWithin(steps, k, limit)
  }

  /**
   * The state after `i` bytes whose last clean offset is `c`: the totals
   * cover what was decoded up to `c`, the output buffer holds what was
   * decoded since, the copy is the bytes read, no fatal report was seen,
   * and under a limit the mark is `c` and every clean offset so far fit.
   */
  ghost predicate Inv(mode: Mode, steps: seq<Step>, i: nat, c: nat, s: State) {
    && c <= i <= |steps|
    && CleanAt(steps, c)
    && (forall j :: c < j <= i ==> !CleanAt(steps, j))
    && s.count == i
    && s.copy == (if mode.CopyFitting? then Bytes(steps[..i]) else [])
    && NoErrorBefore(steps, i)
    && s.totals == Accumulate(Decoded(steps[..c]))
    && s.pending == Decoded(steps[c..i])
    && (Limit(mode).Some? ==> s.mark == c && AllCleanFit(steps, i, Limit(mode).value))
  }

  /** The last clean offset after step `i`. */
  function NextClean(steps: seq<Step>, c: nat, i: nat): nat
    requires i < |steps|
  {
    if steps[i].outcome.Converted? then i + 1 else c
  }

  /** The clean-offset part of the invariant survives one step. */
  lemma CleanStep(steps: seq<Step>, c: nat, i: nat)
    requires c <= i < |steps| && CleanAt(steps, c)
    requires forall j :: c < j <= i ==> !CleanAt(steps, j)
    ensures CleanAt(steps, NextClean(steps, c, i))
    ensures forall j :: NextClean(steps, c, i) < j <= i + 1 ==> !CleanAt(steps, j)
  {
  }

  /** The no-error part of the invariant survives a step that is not fatal. */
  lemma NoErrorStep(steps: seq<Step>, i: nat)
    requires i < |steps| && NoErrorBefore(steps, i) && !IsError(steps[i].outcome)
    ensures NoErrorBefore(steps, i + 1)
  {
  }

  /** The copy part of the invariant survives one step. */
  lemma BytesStep(steps: seq<Step>, i: nat)
    requires i < |steps|
    ensures Bytes(steps[..i + 1]) == Bytes(steps[..i]) + [steps[i].byte]
  {
  }

  /** The fit part of the invariant survives a step after which the new clean offset, if any, fits. */
  lemma FitStep(steps: seq<Step>, limit: nat, i: nat)
    requires i < |steps| && AllCleanFit(steps, i, limit)
    requires steps[i].outcome.Converted? ==> FitsWithin(steps, i + 1, limit)
    ensures AllCleanFit(steps, i + 1, limit)
  {
  }

  /** The totals and output-buffer part of the invariant survive a step that is not fatal. */
  lemma BufferStep(steps: seq<Step>, c: nat, i: nat, totals: Totals, pending: seq<uint16>)
    requires c <= i < |steps| && !IsError(steps[i].outcome)
    requires totals == Accumulate(Decoded(steps[..c]))
    requires pending == Decoded(steps[c..i])
    ensures steps[i].outcome.NeedMore? ==>
      pending + steps[i].outcome.partial == Decoded(steps[c..i + 1])
    ensures steps[i].outcome.Converted? ==>
      && ObserveAll(totals, pending + steps[i].outcome.units) == Accumulate(Decoded(steps[..i + 1]))
      && [] == Decoded(steps[i + 1..i + 1])
  {
    if steps[i].outcome.Converted? {
      DrainedTotals(steps, c, i, totals, pending);
      assert steps[i + 1..i + 1] == [];
    } else {
      DecodedSliceSnoc(steps, c, i);
    }
  }

  /** The offsets, count, copy and error parts of the invariant survive a step after which the loop continues. */
  lemma ContinueKeepsShape(mode: Mode, steps: seq<Step>, i: nat, c: nat, s: State, s': State)
    requires Inv(mode, steps, i, c, s) && i < |steps|
    requires Feed(mode, s, steps[i]) == Continue(s')
    ensures NextClean(steps, c, i) <= i + 1 <= |steps|
    ensures CleanAt(steps, NextClean(steps, c, i))
    ensures forall j :: NextClean(steps, c, i) < j <= i + 1 ==> !CleanAt(steps, j)
    ensures s'.count == i + 1
    ensures s'.copy == (if mode.CopyFitting? then Bytes(steps[..i + 1]) else [])
    ensures NoErrorBefore(steps, i + 1)
  {
    CleanStep(steps, c, i);
    NoErrorStep(steps, i);
    BytesStep(steps, i);
  }

  /** The totals, buffer, mark and fit parts of the invariant survive a step after which the loop continues. */
  lemma ContinueKeepsBuffers(mode: Mode, steps: seq<Step>, i: nat, c: nat, s: State, s': State)
    requires Inv(mode, steps, i, c, s) && i < |steps|
    requires Feed(mode, s, steps[i]) == Continue(s')
    ensures s'.totals == Accumulate(Decoded(steps[..NextClean(steps, c, i)]))
    ensures s'.pending == Decoded(steps[NextClean(steps, c, i)..i + 1])
    ensures Limit(mode).Some? ==>
      s'.mark == NextClean(steps, c, i) && AllCleanFit(steps, i + 1, Limit(mode).value)
  {
    BufferStep(steps, c, i, s.totals, s.pending);
    if Limit(mode).Some? {
      FitStep(steps, Limit(mode).value, i);
    }
  }

  /** A step after which the loop continues keeps the invariant. */
  lemma ContinueKeepsInv(mode: Mode, steps: seq<Step>, i: nat, c: nat, s: State, s': State)
    requires Inv(mode, steps, i, c, s) && i < |steps|
    requires Feed(mode, s, steps[i]) == Continue(s')
    ensures Inv(mode, steps, i + 1, NextClean(steps, c, i), s')
  {
    ContinueKeepsShape(mode, steps, i, c, s, s');
    ContinueKeepsBuffers(mode, steps, i, c, s, s');
  }

  /** A step at which the loop stops is a conversion whose decoded text no longer fits. */
  lemma StopOvershoots(mode: Mode, steps: seq<Step>, i: nat, c: nat, s: State, s': State)
    requires Inv(mode, steps, i, c, s) && i < |steps|
    requires Feed(mode, s, steps[i]) == Stop(s')
    ensures Limit(mode).Some? && steps[i].outcome.Converted?
    ensures !FitsWithin(steps, i + 1, Limit(mode).value)
  {
    BufferStep(steps, c, i, s.totals, s.pending);
  }

  /** A copy of the first `i + 1` bytes agrees with the input up to any `c <= i`. */
  lemma CopyIsPrefix(steps: seq<Step>, i: nat, c: nat, copy: seq<uint8>)
    requires c <= i < |steps|
    requires copy == Bytes(steps[..i]) + [steps[i].byte]
    ensures c <= |copy| && copy[..c] == Bytes(steps)[..c]
  {
    BytesStep(steps, i);
    BytesPrefix(steps, i + 1);
  }

  /**
   * `a` is what the program answers for input `steps` in `mode` when no
   * fatal report stops it: the SMS length of everything decoded up to the
   * last clean offset, the truncation point, or the input bytes up to it.
   */
  ghost predicate IsAnswer(mode: Mode, steps: seq<Step>, a: Answer) {
    match mode
    case Measure =>
      && NoErrorBefore(steps, |steps|)
      && a == Length(SmsLength(Decoded(steps[..LastClean(steps, |steps|)])))
    case CountFitting(limit) =>
      a.FittingBytes? && IsTruncationPoint(steps, limit, a.count)
    case CopyFitting(limit) =>
      && a.Prefix?
      && IsTruncationPoint(steps, limit, |a.prefix|)
      && a.prefix == Bytes(steps)[..|a.prefix|]
  }

  /** A fatal report at step `i` is the first one the loop reaches. */
  lemma AbortIsReachedError(mode: Mode, steps: seq<Step>, i: nat, c: nat, s: State, f: Failure)
    requires Inv(mode, steps, i, c, s) && i < |steps|
    requires Feed(mode, s, steps[i]) == Abort(f)
    ensures exists e: nat :: IsReachedError(steps, Limit(mode), e) && f == FailureOf(steps[e].outcome, e + 1)
  {
  }

  /** A step at which the loop stops leaves the mark at the truncation point. */
  lemma StopGivesAnswer(mode: Mode, steps: seq<Step>, i: nat, c: nat, s: State, s': State)
    requires Inv(mode, steps, i, c, s) && i < |steps|
    requires Feed(mode, s, steps[i]) == Stop(s')
    ensures mode.CopyFitting? ==> s'.mark <= |s'.copy|
    ensures IsAnswer(mode, steps, Output(mode, s'))
  {
    StopOvershoots(mode, steps, i, c, s, s');
    if mode.CopyFitting? {
      CopyIsPrefix(steps, i, c, s'.copy);
    }
    StopIsTruncationPoint(steps, Limit(mode).value, c, i);
  }

  /** At the end of the input the answer covers the last clean offset. */
  lemma EndGivesAnswer(mode: Mode, steps: seq<Step>, c: nat, s: State)
    requires Inv(mode, steps, |steps|, c, s)
    ensures mode.CopyFitting? ==> s.mark <= |s.copy|
    ensures IsAnswer(mode, steps, Output(mode, s))
  {
    LastCleanUnique(steps, |steps|, c);
    assert steps[..|steps|] == steps;
  }

  /**
   * The driver loop over the input, one step per byte. It fails exactly at
   * the first fatal report the loop reaches, and otherwise gives the answer
   * `IsAnswer` describes.
   */
  method Run(mode: Mode, steps: seq<Step>) returns (r: Result<Answer, Failure>)
    ensures r.Failure? ==>
      exists e: nat :: IsReachedError(steps, Limit(mode), e) && r.error == FailureOf(steps[e].outcome, e + 1)
    ensures r.Success? ==> IsAnswer(mode, steps, r.value)
  {
    var s := Initial;
    var i := 0;
    ghost var c: nat := 0;
    while i < |steps|
      invariant Inv(mode, steps, i, c, s)
    {
      var next := Feed(mode, s, steps[i]);
      match next
      case Abort(f) =>
        AbortIsReachedError(mode, steps, i, c, s, f);
        return Failure(f);
      case Stop(s') =>
        StopGivesAnswer(mode, steps, i, c, s, s');
        return Success(Output(mode, s'));
      case Continue(s') =>
        ContinueKeepsInv(mode, steps, i, c, s, s');
        c := NextClean(steps, c, i);
        s := s';
        i := i + 1;
    }
    EndGivesAnswer(mode, steps, c, s);
    return Success(Output(mode, s));
  }
}
