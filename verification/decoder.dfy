/**
 * The character decoder seen from the driver loop. The transcoder itself
 * is not modelled: what it reports for each input byte is an input of the
 * model, one `Outcome` per byte, and the driver's properties hold whatever
 * those outcomes are.
 */
module Decoder {
  import opened CodeUnits

  /**
   * What one conversion call reports after an input byte has been added to
   * the decoder's buffer. Written output is given as the code units the
   * loop pairs from the UTF-16BE bytes (`CodeUnits.UnitsFromBigEndian`).
   */
  datatype Outcome =
      /** The buffered bytes end inside a character (EINVAL). Code units the
          call wrote before stopping stay in the output buffer. */
      NeedMore(partial: seq<uint16>)
      /** The buffered bytes were converted; these are the code units written. */
    | Converted(units: seq<uint16>)
      /** The buffered bytes are not valid in the input encoding (EILSEQ). */
    | Invalid
      /** Any other conversion failure. */
    | Failed

  /** One input byte together with the decoder's report for it. */
  datatype Step = Step(byte: uint8, outcome: Outcome)

  /** A fatal report: no answer is produced once one is reached. */
  predicate IsError(o: Outcome) {
    o.Invalid? || o.Failed?
  }

  /** The code units a report writes to the output buffer. */
  function Written(o: Outcome): seq<uint16> {
    match o
    case NeedMore(partial) => partial
    case Converted(units) => units
    case Invalid => []
    case Failed => []
  }

  /** The input bytes of a run of steps. */
  function Bytes(steps: seq<Step>): (bytes: seq<uint8>)
    ensures |bytes| == |steps|
    ensures forall i :: 0 <= i < |steps| ==> bytes[i] == steps[i].byte
  {
    if |steps| == 0 then [] else Bytes(steps[..|steps| - 1]) + [steps[|steps| - 1].byte]
  }

  /** Every code unit the decoder wrote during a run of steps, in order. */
  function Decoded(steps: seq<Step>): seq<uint16> {
    if |steps| == 0 then [] else Decoded(steps[..|steps| - 1]) + Written(steps[|steps| - 1].outcome)
  }

  /** No fatal report among the first `n` steps. */
  predicate NoErrorBefore(steps: seq<Step>, n: nat)
    requires n <= |steps|
  {
    forall i :: 0 <= i < n ==> !IsError(steps[i].outcome)
  }

  /**
   * After `k` bytes the decoder holds no partial character and the output
   * buffer has been drained: no byte has been read yet, or the last one was
   * converted.
   */
  predicate CleanAt(steps: seq<Step>, k: nat)
    requires k <= |steps|
  {
    k == 0 || steps[k - 1].outcome.Converted?
  }

  /** The last clean offset at or before `k`. */
  function LastClean(steps: seq<Step>, k: nat): (c: nat)
    requires k <= |steps|
    ensures c <= k && CleanAt(steps, c)
  {
    if k == 0 || steps[k - 1].outcome.Converted? then k else LastClean(steps, k - 1)
  }

  /** A clean offset with no clean offset after it up to `k` is the last clean one. */
  lemma {:induction false} LastCleanUnique(steps: seq<Step>, k: nat, c: nat)
    requires c <= k <= |steps| && CleanAt(steps, c)
    requires forall j :: c < j <= k ==> !CleanAt(steps, j)
    ensures LastClean(steps, k) == c
  {
    if c < k {
      assert !CleanAt(steps, k);
      LastCleanUnique(steps, k - 1, c);
    }
  }

  /** Decoding two runs one after the other writes what decoding each writes, in order. */
  lemma {:induction false} DecodedAppend(p: seq<Step>, q: seq<Step>)
    ensures Decoded(p + q) == Decoded(p) + Decoded(q)
    decreases |q|
  {
    if q == [] {
      assert p + q == p;
    } else {
      var q', last := q[..|q| - 1], q[|q| - 1];
      assert (p + q)[..|p + q| - 1] == p + q';
      DecodedAppend(p, q');
      assert Decoded(p + q) == Decoded(p + q') + Written(last.outcome);
      assert Decoded(q) == Decoded(q') + Written(last.outcome);
    }
  }

  /** Decoding a prefix, then the rest, writes what decoding the whole run writes. */
  lemma DecodedSplit(steps: seq<Step>, a: nat, b: nat)
    requires a <= b <= |steps|
    ensures Decoded(steps[..a]) + Decoded(steps[a..b]) == Decoded(steps[..b])
  {
    assert steps[..b] == steps[..a] + steps[a..b];
    DecodedAppend(steps[..a], steps[a..b]);
  }

  /** One more step adds the code units its report writes. */
  lemma DecodedSnoc(steps: seq<Step>, i: nat)
    requires i < |steps|
    ensures Decoded(steps[..i + 1]) == Decoded(steps[..i]) + Written(steps[i].outcome)
  {
    assert steps[..i + 1][..i] == steps[..i];
  }

  /** One more step at the end of a slice adds the code units its report writes. */
  lemma DecodedSliceSnoc(steps: seq<Step>, a: nat, i: nat)
    requires a <= i < |steps|
    ensures Decoded(steps[a..i + 1]) == Decoded(steps[a..i]) + Written(steps[i].outcome)
  {
    assert steps[a..i + 1][..i - a] == steps[a..i];
  }

  /** The code units written by a prefix of the steps start those of a longer prefix. */
  lemma DecodedPrefix(steps: seq<Step>, a: nat, b: nat)
    requires a <= b <= |steps|
    ensures Decoded(steps[..a]) <= Decoded(steps[..b])
  {
    DecodedSplit(steps, a, b);
  }

  /** Bytes of a prefix of the steps are the prefix of their bytes. */
  lemma BytesPrefix(steps: seq<Step>, k: nat)
    requires k <= |steps|
    ensures Bytes(steps[..k]) == Bytes(steps)[..k]
  {
  }
}
