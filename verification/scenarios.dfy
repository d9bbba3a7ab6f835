/**
 * Worked cases of the program's behaviour, derived from the general
 * properties: lengths of small messages, and whole runs of the driver on
 * inputs whose decoder reports are known (ASCII letters in an
 * ASCII-compatible encoding, where every byte converts to one code unit).
 */
module Scenarios {
  import opened Wrappers
  import opened CodeUnits
  import opened Gsm338
  import opened Accumulator
  import opened Decoder
  import opened Driver

  /** An upper-case ASCII letter. */
  predicate IsUpper(b: uint8) {
    0x41 <= b <= 0x5A
  }

  /** Every byte is an upper-case ASCII letter. */
  predicate AllUpper(bytes: seq<uint8>) {
    forall i :: 0 <= i < |bytes| ==> IsUpper(bytes[i])
  }

  /** The code units of ASCII bytes. */
  function Widen(bytes: seq<uint8>): (us: seq<uint16>)
    ensures |us| == |bytes|
    ensures forall i :: 0 <= i < |bytes| ==> us[i] as int == bytes[i] as int
  {
    seq(|bytes|, i requires 0 <= i < |bytes| => bytes[i] as int as uint16)
  }

  /** The decoder reports for ASCII bytes: each converts to its own code unit. */
  function AsciiSteps(bytes: seq<uint8>): (steps: seq<Step>)
    ensures |steps| == |bytes|
    ensures forall i :: 0 <= i < |bytes| ==> steps[i] == Step(bytes[i], Converted([bytes[i] as int as uint16]))
  {
    seq(|bytes|, i requires 0 <= i < |bytes| => Step(bytes[i], Converted([bytes[i] as int as uint16])))
  }

  /** What the decoder wrote for the first `k` ASCII bytes is those bytes widened. */
  lemma {:induction false} DecodedAscii(bytes: seq<uint8>, k: nat)
    requires k <= |bytes|
    ensures Decoded(AsciiSteps(bytes)[..k]) == Widen(bytes[..k])
  {
    if k > 0 {
      DecodedAscii(bytes, k - 1);
      DecodedSnoc(AsciiSteps(bytes), k - 1);
      assert Widen(bytes[..k]) == Widen(bytes[..k - 1]) + [bytes[k - 1] as int as uint16];
    }
  }

  /** Code units that each cost one septet cost one septet apiece. */
  lemma {:induction false} SeptetsOfWidthOne(us: seq<uint16>)
    requires forall i :: 0 <= i < |us| ==> Gsm338Len(us[i]) == 1
    ensures AllGsm(us) && Septets(us) == |us|
  {
    if |us| > 0 {
      assert forall i :: 0 <= i < |us[1..]| ==> us[1..][i] == us[i + 1];
      SeptetsOfWidthOne(us[1..]);
    }
  }

  /** A message of n one-septet characters takes ceil(7n / 8) bytes. */
  lemma WidthOneLength(us: seq<uint16>)
    requires forall i :: 0 <= i < |us| ==> Gsm338Len(us[i]) == 1
    ensures SmsLength(us) == (7 * |us| + 7) / 8
  {
    SeptetsOfWidthOne(us);
    SmsLengthIsEncodedLength(us);
  }

  /** Upper-case letters widen to one-septet characters. */
  lemma UpperIsWidthOne(bytes: seq<uint8>)
    requires AllUpper(bytes)
    ensures forall i :: 0 <= i < |bytes| ==> Gsm338Len(Widen(bytes)[i]) == 1
  {
  }

  /** The encoded length of the first `k` upper-case letters is ceil(7k / 8) bytes. */
  lemma UpperPrefixLength(bytes: seq<uint8>, k: nat)
    requires AllUpper(bytes) && k <= |bytes|
    ensures SmsLength(Decoded(AsciiSteps(bytes)[..k])) == (7 * k + 7) / 8
  {
    DecodedAscii(bytes, k);
    assert AllUpper(bytes[..k]) by {
      assert forall i :: 0 <= i < k ==> bytes[..k][i] == bytes[i];
    }
    UpperIsWidthOne(bytes[..k]);
    WidthOneLength(Widen(bytes[..k]));
  }

  /** "HELLO" takes 5 bytes. */
  lemma HelloTakesFive()
    ensures SmsLength([0x48, 0x45, 0x4C, 0x4C, 0x4F]) == 5
  {
    var us: seq<uint16> := [0x48, 0x45, 0x4C, 0x4C, 0x4F];
    forall i | 0 <= i < |us| ensures Gsm338Len(us[i]) == 1 {
      AsciiWidthOneRanges(us[i]);
    }
    WidthOneLength(us);
  }

  /** The euro sign and four letters take 14 + 28 bits, that is 6 bytes. */
  lemma EuroAndFourLettersTakeSix()
    ensures SmsLength([0x20AC, 0x41, 0x42, 0x43, 0x44]) == 6
  {
    var us: seq<uint16> := [0x20AC, 0x41, 0x42, 0x43, 0x44];
    var letters := us[1..];
    forall i | 0 <= i < |letters| ensures Gsm338Len(letters[i]) == 1 {
      AsciiWidthOneRanges(letters[i]);
    }
    SeptetsOfWidthOne(letters);
    assert AllGsm(us) by {
      assert forall i :: 1 <= i < |us| ==> us[i] == letters[i - 1];
    }
    assert Septets(us) == 2 + Septets(letters);
    SmsLengthIsEncodedLength(us);
  }

  /** A character without GSM encoding forces UTF-16: four units take 8 bytes. */
  lemma IdeographAndThreeLettersTakeEight()
    ensures SmsLength([0x4E2D, 0x41, 0x42, 0x43]) == 8
  {
  }

  /**
   * With a limit of `limit` bytes, the truncation point of upper-case
   * letters is the largest count whose 7 bits each fit in the limit, or
   * the whole input when it all fits.
   */
  lemma UpperTruncationPoint(bytes: seq<uint8>, limit: nat)
    requires AllUpper(bytes)
    ensures IsTruncationPoint(AsciiSteps(bytes), limit, Min(|bytes|, 8 * limit / 7))
  {
    var steps, m := AsciiSteps(bytes), Min(|bytes|, 8 * limit / 7);
    UpperPrefixLength(bytes, m);
    forall j | m < j <= |steps| && CleanAt(steps, j)
      ensures !FitsWithin(steps, j, limit)
    {
      UpperPrefixLength(bytes, j);
    }
  }

  /** The smaller of two counts. */
  function Min(a: nat, b: nat): nat {
    if a <= b then a else b
  }

  /**
   * Counting the bytes of upper-case letters that fit in `limit` bytes
   * (`-r limit`) answers the largest count of letters whose septets fit.
   */
  method CountUpperFitting(bytes: seq<uint8>, limit: nat) returns (count: nat)
    requires AllUpper(bytes)
    ensures 7 * count <= 8 * limit
    ensures count == |bytes| || 8 * limit < 7 * (count + 1)
    ensures count <= |bytes|
  {
    var r := Run(CountFitting(limit), AsciiSteps(bytes));
    assert r.Success?;
    UpperTruncationPoint(bytes, limit);
    TruncationPointUnique(AsciiSteps(bytes), limit, r.value.count, Min(|bytes|, 8 * limit / 7));
    count := r.value.count;
  }

  /** "ABCDEFGHIJ" under a limit of 8 bytes: 9 letters (63 bits) fit, 10 (70 bits) do not. */
  method TenLettersUnderEight() returns (count: nat)
    ensures count == 9
  {
    var bytes: seq<uint8> := [0x41, 0x42, 0x43, 0x44, 0x45, 0x46, 0x47, 0x48, 0x49, 0x4A];
    count := CountUpperFitting(bytes, 8);
  }

  /** The same input copied under `-t 8` is "ABCDEFGHI". */
  method CopyTenLettersUnderEight() returns (prefix: seq<uint8>)
    ensures prefix == [0x41, 0x42, 0x43, 0x44, 0x45, 0x46, 0x47, 0x48, 0x49]
  {
    var bytes: seq<uint8> := [0x41, 0x42, 0x43, 0x44, 0x45, 0x46, 0x47, 0x48, 0x49, 0x4A];
    var steps := AsciiSteps(bytes);
    var r := Run(CopyFitting(8), steps);
    assert r.Success?;
    UpperTruncationPoint(bytes, 8);
    TruncationPointUnique(steps, 8, |r.value.prefix|, 9);
    BytesOfAscii(bytes);
    prefix := r.value.prefix;
  }

  /** The input bytes of ASCII steps are the bytes themselves. */
  lemma BytesOfAscii(bytes: seq<uint8>)
    ensures Bytes(AsciiSteps(bytes)) == bytes
  {
  }

  /** The empty input has length 0. */
  method EmptyInput() returns (length: nat)
    ensures length == 0
  {
    var r := Run(Measure, []);
    assert r.Success? && r.value.Length?;
    length := r.value.length;
  }

  /**
   * An input that ends inside a multi-byte character is not an error: the
   * code units converted so far are measured, and the incomplete character
   * is dropped.
   */
  method IncompleteAtEnd() returns (length: nat)
    ensures length == 1
  {
    // "A" then the first byte of a two-byte UTF-8 sequence
    var steps := [Step(0x41, Converted([0x41])), Step(0xC3, NeedMore([]))];
    var r := Run(Measure, steps);
    assert r.Success?;
    LastCleanUnique(steps, 2, 1);
    assert steps[..1][..0] == [];
    assert Decoded(steps[..1]) == [0x41];
    AsciiWidthOneRanges(0x41);
    WidthOneLength([0x41]);
    length := r.value.length;
  }

  /** An invalid byte aborts the run, reporting the count of bytes read including it. */
  method InvalidSecondByte() returns (f: Failure)
    ensures f == InvalidSequence(2)
  {
    var steps := [Step(0x41, Converted([0x41])), Step(0xFF, Invalid)];
    var r := Run(Measure, steps);
    assert r.Failure?;
    ghost var e: nat :| IsReachedError(steps, None, e) && r.error == FailureOf(steps[e].outcome, e + 1);
    assert e == 1;
    f := r.error;
  }
}
