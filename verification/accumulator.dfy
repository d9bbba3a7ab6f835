/**
 * The running totals of the driver loop: bits needed under the GSM 7-bit
 * encoding and under UTF-16BE, a one-way "needs UTF-16" flag, and the
 * encoded SMS length in bytes computed from them.
 */
module Accumulator {
  import opened CodeUnits
  import opened Gsm338

  /** `gsm_bits`, `utf16_bits` and `need_utf16` of the driver. */
  datatype Totals = Totals(gsmBits: nat, utf16Bits: nat, needUtf16: bool)

  /** The totals before any code unit has been seen. */
  const Start: Totals := Totals(0, 0, false)

  /**
   * Accounts for one decoded code unit. While the message still fits the GSM
   * alphabet the unit's symbols are added to the GSM total, or the flag is
   * raised when it has no GSM encoding; the UTF-16 total always grows by 16.
   */
  function Observe(t: Totals, u: uint16): (t': Totals)
    ensures t'.utf16Bits == t.utf16Bits + 16
    ensures t.needUtf16 ==> t'.needUtf16 && t'.gsmBits == t.gsmBits
    ensures !t.needUtf16 ==> (t'.needUtf16 <==> !IsGsm(u))
    ensures t.gsmBits <= t'.gsmBits <= t.gsmBits + 14
  {
    if t.needUtf16 then
      t.(utf16Bits := t.utf16Bits + 16)
    else
      var gsmLen := Gsm338Len(u);
      if gsmLen == -1 then
        t.(needUtf16 := true, utf16Bits := t.utf16Bits + 16)
      else
        t.(gsmBits := t.gsmBits + gsmLen * 7, utf16Bits := t.utf16Bits + 16)
  }

  /** Accounts for a run of code units in order. */
  function ObserveAll(t: Totals, us: seq<uint16>): Totals
    decreases |us|
  {
    if |us| == 0 then t else ObserveAll(Observe(t, us[0]), us[1..])
  }

  /** The totals after the given code units, starting from nothing. */
  function Accumulate(us: seq<uint16>): Totals {
    ObserveAll(Start, us)
  }

  /**
   * `calculate_length`: the bytes needed for the chosen encoding's bits,
   * rounded up to whole bytes. The result is the least byte count whose
   * bits cover the total of the encoding in force.
   */
  function CalculateLength(t: Totals): (bytes: nat)
    ensures t.needUtf16 ==> 8 * bytes >= t.utf16Bits && 8 * (bytes - 1) < t.utf16Bits
    ensures !t.needUtf16 ==> 8 * bytes >= t.gsmBits && 8 * (bytes - 1) < t.gsmBits
  {
    var bits := if t.needUtf16 then t.utf16Bits else t.gsmBits;
    (bits + 7) / 8
  }

  /** The SMS-encoded length in bytes of the given code units. */
  function SmsLength(us: seq<uint16>): nat {
    CalculateLength(Accumulate(us))
  }

  // ---------------------------------------------------------------------
  // Reference definitions, independent of the running totals

  /** Every code unit has a GSM 7-bit encoding. */
  predicate AllGsm(us: seq<uint16>) {
    forall i :: 0 <= i < |us| ==> IsGsm(us[i])
  }

  /** The number of 7-bit GSM symbols of GSM-encodable code units. */
  function Septets(us: seq<uint16>): nat
    requires AllGsm(us)
  {
    if |us| == 0 then 0 else Gsm338Len(us[0]) + Septets(us[1..])
  }

  /** The least number of bytes that hold `bits` bits. */
  function BytesFor(bits: nat): nat {
    (bits + 7) / 8
  }

  /**
   * The SMS length as the encoding rule states it: 7 bits per GSM symbol
   * when every character has a GSM encoding, 2 bytes per code unit otherwise.
   */
  function EncodedLength(us: seq<uint16>): nat {
    if AllGsm(us) then BytesFor(7 * Septets(us)) else 2 * |us|
  }

  // ---------------------------------------------------------------------
  // Properties of the totals

  /** A GSM-encodable run costs between one and two septets per code unit. */
  lemma {:induction false} SeptetsBounds(us: seq<uint16>)
    requires AllGsm(us)
    ensures |us| <= Septets(us) <= 2 * |us|
  {
    if |us| > 0 {
      SeptetsBounds(us[1..]);
    }
  }

  /** Septets add up over concatenation. */
  lemma {:induction false} SeptetsAppend(us: seq<uint16>, vs: seq<uint16>)
    requires AllGsm(us) && AllGsm(vs)
    ensures AllGsm(us + vs)
    ensures Septets(us + vs) == Septets(us) + Septets(vs)
  {
    if |us| > 0 {
      assert (us + vs)[1..] == us[1..] + vs;
      SeptetsAppend(us[1..], vs);
    } else {
      assert us + vs == vs;
    }
  }

  /**
   * What running the totals over a run of code units does, from any start:
   * 16 bits per unit under UTF-16, the flag raised exactly when some unit
   * has no GSM encoding, and otherwise 7 bits per GSM symbol.
   */
  lemma {:induction false} ObserveAllEffect(t: Totals, us: seq<uint16>)
    ensures ObserveAll(t, us).utf16Bits == t.utf16Bits + 16 * |us|
    ensures ObserveAll(t, us).needUtf16 <==> t.needUtf16 || !AllGsm(us)
    ensures !ObserveAll(t, us).needUtf16 ==> ObserveAll(t, us).gsmBits == t.gsmBits + 7 * Septets(us)
    ensures t.needUtf16 ==> ObserveAll(t, us).gsmBits == t.gsmBits
    ensures t.gsmBits <= ObserveAll(t, us).gsmBits <= t.gsmBits + 14 * |us|
    decreases |us|
  {
    if |us| > 0 {
      var t1 := Observe(t, us[0]);
      ObserveAllEffect(t1, us[1..]);
      if AllGsm(us) {
        assert AllGsm(us[1..]) by {
          forall i | 0 <= i < |us[1..]| ensures IsGsm(us[1..][i]) {
            assert us[1..][i] == us[i + 1];
          }
        }
      } else if IsGsm(us[0]) {
        assert !AllGsm(us[1..]) by {
          var i :| 0 <= i < |us| && !IsGsm(us[i]);
          assert us[1..][i - 1] == us[i];
        }
      }
    }
  }

  /**
   * After n code units from the start, the UTF-16 total is 16n bits, the
   * flag says whether some unit lacks a GSM encoding, and while it is clear
   * the GSM total is 7 bits per symbol; the GSM total never exceeds 14n.
   */
  lemma AccumulateTotals(us: seq<uint16>)
    ensures Accumulate(us).utf16Bits == 16 * |us|
    ensures Accumulate(us).needUtf16 <==> !AllGsm(us)
    ensures AllGsm(us) ==> Accumulate(us).gsmBits == 7 * Septets(us)
    ensures Accumulate(us).gsmBits <= 14 * |us|
  {
    ObserveAllEffect(Start, us);
  }

  /** Running the totals over two runs is running them over their concatenation. */
  lemma {:induction false} ObserveAllAppend(t: Totals, us: seq<uint16>, vs: seq<uint16>)
    ensures ObserveAll(t, us + vs) == ObserveAll(ObserveAll(t, us), vs)
    decreases |us|
  {
    if |us| == 0 {
      assert us + vs == vs;
    } else {
      assert (us + vs)[1..] == us[1..] + vs;
      ObserveAllAppend(Observe(t, us[0]), us[1..], vs);
    }
  }

  /** Continuing from the totals of a run accounts for the run extended. */
  lemma AccumulateExtend(before: seq<uint16>, more: seq<uint16>, whole: seq<uint16>)
    requires before + more == whole
    ensures ObserveAll(Accumulate(before), more) == Accumulate(whole)
  {
    ObserveAllAppend(Start, before, more);
  }

  /** The incrementally computed SMS length is the length the encoding rule gives. */
  lemma SmsLengthIsEncodedLength(us: seq<uint16>)
    ensures SmsLength(us) == EncodedLength(us)
  {
    AccumulateTotals(us);
  }

  /**
   * The SMS length never decreases as code units are added, including when
   * the message switches from GSM to UTF-16: 16 bits per unit dominate the
   * at most 14 bits a unit costs under GSM.
   */
  lemma SmsLengthMonotone(us: seq<uint16>, vs: seq<uint16>)
    ensures SmsLength(us) <= SmsLength(us + vs)
  {
    SmsLengthIsEncodedLength(us);
    SmsLengthIsEncodedLength(us + vs);
    if AllGsm(us + vs) {
      assert AllGsm(us) && AllGsm(vs) by {
        forall i | 0 <= i < |us| ensures IsGsm(us[i]) { assert (us + vs)[i] == us[i]; }
        forall i | 0 <= i < |vs| ensures IsGsm(vs[i]) { assert (us + vs)[|us| + i] == vs[i]; }
      }
      SeptetsAppend(us, vs);
    } else if AllGsm(us) {
      SeptetsBounds(us);
    } else {
      assert !AllGsm(us + vs) by {
        var i :| 0 <= i < |us| && !IsGsm(us[i]);
        assert (us + vs)[i] == us[i];
      }
    }
  }

  /**
   * Once a code unit without GSM encoding has been seen, the length is that
   * of UTF-16 (two bytes per unit) whatever follows, and the GSM total is
   * frozen.
   */
  lemma SwitchIsIrreversible(us: seq<uint16>, vs: seq<uint16>)
    requires !AllGsm(us)
    ensures Accumulate(us + vs).needUtf16
    ensures Accumulate(us + vs).gsmBits == Accumulate(us).gsmBits
    ensures SmsLength(us + vs) == 2 * (|us| + |vs|)
  {
    AccumulateTotals(us);
    ObserveAllAppend(Start, us, vs);
    ObserveAllEffect(Accumulate(us), vs);
  }
}
