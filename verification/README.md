# smslen in Dafny

A model of `smslen`, the utility that measures how many bytes a text takes
in an SMS body. Its core is modelled here:

- The GSM 03.38 classifier `gsm338len`. It says whether a UTF-16 code unit
  costs one 7-bit symbol (default alphabet), two (escape plus extension
  table) or has no GSM encoding.
- `calculate_length`, which rounds the bits of the encoding in force up to
  whole bytes.
- The per-input-byte loop of `main`. It feeds each byte to a character
  decoder, accounts for the UTF-16 code units the decoder writes, and
  raises the one-way "needs UTF-16" flag. Under `-r`/`-t` it remembers the
  last input offset whose encoded length still fits the limit, and stops
  at the first byte that goes over.

The decoder (iconv) is not modelled. Each input byte comes with the report
the decoder gives for it (`Decoder.Outcome`):

- `NeedMore(partial)`: EINVAL, the input ends inside a character. Any code
  units already written stay in the output buffer.
- `Converted(units)`: success.
- `Invalid`: EILSEQ.
- `Failed`: any other errno.

Every property of the driver holds whatever these reports are.

Modules:

| file | module | contents |
|---|---|---|
| wrappers.dfy | `Wrappers` | `Option`, `Result` |
| code_units.dfy | `CodeUnits` | bytes, UTF-16 code units, big-endian pairing of the output buffer (stated and proved on its own; the decoder reports carry code units already paired) |
| gsm338.dfy | `Gsm338` | `gsm338len`, and the default alphabet and extension table of 3GPP TS 23.038 (sections 6.2.1 and 6.2.1.1) as a reference |
| accumulator.dfy | `Accumulator` | `gsm_bits`/`utf16_bits`/`need_utf16`, `calculate_length`, and the SMS length rule as a reference |
| decoder.dfy | `Decoder` | decoder reports per byte, the code units they write, clean offsets |
| driver.dfy | `Driver` | one loop iteration (`Feed`), the whole loop (`Run`), and what its answer means over the input |
| scenarios.dfy | `Scenarios` | worked cases: "HELLO", the euro sign, a CJK ideograph, "ABCDEFGHIJ" under `-r 8` and `-t 8`, empty input, an incomplete character at the end, an invalid byte |

The meaning of an answer is stated over the input alone, independently of
the loop. Two terms are used for this:

- A *clean offset* is an input offset after which the decoder holds no
  partial character and the output buffer has been drained. This is offset
  0, or any offset right after a byte that converted.
- The *truncation point* under a limit is a clean offset with four
  properties:
  - it is reached without a fatal report;
  - the text decoded up to it fits the limit;
  - no later clean offset fits;
  - no fatal report occurs before the next clean offset.

`Run` answers the SMS length of what was decoded up to the last clean
offset, or the truncation point, or the input bytes up to it. It fails
exactly at the first fatal report the loop reaches.

Three behaviours of the code worth noting:

- At the end of input the code never flushes the decoder. A trailing
  incomplete character is not an error: the units converted before it are
  measured and it is dropped (`Scenarios.IncompleteAtEnd`).
- An invalid sequence is reported with `input_count`. That is the number
  of bytes read including the offending byte, not the offset where the
  sequence began (`Scenarios.InvalidSecondByte`).
- Code units written by a conversion that stops with EINVAL are not
  discarded. The loop `continue`s without resetting the output pointer, so
  they are counted with the next successful conversion. They are lost only
  if the input ends first (`Driver.State.pending`).

## Model

| member | source | states |
|---|---|---|
| Gsm338.Gsm338Len | smslen.c:236-262 | a code unit costs 1 or 2 GSM symbols, or has no GSM encoding (-1); nothing else is returned |
| Gsm338.WidthMatchesStandardTables | smslen.c:239-261 | width 1 exactly for characters of the GSM default alphabet, width 2 exactly for the extension table, -1 exactly for characters in neither |
| Gsm338.AsciiWidthOneRanges | smslen.c:240-249 | below 0x80 the width-1 cases are exactly LF, CR, 0x20..0x5A, '_' and 'a'..'z' |
| Gsm338.NonAsciiWidthOne | smslen.c:250-256 | at or above 0x80 the width-1 cases are exactly the non-ASCII characters of the default alphabet |
| CodeUnits.UnitsFromBigEndian | smslen.c:158-163 | the output buffer is read two bytes at a time, high byte first, into as many code units as there are byte pairs |
| CodeUnits.PairingInvertsSerialisation | smslen.c:158-163 | pairing the big-endian bytes of any code units gives those code units back |
| CodeUnits.SerialisationInvertsPairing | smslen.c:158-163 | any even-length buffer is the big-endian serialisation of the units paired from it |
| Accumulator.Observe | smslen.c:164-171 | one code unit adds 16 UTF-16 bits; while the flag is clear it raises the flag exactly for a unit without GSM encoding, else adds at most 14 GSM bits; once set the flag stays set and the GSM total is frozen |
| Accumulator.CalculateLength | smslen.c:203-209 | the result is the least byte count whose bits cover the UTF-16 total when the flag is set, the GSM total otherwise |
| Accumulator.ObserveAllEffect | smslen.c:157-172 | over n units from any totals: UTF-16 grows by 16n, the flag ends set iff it was set or some unit lacks a GSM encoding, the GSM total grows by 7 bits per symbol while clear, is frozen once set, and grows by at most 14n |
| Accumulator.AccumulateTotals | smslen.c:157-172 | from the initial totals: utf16_bits is 16n, need_utf16 holds iff some unit lacks a GSM encoding, gsm_bits is 7 bits per symbol when it does not, and gsm_bits never exceeds 14n |
| Accumulator.SeptetsBounds | smslen.c:256-258 | GSM-encodable text costs between one and two septets per code unit |
| Accumulator.ObserveAllAppend | smslen.c:157-172 | accounting for two runs of units in turn equals accounting for their concatenation |
| Accumulator.SmsLengthIsEncodedLength | smslen.c:164-173 | the incrementally computed length equals the SMS length rule: ceil(7 x septets / 8) when all units have a GSM encoding, 2 bytes per unit otherwise |
| Accumulator.SmsLengthMonotone | smslen.c:173-184 | appending code units never decreases the length, also across the switch to UTF-16 |
| Accumulator.SwitchIsIrreversible | smslen.c:164-171 | after a unit without GSM encoding the flag stays set, gsm_bits stays frozen, and the length is 2 bytes per unit whatever follows |
| Decoder.DecodedAppend | smslen.c:139-176 | the units written over two runs of input bytes are those of each run, in order |
| Decoder.LastCleanUnique | smslen.c:176-184 | a clean offset with no clean offset after it is the last clean offset |
| Driver.Feed | smslen.c:119-184 | one iteration: the byte is counted and, under `-t`, copied; a fatal report aborts with the failure for input_count; EINVAL keeps the units pending and does not move the mark; a conversion drains the pending units into the totals, stops exactly when a limit is set and the new length exceeds it, and otherwise sets the mark to input_count |
| Driver.OvershootPersists | smslen.c:179-184 | once a clean offset does not fit the limit, no later clean offset fits |
| Driver.StopIsTruncationPoint | smslen.c:179-184 | when the loop stops at a converted byte that overshoots, the mark is the truncation point |
| Driver.ContinueKeepsInv | smslen.c:119-185 | an iteration that continues keeps the loop invariant: the mark is the last clean offset, the totals cover what was decoded up to it, the pending units are those decoded since, and every clean offset so far fits |
| Driver.AbortIsReachedError | smslen.c:146-154 | a fatal report aborts at the first fatal report the loop reaches, with the failure for its count |
| Driver.StopGivesAnswer | smslen.c:179-194 | after a stop, `-r` prints the truncation point and `-t` writes exactly the input bytes before it |
| Driver.EndGivesAnswer | smslen.c:186-196 | at end of input the answer is the length of what was decoded up to the last clean offset, or the truncation point, or the input before it |
| Driver.Run | smslen.c:110-196 | the program fails exactly at the first fatal report it reaches, with that report's failure; otherwise it answers the length up to the last clean offset, or the unique truncation point, or the exact input prefix up to it |
| Driver.TruncationPointUnique | smslen.c:179-194 | the truncation point is unique, so the `-r`/`-t` answer is determined by the input |
| Scenarios.WidthOneLength | smslen.c:203-209 | n one-septet characters take ceil(7n / 8) bytes |
| Scenarios.HelloTakesFive | smslen.c:157-173 | "HELLO" takes 5 bytes |
| Scenarios.EuroAndFourLettersTakeSix | smslen.c:157-173 | the euro sign and four letters take 42 bits, so 6 bytes |
| Scenarios.IdeographAndThreeLettersTakeEight | smslen.c:164-171 | a CJK ideograph and three letters take 8 bytes under UTF-16 |
| Scenarios.UpperTruncationPoint | smslen.c:179-184 | the truncation point of n upper-case letters under a limit L is min(n, floor(8L / 7)) |
| Scenarios.CountUpperFitting | smslen.c:190-194 | `-r L` on upper-case letters prints the largest count whose septets fit in L bytes |
| Scenarios.TenLettersUnderEight | smslen.c:179-194 | "ABCDEFGHIJ" under `-r 8` prints 9 |
| Scenarios.CopyTenLettersUnderEight | smslen.c:190-192 | "ABCDEFGHIJ" under `-t 8` writes "ABCDEFGHI" |
| Scenarios.EmptyInput | smslen.c:195-196 | empty input has length 0 |
| Scenarios.IncompleteAtEnd | smslen.c:146-149 | an input ending inside a character is measured without it, with no error |
| Scenarios.InvalidSecondByte | smslen.c:150-151 | an invalid second byte aborts with offset 2 |

## Left out

- iconv itself (`iconv_open`, `iconv_close`, the `-i` encoding name, the
  transcoding): a foreign library. What it reports for each byte is an
  input of the model (`Decoder.Outcome`).
- The 64-byte input and output buffers, `memmove` and E2BIG: buffer sizes
  are not modelled. E2BIG is one of the errors in `Failed`.
- Command-line parsing (`getopt`, `atoi`, the "only one of -r or -t" and
  negative-limit errors, `usage`, the file argument): the model starts from
  an already chosen `Driver.Mode` whose limit is a natural number.
- File and standard I/O (`fopen`, `fgetc`, `ferror`, `fwrite`, `printf`,
  the file name in messages): the input is a sequence of bytes, and the
  answer is a value rather than printed text. A read error reported by
  `ferror` is not modelled.
- The doubling `realloc` of the copy buffer and allocation failures: the
  copy is a sequence extended by one byte per input byte.
- C `int` arithmetic: counts, bit totals and the limit are unbounded
  natural numbers. `utf16_bits` overflows after about 2^27 code units (16
  bits each), `gsm_bits` and `bits + 7` of `calculate_length` at a similar
  scale, and `input_count` after about 2^31 bytes; none of these overflows
  is modelled.
- Surrogate pairs: like the code, the model classifies and counts each
  UTF-16 code unit on its own.
