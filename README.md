# PSK modulator core, modelled in Dafny

This project models the phase-shift-keying (PSK) scheme of `yttria-modulation`, in `src/psk.rs`. It covers four things:

- **Construction.** `PskModulation::new` builds a constellation of `2^M` points for `M` bits per symbol. The constellation is rotated by `pi / 2^M` exactly when `M` is even.
- **In-place modulator.** `Modulator::modulate_into` does three steps:
  - it unpacks the bytes into bits, most significant bit first;
  - it cuts the bits into groups of `M`, where only the last group may be shorter and a short group is shifted into the high-order bits of its index;
  - it fills one block of `samples_per_symbol` output samples with each group's point.
- **Allocating modulator.** `Modulator::modulate` allocates an output buffer of the right size and delegates to `modulate_into`.
- **Demodulator output size.** The byte count `Demodulator::demodulate` sizes its output with.

The model has three modules:

- `Arith` (`arith.dfy`): powers of two, Rust's `usize::div_ceil`, and small multiplication facts.
- `Bits` (`bits.dfy`): bytes to bits and bits to an unsigned value, most significant bit first. This is the meaning the modulator relies on for the helper crate's `unpackbits` and `pack_into`.
- `Psk` (`psk.dfy`): the scheme, the constellation angles, the grouping, the symbol index, the waveform, the modulator and the length formulas.

How the model represents the source:

- **Points.** Constellation points have an opaque type `T`. `new` takes a caller-supplied `pointAt: Angle -> T`, which stands for the complex exponential. An `Angle(numer, denom)` is the exact angle `numer * pi / denom`, so no floating-point value enters the model.
- **The scheme.** The scheme never changes after construction, so it is a datatype `PskModulation<T>`. It stores `samplesPerSymbol` directly.
- **Panics.** These panics of the source become a `Failure` value inside a `Result` or `Outcome` (the others are listed under "Left out"):
  - `usize::pow` overflowing in a checked build;
  - `div_ceil` by zero;
  - the length assertion of `modulate_into`;
  - `par_chunks_exact_mut(0)`.
- **The output buffer.** `modulate_into` writes into a caller's `array<T>`. Its zip over output blocks and bit groups is a sequential `while` loop, and `slice::fill` is a method with its own loop.
- **The specification function.** `Waveform` is the function the loop is proved against: the point of each group, held for `sps` samples.

The source asserts only `out.len() >= ceil(8*len/M) * sps`. A longer buffer is therefore accepted, and its tail is left untouched. The model follows the code here: it does not require the buffer length to equal the modulated length.

## Model

| member | source | states |
|---|---|---|
| Arith.DivCeil | src/psk.rs:70 | `usize::div_ceil` with a nonzero divisor is the least `r` with `r*b >= a`, i.e. `r*b` lies in `[a, a+b)` |
| Bits.Pack | src/psk.rs:79 | the value of a bit group read most significant bit first fits in `2^k` for `k` bits |
| Bits.ToBits | src/psk.rs:79 | the `width`-bit pattern of a value has exactly `width` bits |
| Bits.PackToBits | src/psk.rs:79 | packing the `width`-bit pattern of any `n < 2^width` gives back `n` |
| Bits.ToBitsPack | src/psk.rs:79 | a bit group is recovered from its packed value and its length, so distinct groups of one length get distinct indices |
| Bits.PackAppend | src/psk.rs:83 | appending `k` bits shifts the value of the prefix left by `k` positions and adds the value of the appended bits |
| Bits.PackZeros | src/psk.rs:83 | zero padding bits contribute nothing to a packed value |
| Bits.UnpackBits | src/psk.rs:72 | unpacking gives exactly 8 bits per byte |
| Bits.UnpackBitsAt | src/psk.rs:72 | bits `8k..8k+8` of the unpacked stream are byte `k`, most significant bit first, and pack back to that byte |
| Psk.Linspace | src/psk.rs:26 | `linspace(start, stop, n, false)`: `n` values from `start`, equally spaced by `(stop-start)/n`, with the endpoint `stop` one step past the last value |
| Psk.ConstellationAngles | src/psk.rs:20-26 | `npoints` angles over the common denominator `npoints`; the first is `pi/npoints` for even `M` and 0 for odd `M`; consecutive angles are `2pi/npoints` apart; the last lies one step short of a full turn past the first |
| Psk.SymbolAnglesShape | src/psk.rs:18-26 | the constellation has `N = 2^M` angles, all multiples of `pi/N`, rotated away from 0 exactly when `M` is even, evenly spaced, and without a wrap-around duplicate |
| Psk.Build | src/psk.rs:28-31 | the symbol map has one point per angle, point `i` at angle `i` |
| Psk.NewAsWritten | src/psk.rs:17-39 | `new` as written: the exponent is `M` modulo `2^32`, construction overflows exactly when that exponent is at least 64, and otherwise the map has `2^(M mod 2^32)` points (allocation limits are not modelled, see Left out) |
| Psk.TruncatedExponent | src/psk.rs:18 | a nonzero `M` that is a multiple of `2^32` yields a 1-point map, not `2^M` points, so the result is not a valid scheme, while the corrected `New` reports the overflow |
| Psk.New | src/psk.rs:17-39 | construction succeeds exactly when `2^M` fits a 64-bit usize; the scheme is then valid, with `2^M` points, point `i` at constellation angle `i`, and `M` and `sps` as given; otherwise it fails with `Overflow` (allocation limits are not modelled, see Left out) |
| Psk.NewAgreesBelowCast | src/psk.rs:18 | for every `M < 2^32` the as-written and corrected constructors coincide |
| Psk.Chunks | src/psk.rs:76 | `par_chunks(M)` gives nonempty groups of at most `M` elements |
| Psk.ChunksCount | src/psk.rs:76 | there are `ceil(n/M)` groups |
| Psk.ChunksConcat | src/psk.rs:76 | the groups, concatenated in order, are the input: nothing is lost, repeated or moved |
| Psk.ChunksSizes | src/psk.rs:76 | every group but the last has exactly `M` elements, and the last is short exactly when `M` does not divide the length |
| Psk.ChunksShape | src/psk.rs:76 | the three facts above together |
| Psk.ChunkAt | src/psk.rs:76 | group `j` is the slice `[j*M, min(j*M+M, n))` |
| Psk.SymbolIndex | src/psk.rs:78-84 | the index of a group of `k <= M` bits is the value of the group followed by `M-k` zero bits, and it is below `2^M`, so the map lookup is in bounds |
| Psk.IndexBits | src/psk.rs:78-84 | the `M`-bit pattern of a group's index is the group followed by zero padding, so the group is recoverable from its index |
| Psk.SymbolIndices | src/psk.rs:72-84 | the data gives `ceil(8*len/M)` indices, all below `2^M` |
| Psk.HoldLength | src/psk.rs:86 | holding `p` points for `sps` samples each gives `p*sps` samples |
| Psk.HoldBlock | src/psk.rs:86 | samples `[j*sps, (j+1)*sps)` of the held sequence are all point `j` |
| Psk.Waveform | src/psk.rs:75-87 | the waveform of the data has `ceil(8*len/M)*sps` samples |
| Psk.WaveformBlock | src/psk.rs:75-86 | block `j` of the waveform lies within it, and all its samples are the map point of group `j`, i.e. of the bits `[j*M, min(j*M+M, 8*len))` |
| Psk.ModulateIntoCheck | src/psk.rs:70-75 | `modulate_into` proceeds exactly when `M > 0`, `sps > 0` and the buffer holds `ceil(8*len/M)*sps` samples; the first panic is `div_ceil` by zero when `M = 0`, then the length assertion, then `ZeroChunkSize` exactly when `M > 0` and `sps = 0` |
| Psk.Fill | src/psk.rs:86 | `slice::fill`: every position of the range becomes the value, and no other position changes |
| Psk.ModulateInto | src/psk.rs:69-88 | on a panic nothing is written; otherwise the first `ceil(8*len/M)*sps` samples of `out` are the waveform, and every later sample is unchanged |
| Psk.WriteBlocks | src/psk.rs:75-87 | the zip of whole output blocks and bit groups writes the waveform into the prefix and leaves the tail unchanged |
| Psk.WriteBlock | src/psk.rs:77-86 | one step of the zip: output block `j` becomes the waveform's block `j`, and nothing outside the block changes |
| Psk.Modulate | src/psk.rs:90-96 | `modulate` succeeds exactly when `M > 0` and `sps > 0`, failing with `DivideByZero` or `ZeroChunkSize` otherwise; on success it returns exactly `ceil(8*len/M)*sps` samples, which are the waveform |
| Psk.DemodulatedLength | src/psk.rs:105 | the demodulator's byte count is the fewest bytes whose bits cover `M` bits per `sps` samples; a zero `sps` divides by zero |
| Psk.DemodulatedLengthOfModulated | src/psk.rs:105 | sizing the demodulator from a modulated buffer gives at least the bytes sent, exactly them when `M` divides the bit count, and fewer than `(M + 8)/8` extra bytes |
| Psk.DemodulatedLengthBounds | src/psk.rs:105 | the round trip of lengths never loses a byte and adds fewer than one symbol's bits plus one byte |
| Psk.DemodulatedLengthExact | src/psk.rs:105 | with no padding (`M` divides `8*len`), the round trip of lengths is exact |
| Psk.BpskConstellation | src/psk.rs:17-31 | BPSK has two points, at angles 0 and pi |
| Psk.QpskAngles | src/psk.rs:20-26 | QPSK is rotated: its angles are pi/4, 3pi/4, 5pi/4, 7pi/4 |
| Psk.HelloWorldLengths | src/psk.rs:131-133 | the 13 bytes of the module's own test under 8PSK make 35 symbols, and the demodulator would size 14 bytes for them |
| Psk.AllOnesByteBpsk | src/psk.rs:78-79 | BPSK of the byte 0xFF gives eight indices of 1 |
| Psk.UnpackedAllOnes | src/psk.rs:72 | 0xFF unpacks to eight ones |
| Psk.UnpackedLetterA | src/psk.rs:72 | 0x41 unpacks to 01000001 |
| Psk.ShortFinalGroup | src/psk.rs:78-84 | with `M = 3`, the byte 0x41 gives indices 2, 0 and 2; the last comes from the short group `01` shifted left by one |

## Left out

- Floating-point values are not modelled. This covers the angles themselves, `Complex32::exp`, and the float arithmetic of `linspace`. Angles are exact multiples of `pi / 2^M`, and points are an opaque type built by a caller-supplied function.
- `sample_rate`, `bandwidth`, `symbol_period`, `bitrate` and the float-to-usize cast behind `samples_per_symbol` (src/psk.rs:43-61) are not modelled. The scheme stores `samplesPerSymbol` as a given integer.
- The rayon parallel iteration of `modulate_into` is modelled as a sequential loop. Its chunks are disjoint, so the result does not depend on the order.
- The `println!` in `modulate_into` is output only and is not modelled.
- The uninitialised buffer of `modulate` (`set_len`) becomes a freshly allocated array holding `T`'s default value. The buffer of `demodulate` is not modelled, since only its length is.
- `demodulate_into` is `todo!()` in the source, so every call of `demodulate` panics after computing its length. Only that length formula is modelled: `Psk.DemodulatedLength` returns the length rather than the `todo!()` panic, and no demodulated contents are modelled.
- `unpackbits`, `pack_into` and `linspace` belong to the `yttria_math` crate, which is not part of this model. They are modelled by their meaning: most significant bit first, and an endpoint-excluding evenly spaced range.
- Overflow of the `usize` products `8*len`, `ceil(8*len/M)*sps` and `len*M`, which panics in a checked build, is not modelled. Integers are unbounded, so these panics have no `Failure` value.
- Psk.New: memory is unbounded in the model, so `New` succeeds for every `M < 64`. In the source, collecting the `2^M` points of `Complex32` (8 bytes each, src/psk.rs:28-31) needs `8 * 2^M` bytes. That exceeds `isize::MAX` from `M = 60`, where the allocation panics with a capacity overflow, and the allocation fails on real machines long before. The same holds for the `2^M` angles of `linspace` (src/psk.rs:26). Neither failure is modelled.
- Psk.NewAsWritten: the same unmodelled allocation limit applies. Its `Ok` result for exponents from 60 to 63 is not what the source returns.
- `usize::pow` overflow is modelled as the checked-build panic. A release build would wrap instead.
- A `PskModulation` whose symbol map has the wrong size is out of scope. The modulator requires a scheme that satisfies `Valid`. Only the corrected `Psk.New` is guaranteed to produce one. The as-written `new` with `M` a nonzero multiple of `2^32` does not (`Psk.TruncatedExponent`), and running the modulator on that scheme, including its shift overflow at src/psk.rs:83, is not modelled.
- `usize` is taken to be 64 bits wide (`USIZE_BITS`). On a 32-bit target, `new` would already overflow for `M >= 32`, which the model does not capture.
- `src/traits.rs` is not part of this model; it declares the trait signatures only. `src/lib.rs` is not part of this model either; it is the Python binding.
- The test module's filter design, convolution and plotting are not modelled. Only its input sizes appear, in `Psk.HelloWorldLengths`.

## Findings

| source | as written | input that shows it | evidently intended | confidence | as-written member | corrected member |
|---|---|---|---|---|---|---|
| src/psk.rs:18 | the exponent `bits_per_symbol as u32` keeps only the low 32 bits, so a huge `M` that is a multiple of `2^32` computes `2^0 = 1` point instead of overflowing | `M = 4294967296` | `2^M` points, or an overflow panic when `2^M` does not fit a usize | low (needs an absurd `M`); not executed | Psk.TruncatedExponent | Psk.New |
