/** The phase-shift-keying scheme: construction of the constellation, the
    zero-order-hold modulator and the output-length arithmetic of the
    modulator and the demodulator.

    Constellation points are of an opaque type `T`; the caller supplies
    `pointAt`, the unit-circle point of an angle (the complex exponential of
    the source), so no floating-point value enters the model. */
module Psk {
  import opened Arith
  import opened Bits

  /** Why a call panics instead of returning. */
  datatype Failure =
    | Overflow        // `usize::pow(2, M)` does not fit a 64-bit usize
    | DivideByZero    // `div_ceil` by zero
    | BufferTooSmall  // the length assertion at the top of `modulate_into`
    | ZeroChunkSize   // `par_chunks_exact_mut(0)`

  datatype Result<R> = Ok(value: R) | Fail(failure: Failure)

  /** The end of a call that writes into a caller's buffer. */
  datatype Outcome = Done | Panicked(failure: Failure)

  /** An angle of `numer * pi / denom` radians, kept exact. */
  datatype Angle = Angle(numer: int, denom: nat)

  /** Bit width of `usize` on the targets considered. */
  const USIZE_BITS: nat := 64

  /** `x as u32` keeps `x` modulo this. */
  const U32_MODULUS: nat := 0x1_0000_0000

  /** A PSK scheme. `samplesPerSymbol` stands for the value the source derives
      from the sample rate and the bandwidth. */
  datatype PskModulation<T> = PskModulation(bitsPerSymbol: nat, samplesPerSymbol: nat, symbolMap: seq<T>)
  {
    /** What construction establishes: `2^M` fits a usize, and there is one
        point per `M`-bit pattern. */
    predicate Valid()
    {
      bitsPerSymbol < USIZE_BITS && |symbolMap| == Pow2(bitsPerSymbol)
    }
  }

  // ---------------------------------------------------------------------
  // Constellation
  // ---------------------------------------------------------------------

  /** `n` values from `start`, each `step` past the one before. */
  function Ramp(start: int, step: int, n: nat): (r: seq<int>)
    ensures |r| == n
    ensures n > 0 ==> r[0] == start && r[n - 1] == start + (n - 1) * step
    ensures forall i :: 0 <= i < n - 1 ==> r[i + 1] == r[i] + step
    decreases n
  {
    if n == 0 then []
    else
      var rest := Ramp(start + step, step, n - 1);
      MulSucc(n - 2, step);
      [start] + rest
  }

  /** `linspace(start, stop, n, false)` on numerators over one common
      denominator: `n` evenly spaced values from `start`, the endpoint `stop`
      excluded. */
  function Linspace(start: int, stop: int, n: nat): (r: seq<int>)
    requires n > 0 && (stop - start) % n == 0
    ensures |r| == n && r[0] == start
    ensures forall i :: 0 <= i < n - 1 ==> r[i + 1] - r[i] == (stop - start) / n
    ensures r[n - 1] + (stop - start) / n == stop
  {
    var step := (stop - start) / n;
    DivModUnique(stop - start, n, step, 0);
    MulSucc(n - 1, step);
    Ramp(start, step, n)
  }

  /** The rotation of the first point, in steps of `pi / npoints`. */
  function Offset(bitsPerSymbol: nat): nat
  {
    if bitsPerSymbol % 2 == 0 then 1 else 0
  }

  /** The angles `new` maps to points: `linspace(offset, 2*pi + offset,
      npoints, false)`, with `offset = pi / npoints` for an even `M` and 0
      for an odd one. Numerators are over `npoints`, so consecutive angles
      are `2 pi / npoints` apart and the last is one step short of a full
      turn past the first. */
  function ConstellationAngles(bitsPerSymbol: nat, npoints: nat): (r: seq<Angle>)
    requires npoints > 0
    ensures |r| == npoints
    ensures forall i :: 0 <= i < npoints ==> r[i].denom == npoints
    ensures r[0].numer == Offset(bitsPerSymbol)
    ensures forall i :: 0 <= i < npoints - 1 ==> r[i + 1].numer == r[i].numer + 2
    ensures r[npoints - 1].numer + 2 == 2 * npoints + r[0].numer
  {
    var offset := Offset(bitsPerSymbol);
    var start, stop := offset, 2 * npoints + offset;
    DivModUnique(stop - start, npoints, 2, 0);
    var numers := Linspace(start, stop, npoints);
    seq(npoints, i requires 0 <= i < npoints => Angle(numers[i], npoints))
  }

  /** The angles of the `2^M`-point constellation. */
  function SymbolAngles(bitsPerSymbol: nat): (r: seq<Angle>)
  {
    ConstellationAngles(bitsPerSymbol, Pow2(bitsPerSymbol))
  }

  /** The constellation has `N = 2^M` angles, all multiples of `pi / N`; the
      first is rotated by `pi / N` exactly when `M` is even; consecutive
      angles are `2 pi / N` apart, and the last lies one step short of a
      full turn past the first. */
  lemma SymbolAnglesShape(bitsPerSymbol: nat)
    ensures var n := Pow2(bitsPerSymbol);
      var r := SymbolAngles(bitsPerSymbol);
      && |r| == n
      && (forall i :: 0 <= i < n ==> r[i].denom == n)
      && (r[0].numer != 0 <==> bitsPerSymbol % 2 == 0)
      && r[0].numer == (if bitsPerSymbol % 2 == 0 then 1 else 0)
      && (forall i :: 0 <= i < n - 1 ==> r[i + 1].numer == r[i].numer + 2)
      && r[n - 1].numer + 2 == 2 * n + r[0].numer
  {
  }

  /** Builds a scheme on `npoints` points, as `new` does once `npoints` is
      known. */
  function Build<T>(bitsPerSymbol: nat, npoints: nat, samplesPerSymbol: nat, pointAt: Angle -> T): (r: PskModulation<T>)
    requires npoints > 0
    ensures |r.symbolMap| == npoints
    ensures forall i :: 0 <= i < npoints ==>
      r.symbolMap[i] == pointAt(ConstellationAngles(bitsPerSymbol, npoints)[i])
  {
    var angles := ConstellationAngles(bitsPerSymbol, npoints);
    PskModulation(bitsPerSymbol, samplesPerSymbol, seq(npoints, i requires 0 <= i < npoints => pointAt(angles[i])))
  }

  /** `PskModulation::new` as written: the exponent is cast to `u32` before
      `usize::pow`, which panics on overflow in a checked build. */
  function NewAsWritten<T>(bitsPerSymbol: nat, samplesPerSymbol: nat, pointAt: Angle -> T): (r: Result<PskModulation<T>>)
    ensures r.Ok? <==> bitsPerSymbol % U32_MODULUS < USIZE_BITS
    ensures r.Fail? ==> r.failure == Overflow
    ensures r.Ok? ==> (r.value.bitsPerSymbol == bitsPerSymbol
      && |r.value.symbolMap| == Pow2(bitsPerSymbol % U32_MODULUS))
  {
    var exponent := bitsPerSymbol % U32_MODULUS;
    if exponent >= USIZE_BITS then Fail(Overflow)
    else Ok(Build(bitsPerSymbol, Pow2(exponent), samplesPerSymbol, pointAt))
  }

  /** An `M` that is a nonzero multiple of `2^32` passes the cast as 0: the
      scheme gets a single point instead of `2^M` of them, where the
      uncast exponent overflows. */
  lemma TruncatedExponent<T>(bitsPerSymbol: nat, samplesPerSymbol: nat, pointAt: Angle -> T)
    requires bitsPerSymbol > 0 && bitsPerSymbol % U32_MODULUS == 0
    ensures var r := NewAsWritten(bitsPerSymbol, samplesPerSymbol, pointAt);
      r.Ok? && |r.value.symbolMap| == 1 && |r.value.symbolMap| != Pow2(bitsPerSymbol) && !r.value.Valid()
    ensures New(bitsPerSymbol, samplesPerSymbol, pointAt) == Fail(Overflow)
  {
    Pow2Monotone(1, bitsPerSymbol);
  }

  /** `PskModulation::new` with the exponent left uncast: `M < 64` gives a
      valid scheme whose point `i` lies at angle `i` of the constellation;
      a larger `M` overflows. */
  function New<T>(bitsPerSymbol: nat, samplesPerSymbol: nat, pointAt: Angle -> T): (r: Result<PskModulation<T>>)
    ensures r.Ok? <==> bitsPerSymbol < USIZE_BITS
    ensures r.Fail? ==> r.failure == Overflow
    ensures r.Ok? ==> (r.value.Valid()
      && r.value.bitsPerSymbol == bitsPerSymbol
      && r.value.samplesPerSymbol == samplesPerSymbol)
    ensures r.Ok? ==> forall i :: 0 <= i < |r.value.symbolMap| ==>
      r.value.symbolMap[i] == pointAt(SymbolAngles(bitsPerSymbol)[i])
  {
    if bitsPerSymbol >= USIZE_BITS then Fail(Overflow)
    else Ok(Build(bitsPerSymbol, Pow2(bitsPerSymbol), samplesPerSymbol, pointAt))
  }

  /** Below `2^32`, the cast changes nothing. */
  lemma NewAgreesBelowCast<T>(bitsPerSymbol: nat, samplesPerSymbol: nat, pointAt: Angle -> T)
    requires bitsPerSymbol < U32_MODULUS
    ensures NewAsWritten(bitsPerSymbol, samplesPerSymbol, pointAt) == New(bitsPerSymbol, samplesPerSymbol, pointAt)
  {
    DivModUnique(bitsPerSymbol, U32_MODULUS, 0, bitsPerSymbol);
  }

  // ---------------------------------------------------------------------
  // Bit grouping and symbol indices
  // ---------------------------------------------------------------------

  /** The groups `par_chunks(size)` yields: consecutive, in order, each of
      `size` elements except a shorter last one. */
  function Chunks<E>(s: seq<E>, size: nat): (r: seq<seq<E>>)
    requires size > 0
    ensures forall j :: 0 <= j < |r| ==> 0 < |r[j]| <= size
    decreases |s|
  {
    if s == [] then []
    else if |s| <= size then [s]
    else [s[..size]] + Chunks(s[size..], size)
  }

  /** The concatenation of a sequence of groups. */
  function Concat<E>(groups: seq<seq<E>>): seq<E>
  {
    if groups == [] then [] else groups[0] + Concat(groups[1..])
  }

  /** There are `ceil(|s| / size)` groups. */
  lemma {:induction false} ChunksCount<E>(s: seq<E>, size: nat)
    requires size > 0
    ensures |Chunks(s, size)| == DivCeil(|s|, size)
  {
    if s == [] {
      DivCeilOfMultiple(0, size);
    } else if |s| <= size {
      DivCeilUnique(|s|, size, 1);
    } else {
      ChunksCount(s[size..], size);
      DivCeilStep(|s|, size);
    }
  }

  /** Together, in order, the groups are `s`: no element is lost, repeated
      or moved. */
  lemma {:induction false} ChunksConcat<E>(s: seq<E>, size: nat)
    requires size > 0
    ensures Concat(Chunks(s, size)) == s
  {
    if s != [] && |s| <= size {
      assert Concat(Chunks(s, size)) == s + Concat([]);
    } else if |s| > size {
      var rest := s[size..];
      ChunksConcat(rest, size);
      assert Chunks(s, size)[1..] == Chunks(rest, size);
      assert s == s[..size] + rest;
    }
  }

  /** All groups but the last hold exactly `size` elements, and the last is
      short exactly when `size` does not divide `|s|`. */
  lemma {:induction false} ChunksSizes<E>(s: seq<E>, size: nat)
    requires size > 0
    ensures var r := Chunks(s, size);
      && (forall j :: 0 <= j < |r| - 1 ==> |r[j]| == size)
      && (|r| > 0 ==> (|r[|r| - 1]| < size <==> |s| % size != 0))
  {
    if s != [] && |s| <= size {
      if |s| == size {
        DivModUnique(|s|, size, 1, 0);
      } else {
        DivModUnique(|s|, size, 0, |s|);
      }
    } else if |s| > size {
      var rest := s[size..];
      ChunksSizes(rest, size);
      ModStep(|s|, size);
      assert Chunks(s, size)[1..] == Chunks(rest, size);
    }
  }

  /** The grouping `par_chunks` performs: `ceil(|s| / size)` groups that
      together are `s`, all of `size` elements but a last one that is short
      exactly when `size` does not divide `|s|`. */
  lemma ChunksShape<E>(s: seq<E>, size: nat)
    requires size > 0
    ensures var r := Chunks(s, size);
      && |r| == DivCeil(|s|, size)
      && Concat(r) == s
      && (forall j :: 0 <= j < |r| - 1 ==> |r[j]| == size)
      && (|r| > 0 ==> (|r[|r| - 1]| < size <==> |s| % size != 0))
  {
    ChunksCount(s, size);
    ChunksConcat(s, size);
    ChunksSizes(s, size);
  }

  /** Group `j` is the slice `[j*size, min((j+1)*size, |s|))`, which is how
      the modulator cuts it. */
  lemma {:induction false} ChunkAt<E>(s: seq<E>, size: nat, j: nat)
    requires size > 0 && j < |Chunks(s, size)|
    ensures j * size < |s|
    ensures Chunks(s, size)[j] == s[j * size .. Min(j * size + size, |s|)]
  {
    if j > 0 {
      var rest := s[size..];
      assert Chunks(s, size) == [s[..size]] + Chunks(rest, size);
      ChunkAt(rest, size, j - 1);
      var lo := (j - 1) * size;
      var hi := Min(lo + size, |rest|);
      MulSucc(j - 1, size);
      assert j * size == lo + size;
      assert Min(j * size + size, |s|) == hi + size;
      assert rest[lo .. hi] == s[lo + size .. hi + size];
    }
  }

  /** The index of one group of at most `M` bits: a full group indexes by its
      own value; a short final group of `k` bits is shifted left by `M - k`.
      Either way the bits of the group occupy the high-order positions of an
      `M`-bit field whose missing low-order bits are zero, and the index is
      within the `2^M` points. */
  function SymbolIndex(group: seq<Bit>, bitsPerSymbol: nat): (r: nat)
    requires |group| <= bitsPerSymbol
    ensures r == Pack(group + Zeros(bitsPerSymbol - |group|))
    ensures r < Pow2(bitsPerSymbol)
  {
    PackAppend(group, Zeros(bitsPerSymbol - |group|));
    PackZeros(bitsPerSymbol - |group|);
    if |group| == bitsPerSymbol then
      assert group + Zeros(0) == group;
      Pack(group)
    else
      Pack(group) * Pow2(bitsPerSymbol - |group|)
  }

  /** Reading an index back as an `M`-bit pattern gives the group followed by
      zero padding. */
  lemma IndexBits(group: seq<Bit>, bitsPerSymbol: nat)
    requires |group| <= bitsPerSymbol
    ensures ToBits(SymbolIndex(group, bitsPerSymbol), bitsPerSymbol) == group + Zeros(bitsPerSymbol - |group|)
  {
    ToBitsPack(group + Zeros(bitsPerSymbol - |group|));
  }

  /** The symbol index of every group of the unpacked data, in order. */
  function SymbolIndices(data: seq<byte>, bitsPerSymbol: nat): (r: seq<nat>)
    requires bitsPerSymbol > 0
    ensures |r| == DivCeil(8 * |data|, bitsPerSymbol)
    ensures forall j :: 0 <= j < |r| ==> r[j] < Pow2(bitsPerSymbol)
  {
    var groups := Chunks(UnpackBits(data), bitsPerSymbol);
    ChunksShape(UnpackBits(data), bitsPerSymbol);
    seq(|groups|, j requires 0 <= j < |groups| => SymbolIndex(groups[j], bitsPerSymbol))
  }

  // ---------------------------------------------------------------------
  // Zero-order hold and the modulated waveform
  // ---------------------------------------------------------------------

  /** Zero-order hold: each point repeated over `samplesPerSymbol`
      consecutive samples. */
  function Hold<T>(points: seq<T>, samplesPerSymbol: nat): (r: seq<T>)
  {
    if points == [] then []
    else seq(samplesPerSymbol, _ => points[0]) + Hold(points[1..], samplesPerSymbol)
  }

  /** The held sequence has one block of `samplesPerSymbol` samples per
      point. */
  lemma {:induction false} HoldLength<T>(points: seq<T>, samplesPerSymbol: nat)
    ensures |Hold(points, samplesPerSymbol)| == |points| * samplesPerSymbol
  {
    if points != [] {
      HoldLength(points[1..], samplesPerSymbol);
      assert |points| * samplesPerSymbol == samplesPerSymbol + |points[1..]| * samplesPerSymbol;
    }
  }

  /** Block `j` of the held sequence, samples `[j*sps, (j+1)*sps)`, is
      point `j` repeated. */
  lemma {:induction false} HoldBlock<T>(points: seq<T>, samplesPerSymbol: nat, j: nat)
    requires j < |points|
    ensures j * samplesPerSymbol + samplesPerSymbol <= |Hold(points, samplesPerSymbol)|
    ensures forall q :: j * samplesPerSymbol <= q < j * samplesPerSymbol + samplesPerSymbol ==>
      Hold(points, samplesPerSymbol)[q] == points[j]
  {
    var sps, rest := samplesPerSymbol, points[1..];
    HoldLength(points, sps);
    BlockEnd(j, |points|, sps);
    var block := seq(sps, _ => points[0]);
    assert Hold(points, sps) == block + Hold(rest, sps);
    if j > 0 {
      HoldBlock(rest, sps, j - 1);
      assert (j - 1) * sps == j * sps - sps;
      forall q | j * sps <= q < j * sps + sps
        ensures Hold(points, sps)[q] == points[j]
      {
        assert Hold(points, sps)[q] == Hold(rest, sps)[q - sps];
      }
    }
  }

  /** `ceil(8 * nBytes / M) * sps`: the samples `modulate` produces. */
  function ModulatedLength(nBytes: nat, bitsPerSymbol: nat, samplesPerSymbol: nat): nat
    requires bitsPerSymbol > 0
  {
    DivCeil(8 * nBytes, bitsPerSymbol) * samplesPerSymbol
  }

  /** The waveform of `data`: the point of each group's index, held for a
      block of `samplesPerSymbol` samples, group after group. */
  function Waveform<T>(s: PskModulation<T>, data: seq<byte>): (r: seq<T>)
    requires s.Valid() && s.bitsPerSymbol > 0
    ensures |r| == ModulatedLength(|data|, s.bitsPerSymbol, s.samplesPerSymbol)
  {
    var indices := SymbolIndices(data, s.bitsPerSymbol);
    var points := seq(|indices|, j requires 0 <= j < |indices| => s.symbolMap[indices[j]]);
    HoldLength(points, s.samplesPerSymbol);
    Hold(points, s.samplesPerSymbol)
  }

  /** Block `j` of the waveform, samples `[start, start + sps)` with
      `start = j*sps`, holds the point of group `j`, the bits
      `[first, min(first + M, 8*|data|))` with `first = j*M`. */
  lemma WaveformBlock<T>(s: PskModulation<T>, data: seq<byte>, j: nat, first: nat, start: nat)
    requires s.Valid() && s.bitsPerSymbol > 0
    requires j < DivCeil(8 * |data|, s.bitsPerSymbol)
    requires first == j * s.bitsPerSymbol && start == j * s.samplesPerSymbol
    ensures first < 8 * |data|
    ensures start + s.samplesPerSymbol <= |Waveform(s, data)|
    ensures var m, bits := s.bitsPerSymbol, UnpackBits(data);
      var group := bits[first .. Min(first + m, |bits|)];
      && |group| <= m
      && forall q :: start <= q < start + s.samplesPerSymbol ==>
           Waveform(s, data)[q] == s.symbolMap[SymbolIndex(group, m)]
  {
    var m, sps, bits := s.bitsPerSymbol, s.samplesPerSymbol, UnpackBits(data);
    ChunksCount(bits, m);
    ChunkAt(bits, m, j);
    var indices := SymbolIndices(data, m);
    var points := seq(|indices|, i requires 0 <= i < |indices| => s.symbolMap[indices[i]]);
    HoldBlock(points, sps, j);
  }

  // ---------------------------------------------------------------------
  // The modulator
  // ---------------------------------------------------------------------

  /** The panic, if any, that `modulate_into` hits before it writes anything:
      `div_ceil` by a zero `M`, then the length assertion, then chunking by a
      zero `sps`. */
  function ModulateIntoCheck<T>(s: PskModulation<T>, nBytes: nat, outLength: nat): (r: Outcome)
    ensures r.Done? <==> (s.bitsPerSymbol > 0 && s.samplesPerSymbol > 0
      && outLength >= ModulatedLength(nBytes, s.bitsPerSymbol, s.samplesPerSymbol))
    ensures r == Panicked(BufferTooSmall) <==> (s.bitsPerSymbol > 0
      && outLength < ModulatedLength(nBytes, s.bitsPerSymbol, s.samplesPerSymbol))
    ensures r == Panicked(DivideByZero) <==> s.bitsPerSymbol == 0
    ensures r == Panicked(ZeroChunkSize) <==> (s.bitsPerSymbol > 0 && s.samplesPerSymbol == 0)
  {
    if s.bitsPerSymbol == 0 then Panicked(DivideByZero)
    else if outLength < ModulatedLength(nBytes, s.bitsPerSymbol, s.samplesPerSymbol) then Panicked(BufferTooSmall)
    else if s.samplesPerSymbol == 0 then Panicked(ZeroChunkSize)
    else Done
  }

  /** `slice::fill`: every position of `a` in `[lo, hi)` becomes `v`, and
      nothing else changes. */
  method Fill<T>(a: array<T>, lo: nat, hi: nat, v: T)
    requires lo <= hi <= a.Length
    modifies a
    ensures forall q :: lo <= q < hi ==> a[q] == v
    ensures forall q :: 0 <= q < a.Length && !(lo <= q < hi) ==> a[q] == old(a[q])
  {
    var q := lo;
    while q < hi
      invariant lo <= q <= hi
      invariant forall i :: lo <= i < q ==> a[i] == v
      invariant forall i :: 0 <= i < a.Length && !(lo <= i < q) ==> a[i] == old(a[i])
    {
      a[q] := v;
      q := q + 1;
    }
  }

  /** `modulate_into`: on success the first `ceil(8*|data|/M) * sps` samples
      of `out` are the waveform of `data` and the rest of `out` is untouched;
      on a panic nothing is written. */
  method ModulateInto<T>(s: PskModulation<T>, data: seq<byte>, out: array<T>) returns (r: Outcome)
    requires s.Valid()
    modifies out
    ensures r == ModulateIntoCheck(s, |data|, out.Length)
    ensures r.Panicked? ==> out[..] == old(out[..])
    ensures r.Done? ==>
      var len := ModulatedLength(|data|, s.bitsPerSymbol, s.samplesPerSymbol);
      && len <= out.Length
      && out[..len] == Waveform(s, data)
      && out[len..] == old(out[len..])
  {
    r := ModulateIntoCheck(s, |data|, out.Length);
    if r.Done? {
      WriteBlocks(s, data, out);
    }
  }

  /** The body of `modulate_into` once its checks have passed: the zip of
      the whole `sps`-sample blocks of `out` with the `M`-bit groups of the
      data, each block filled with its group's point. */
  method WriteBlocks<T>(s: PskModulation<T>, data: seq<byte>, out: array<T>)
    requires s.Valid() && s.bitsPerSymbol > 0 && s.samplesPerSymbol > 0
    requires ModulatedLength(|data|, s.bitsPerSymbol, s.samplesPerSymbol) <= out.Length
    modifies out
    ensures var len := ModulatedLength(|data|, s.bitsPerSymbol, s.samplesPerSymbol);
      && out[..len] == Waveform(s, data)
      && out[len..] == old(out[len..])
  {
    var m, sps := s.bitsPerSymbol, s.samplesPerSymbol;
    var bits := UnpackBits(data);
    var groups := DivCeil(|bits|, m);
    var len := groups * sps;
    ghost var wave := Waveform(s, data);
    // The zip stops at the shorter of its two sides.
    DivLowerBound(out.Length, sps, groups);
    var steps := Min(out.Length / sps, groups);
    // Group `j` is bits `[first, first + m)` (cut short at the end) and
    // fills samples `[start, start + sps)`.
    var j, first, start := 0, 0, 0;
    while j < steps
      invariant 0 <= j <= steps == groups
      invariant first == j * m && start == j * sps
      invariant start <= len
      invariant forall q :: 0 <= q < start ==> out[q] == wave[q]
      invariant forall q :: start <= q < out.Length ==> out[q] == old(out[q])
    {
      WriteBlock(s, data, out, j, first, start);
      MulSucc(j, m);
      MulSucc(j, sps);
      j, first, start := j + 1, first + m, start + sps;
    }
    assert out[..len] == wave;
  }

  /** One step of the zip: group `j` (bits from `first`) is turned into its
      point, which fills output block `j` (samples from `start`). */
  method WriteBlock<T>(s: PskModulation<T>, data: seq<byte>, out: array<T>, j: nat, first: nat, start: nat)
    requires s.Valid() && s.bitsPerSymbol > 0
    requires j < DivCeil(8 * |data|, s.bitsPerSymbol)
    requires first == j * s.bitsPerSymbol && start == j * s.samplesPerSymbol
    requires ModulatedLength(|data|, s.bitsPerSymbol, s.samplesPerSymbol) <= out.Length
    modifies out
    ensures start + s.samplesPerSymbol <= ModulatedLength(|data|, s.bitsPerSymbol, s.samplesPerSymbol)
    ensures forall q :: start <= q < start + s.samplesPerSymbol ==> out[q] == Waveform(s, data)[q]
    ensures forall q :: 0 <= q < out.Length && !(start <= q < start + s.samplesPerSymbol) ==>
      out[q] == old(out[q])
  {
    var m, sps := s.bitsPerSymbol, s.samplesPerSymbol;
    var bits := UnpackBits(data);
    WaveformBlock(s, data, j, first, start);
    var group := bits[first .. Min(first + m, |bits|)];
    var point := s.symbolMap[SymbolIndex(group, m)];
    Fill(out, start, start + sps, point);
  }

  /** `modulate`: a fresh buffer of exactly `ceil(8*|data|/M) * sps` samples
      holding the waveform of `data`, unless `M` or `sps` is zero. */
  method Modulate<T(0)>(s: PskModulation<T>, data: seq<byte>) returns (r: Result<seq<T>>)
    requires s.Valid()
    ensures r.Ok? <==> s.bitsPerSymbol > 0 && s.samplesPerSymbol > 0
    ensures r.Fail? ==> r.failure == (if s.bitsPerSymbol == 0 then DivideByZero else ZeroChunkSize)
    ensures r.Ok? ==> |r.value| == ModulatedLength(|data|, s.bitsPerSymbol, s.samplesPerSymbol)
    ensures r.Ok? ==> r.value == Waveform(s, data)
  {
    if s.bitsPerSymbol == 0 {
      return Fail(DivideByZero);
    }
    var len := DivCeil(8 * |data|, s.bitsPerSymbol) * s.samplesPerSymbol;
    var out := new T[len];
    var outcome := ModulateInto(s, data, out);
    if outcome.Panicked? {
      return Fail(outcome.failure);
    }
    r := Ok(out[..]);
  }

  // ---------------------------------------------------------------------
  // Demodulator output length
  // ---------------------------------------------------------------------

  /** The byte count `demodulate` allocates for `nSamples` samples:
      `ceil(nSamples * M / (sps * 8))`, the fewest bytes holding the `M`
      bits of each `sps`-sample block; a zero `sps` divides by zero. */
  function DemodulatedLength(nSamples: nat, bitsPerSymbol: nat, samplesPerSymbol: nat): (r: Result<nat>)
    ensures r.Fail? <==> samplesPerSymbol == 0
    ensures r.Fail? ==> r.failure == DivideByZero
    ensures r.Ok? ==> r.value * (8 * samplesPerSymbol) >= nSamples * bitsPerSymbol
    ensures r.Ok? ==> r.value * (8 * samplesPerSymbol) < nSamples * bitsPerSymbol + 8 * samplesPerSymbol
  {
    if samplesPerSymbol == 0 then Fail(DivideByZero)
    else Ok(DivCeil(nSamples * bitsPerSymbol, samplesPerSymbol * 8))
  }

  /** Demodulating a modulated buffer's length gives back at least the
      original byte count, exactly it when `M` divides the bit count, and
      never more bytes than the padding of one symbol plus one byte. */
  lemma DemodulatedLengthOfModulated(nBytes: nat, bitsPerSymbol: nat, samplesPerSymbol: nat)
    requires bitsPerSymbol > 0 && samplesPerSymbol > 0
    ensures var r := DemodulatedLength(ModulatedLength(nBytes, bitsPerSymbol, samplesPerSymbol), bitsPerSymbol, samplesPerSymbol);
      && r.Ok?
      && r.value >= nBytes
      && r.value * 8 < 8 * nBytes + bitsPerSymbol + 8
      && ((8 * nBytes) % bitsPerSymbol == 0 ==> r.value == nBytes)
  {
    DemodulatedLengthBounds(nBytes, bitsPerSymbol, samplesPerSymbol);
    if (8 * nBytes) % bitsPerSymbol == 0 {
      DemodulatedLengthExact(nBytes, bitsPerSymbol, samplesPerSymbol);
    }
  }

  /** The round trip never loses a byte and adds fewer than one symbol's
      bits plus one byte. */
  lemma DemodulatedLengthBounds(nBytes: nat, bitsPerSymbol: nat, samplesPerSymbol: nat)
    requires bitsPerSymbol > 0 && samplesPerSymbol > 0
    ensures var r := DemodulatedLength(ModulatedLength(nBytes, bitsPerSymbol, samplesPerSymbol), bitsPerSymbol, samplesPerSymbol);
      && r.Ok?
      && r.value >= nBytes
      && r.value * 8 < 8 * nBytes + bitsPerSymbol + 8
  {
    var m, sps, bits := bitsPerSymbol, samplesPerSymbol, 8 * nBytes;
    var groups := DivCeil(bits, m);
    var nSamples := groups * sps;
    var x := DemodulatedLength(nSamples, m, sps).value;
    // The samples carry `carried` bits: at least the bits sent, and fewer
    // than one more symbol's worth.
    var carried := groups * m;
    assert bits <= carried < bits + m;
    MulSwap(groups, sps, m);
    assert nSamples * m == carried * sps;
    // `y` is the bit capacity of the bytes allocated.
    var y := x * 8;
    MulSwap(x, 8, sps);
    assert carried * sps <= y * sps < carried * sps + 8 * sps;
    MulCancelLe(carried, y, sps);
    MulAdd(carried, 8, sps);
    MulCancelLt(y, carried + 8, sps);
  }

  /** When `M` divides the bit count there is no padding, and the round
      trip gives back exactly the bytes sent. */
  lemma DemodulatedLengthExact(nBytes: nat, bitsPerSymbol: nat, samplesPerSymbol: nat)
    requires bitsPerSymbol > 0 && samplesPerSymbol > 0
    requires (8 * nBytes) % bitsPerSymbol == 0
    ensures DemodulatedLength(ModulatedLength(nBytes, bitsPerSymbol, samplesPerSymbol), bitsPerSymbol, samplesPerSymbol)
      == Ok(nBytes)
  {
    var m, sps, bits := bitsPerSymbol, samplesPerSymbol, 8 * nBytes;
    var q := bits / m;
    assert bits == q * m + bits % m;
    DivCeilOfMultiple(q, m);
    var nSamples := q * sps;
    assert ModulatedLength(nBytes, m, sps) == nSamples;
    MulSwap(q, sps, m);
    assert nSamples * m == bits * sps;
    MulSwap(nBytes, 8, sps);
    assert nSamples * m == nBytes * (sps * 8);
    DivCeilOfMultiple(nBytes, sps * 8);
  }

  // ---------------------------------------------------------------------
  // Worked examples
  // ---------------------------------------------------------------------

  /** BPSK: two points, at angles 0 and pi. */
  lemma BpskConstellation<T>(samplesPerSymbol: nat, pointAt: Angle -> T)
    ensures New(1, samplesPerSymbol, pointAt) == Ok(PskModulation(1, samplesPerSymbol, [pointAt(Angle(0, 2)), pointAt(Angle(2, 2))]))
  {
    var r := New(1, samplesPerSymbol, pointAt);
    assert Pow2(1) == 2;
    SymbolAnglesShape(1);
    assert r.value.symbolMap == [pointAt(Angle(0, 2)), pointAt(Angle(2, 2))];
  }

  /** QPSK is rotated by pi/4: its angles are pi/4, 3pi/4, 5pi/4, 7pi/4. */
  lemma QpskAngles()
    ensures SymbolAngles(2) == [Angle(1, 4), Angle(3, 4), Angle(5, 4), Angle(7, 4)]
  {
    assert Pow2(2) == 4;
    SymbolAnglesShape(2);
  }

  /** The 13 bytes of "hello, world!" under 8PSK: 104 bits make 35 groups,
      the last of two bits, so 35 blocks are sent and the demodulator sizes
      14 bytes for them, one more than was sent. */
  lemma HelloWorldLengths(samplesPerSymbol: nat)
    requires samplesPerSymbol > 0
    ensures ModulatedLength(13, 3, samplesPerSymbol) == 35 * samplesPerSymbol
    ensures DemodulatedLength(35 * samplesPerSymbol, 3, samplesPerSymbol) == Ok(14)
  {
    var sps := samplesPerSymbol;
    DivCeilUnique(104, 3, 35);
    assert (35 * sps) * 3 == 105 * sps;
    assert 14 * (sps * 8) == 112 * sps;
    DivCeilUnique((35 * sps) * 3, sps * 8, 14);
  }

  /** BPSK of the byte 0xFF: eight groups of one bit, all with index 1. */
  lemma AllOnesByteBpsk()
    ensures SymbolIndices([0xFF], 1) == [1, 1, 1, 1, 1, 1, 1, 1]
  {
    var bits := UnpackBits([0xFF]);
    UnpackedAllOnes();
    var groups := Chunks(bits, 1);
    ChunksCount(bits, 1);
    DivCeilOfMultiple(8, 1);
    var r := SymbolIndices([0xFF], 1);
    forall j | 0 <= j < 8
      ensures r[j] == 1
    {
      ChunkAt(bits, 1, j);
      assert groups[j] == [1];
      assert Pack([1]) == 1;
    }
  }

  /** The byte 0xFF unpacks to eight ones. */
  lemma UnpackedAllOnes()
    ensures UnpackBits([0xFF]) == [1, 1, 1, 1, 1, 1, 1, 1]
  {
    assert UnpackBits([0xFF]) == ToBits(255, 8);
    assert ToBits(255, 8) == ToBits(63, 6) + [1, 1];
  }

  /** The byte 0x41 unpacks to 01000001. */
  lemma UnpackedLetterA()
    ensures UnpackBits([0x41]) == [0, 1, 0, 0, 0, 0, 0, 1]
  {
    assert UnpackBits([0x41]) == ToBits(65, 8);
    assert ToBits(65, 8) == ToBits(16, 6) + [0, 1];
  }

  /** M = 3 on the byte 0x41 (bits 01000001): groups 010, 000 and a short 01
      shifted to 010, so the indices are 2, 0, 2. */
  lemma ShortFinalGroup()
    ensures SymbolIndices([0x41], 3) == [2, 0, 2]
  {
    var bits := UnpackBits([0x41]);
    UnpackedLetterA();
    ChunkAt(bits, 3, 0);
    ChunkAt(bits, 3, 1);
    ChunkAt(bits, 3, 2);
    var groups := Chunks(bits, 3);
    assert groups[0] == [0, 1, 0] && Pack([0, 1, 0]) == 2;
    assert groups[1] == [0, 0, 0] && Pack([0, 0, 0]) == 0;
    assert groups[2] == [0, 1] && Pack([0, 1]) == 1;
    assert SymbolIndex([0, 1], 3) == 1 * Pow2(1) == 2;
  }
}
