/**
  Sample counts of NR slots (openair1/PHY/INIT/nr_parms.c). The first slot of every half
  subframe carries the long cyclic prefix of section 5.3.1 of 3GPP TS 38.211, so slots have
  two lengths. The closed forms that the softmodems use are proved to be the prefix sums of
  the slot lengths and their inverse.
*/
module NrParms {
  import opened Arith

  const MAX_FRAME_NUMBER := 1024

  datatype FrameParms = FrameParms(
    numerology: nat,
    slotsPerSubframe: nat,
    symbolsPerSlot: nat,
    ofdmSymbolSize: nat,
    nbPrefixSamples: nat,
    nbPrefixSamples0: nat,
    samplesPerSubframe: nat,
    samplesPerSlot0: nat,
    samplesPerSlotN0: nat)

  function SlotsPerSubframe(numerology: nat): (n: nat)
    ensures n > 0
    ensures numerology > 0 ==> n % 2 == 0
  {
    if numerology == 0 then 1 else 2 * SlotsPerSubframe(numerology - 1)
  }

  /** Every step of the numerology doubles the slots of a subframe: they are a power of two. */
  lemma {:induction false} SlotsMultiply(a: nat, b: nat)
    ensures SlotsPerSubframe(a + b) == SlotsPerSubframe(a) * SlotsPerSubframe(b)
    ensures SlotsPerSubframe(0) == 1 && SlotsPerSubframe(1) == 2
  {
    if a > 0 {
      SlotsMultiply(a - 1, b);
      Associate(2, SlotsPerSubframe(a - 1), SlotsPerSubframe(b));
    }
  }

  /** The derived sample counts, as frame parameter initialization computes them. */
  function InitFrameParms(numerology: nat, symbolsPerSlot: nat, ofdmSymbolSize: nat,
                          prefix: nat, prefix0: nat): FrameParms
    requires symbolsPerSlot >= 2
  {
    var slots := SlotsPerSubframe(numerology);
    var subframe: nat := (prefix0 + ofdmSymbolSize) * 2 + (prefix + ofdmSymbolSize) * Extra(symbolsPerSlot, slots);
    FrameParms(numerology, slots, symbolsPerSlot, ofdmSymbolSize, prefix, prefix0, subframe,
               if numerology == 0 then subframe
               else prefix0 + (symbolsPerSlot - 1) * prefix + symbolsPerSlot * ofdmSymbolSize,
               (prefix + ofdmSymbolSize) * symbolsPerSlot)
  }

  /** Symbols of a subframe with the short prefix. */
  function Extra(symbolsPerSlot: nat, slots: nat): (n: nat)
    requires symbolsPerSlot >= 2 && slots > 0
    ensures n + 2 == symbolsPerSlot * slots
  {
    MulMonotone(1, slots, symbolsPerSlot);
    symbolsPerSlot * slots - 2
  }

  ghost predicate Valid(fp: FrameParms) {
    && fp.slotsPerSubframe > 0
    && fp.samplesPerSlot0 > 0
    && fp.samplesPerSlotN0 > 0
    && if fp.numerology == 0 then
         fp.slotsPerSubframe == 1 && fp.samplesPerSubframe == fp.samplesPerSlot0
       else
         && fp.slotsPerSubframe % 2 == 0
         && fp.samplesPerSubframe
            == 2 * (fp.samplesPerSlot0 + (fp.slotsPerSubframe / 2 - 1) * fp.samplesPerSlotN0)
  }

  lemma InitFrameParmsValid(numerology: nat, symbolsPerSlot: nat, ofdmSymbolSize: nat, prefix: nat, prefix0: nat)
    requires symbolsPerSlot >= 2 && ofdmSymbolSize > 0
    ensures Valid(InitFrameParms(numerology, symbolsPerSlot, ofdmSymbolSize, prefix, prefix0))
  {
    var slots := SlotsPerSubframe(numerology);
    MulMonotone(1, symbolsPerSlot, prefix + ofdmSymbolSize);
    if numerology > 0 {
      SubframeSamples(symbolsPerSlot, ofdmSymbolSize, prefix, prefix0, slots / 2);
    }
  }

  /** A subframe is two half subframes, each one long slot followed by short ones. */
  lemma SubframeSamples(symbols: nat, ofdm: nat, prefix: nat, prefix0: nat, half: nat)
    requires symbols >= 2 && ofdm > 0 && half > 0
    ensures var slot0 := prefix0 + (symbols - 1) * prefix + symbols * ofdm;
            && slot0 > 0
            && (prefix0 + ofdm) * 2 + (prefix + ofdm) * Extra(symbols, 2 * half)
               == 2 * (slot0 + (half - 1) * ((prefix + ofdm) * symbols))
  {
    var symbol := prefix + ofdm;
    var rest := symbol * symbols;
    var slot0 := prefix0 + (symbols - 1) * prefix + symbols * ofdm;
    assert slot0 == prefix0 + ofdm + (rest - symbol) by {
      Distribute(symbols, 1, prefix);
      Distribute(prefix, ofdm, symbols);
    }
    MulMonotone(1, symbols, symbol);
    assert (half - 1) * rest == half * rest - rest by { Distribute(half, 1, rest); }
    assert symbol * Extra(symbols, 2 * half) == 2 * (half * rest) - 2 * symbol by {
      var e := Extra(symbols, 2 * half);
      Distribute(e, 2, symbol);
      assert symbol * (symbols * (2 * half)) == rest * (2 * half) by { Associate(symbol, symbols, 2 * half); }
    }
  }

  function SlotsPerFrame(fp: FrameParms): (n: nat)
    requires Valid(fp)
    ensures n >= 10
  {
    10 * fp.slotsPerSubframe
  }

  function SamplesPerFrame(fp: FrameParms): (n: nat)
    requires Valid(fp)
    ensures n > 0
  {
    SubframeNotEmpty(fp);
    10 * fp.samplesPerSubframe
  }

  lemma SubframeNotEmpty(fp: FrameParms)
    requires Valid(fp)
    ensures fp.samplesPerSubframe > 0
  {
    if fp.numerology > 0 {
      MulMonotone(0, fp.slotsPerSubframe / 2 - 1, fp.samplesPerSlotN0);
    }
  }

  function SamplesPerSlot(fp: FrameParms, slot: int): (n: nat)
    requires Valid(fp)
    ensures n > 0
  {
    if fp.numerology == 0 then fp.samplesPerSubframe
    else if slot % (fp.slotsPerSubframe / 2) != 0 then fp.samplesPerSlotN0
    else fp.samplesPerSlot0
  }

  function SlotTimestamp(fp: FrameParms, slot: nat): nat
    requires Valid(fp)
  {
    if slot == 0 then 0
    else if fp.numerology == 0 then slot * fp.samplesPerSubframe
    else
      var half := fp.slotsPerSubframe / 2;
      var rem := slot % half;
      MulMonotone(0, slot / half, fp.samplesPerSubframe);
      slot / half * fp.samplesPerSubframe / 2
      + if rem > 0 then MulMonotone(0, rem - 1, fp.samplesPerSlotN0); fp.samplesPerSlot0 + (rem - 1) * fp.samplesPerSlotN0
        else 0
  }

  function SlotDuration(fp: FrameParms, start: nat, count: nat): int
    requires Valid(fp)
  {
    SlotTimestamp(fp, start + count) - SlotTimestamp(fp, start)
  }

  function CeilDiv(a: nat, b: nat): nat
    requires b > 0
  {
    (a + b - 1) / b
  }

  function SlotFromTimestamp(fp: FrameParms, timestamp: int): int
    requires Valid(fp)
  {
    var t := CRem(timestamp, SamplesPerFrame(fp));
    if t < fp.samplesPerSlot0 then 0
    else if fp.numerology == 0 then t / fp.samplesPerSubframe
    else
      var halfSamples := fp.samplesPerSubframe / 2;
      var halves := t / halfSamples;
      var count0 := halves * (fp.slotsPerSubframe / 2);
      var index0 := halves * halfSamples - 1;
      // Samples are left in the half subframe: count its first, long slot.
      var (count1, index1) := if index0 < t then (count0 + 1, index0 + fp.samplesPerSlot0) else (count0, index0);
      var count2 := if index1 < t then count1 + CeilDiv(t - index1, fp.samplesPerSlotN0) else count1;
      count2 - 1
  }

  /** A mask of ten bits is the remainder by 1024, also of a negative number. */
  function FrameFromTimestamp(fp: FrameParms, timestamp: int): nat
    requires Valid(fp)
  {
    CDiv(timestamp, SamplesPerFrame(fp)) % MAX_FRAME_NUMBER
  }

  /** The reference meaning: lengths of `count` successive slots, added one by one. */
  ghost function SumSamples(fp: FrameParms, start: nat, count: nat): nat
    requires Valid(fp)
  {
    if count == 0 then 0 else SumSamples(fp, start, count - 1) + SamplesPerSlot(fp, start + count - 1)
  }

  // ---- The closed forms are sums ----

  /** Closed form at a slot given by its half subframe and its index in it. */
  lemma SlotTimestampAt(fp: FrameParms, halves: nat, rem: nat)
    requires Valid(fp) && fp.numerology > 0 && rem < fp.slotsPerSubframe / 2
    ensures SlotTimestamp(fp, halves * (fp.slotsPerSubframe / 2) + rem)
         == halves * (fp.samplesPerSubframe / 2)
            + if rem > 0 then fp.samplesPerSlot0 + (rem - 1) * fp.samplesPerSlotN0 else 0
  {
    var half := fp.slotsPerSubframe / 2;
    var slot := halves * half + rem;
    DivModUnique(slot, half, halves, rem);
    var h := fp.samplesPerSubframe / 2;
    assert halves * fp.samplesPerSubframe == 2 * (halves * h);
  }

  /** With numerology 0 every slot is a subframe. */
  lemma UniformLater(fp: FrameParms, slot: nat, k: nat)
    requires Valid(fp) && fp.numerology == 0
    ensures SlotTimestamp(fp, slot) == slot * fp.samplesPerSubframe
    ensures SlotTimestamp(fp, slot + k) == SlotTimestamp(fp, slot) + k * fp.samplesPerSubframe
  {
    Distribute(slot, k, fp.samplesPerSubframe);
  }

  lemma SlotTimestampStep(fp: FrameParms, slot: nat)
    requires Valid(fp)
    ensures SlotTimestamp(fp, slot + 1) == SlotTimestamp(fp, slot) + SamplesPerSlot(fp, slot)
  {
    if fp.numerology == 0 {
      UniformLater(fp, slot, 1);
    } else {
      var half := fp.slotsPerSubframe / 2;
      DivMod(slot, half);
      HalfSubframeStep(fp, slot / half, slot % half);
    }
  }

  lemma HalfSubframeStep(fp: FrameParms, q: nat, r: nat)
    requires Valid(fp) && fp.numerology > 0 && r < fp.slotsPerSubframe / 2
    ensures var slot := q * (fp.slotsPerSubframe / 2) + r;
            SlotTimestamp(fp, slot + 1) == SlotTimestamp(fp, slot) + SamplesPerSlot(fp, slot)
  {
    var half, h := fp.slotsPerSubframe / 2, fp.samplesPerSubframe / 2;
    var slot := q * half + r;
    DivModUnique(slot, half, q, r);
    SlotTimestampAt(fp, q, r);
    if r < half - 1 {
      SlotTimestampAt(fp, q, r + 1);
      Distribute(r - 1, 1, fp.samplesPerSlotN0);
    } else {
      SlotTimestampAt(fp, q + 1, 0);
      Distribute(q, 1, half);
      Distribute(q, 1, h);
      Distribute(r - 1, 1, fp.samplesPerSlotN0);
    }
  }

  /** `get_samples_slot_duration` adds up exactly the slots of its window. */
  lemma {:induction false} SlotDurationIsSum(fp: FrameParms, start: nat, count: nat)
    requires Valid(fp)
    ensures SlotDuration(fp, start, count) == SumSamples(fp, start, count)
  {
    if count > 0 {
      SlotDurationIsSum(fp, start, count - 1);
      SlotTimestampStep(fp, start + count - 1);
    }
  }

  /** Whole subframes have the same length wherever they start. */
  lemma SlotTimestampSubframes(fp: FrameParms, slot: nat, k: nat)
    requires Valid(fp)
    ensures SlotTimestamp(fp, slot + k * fp.slotsPerSubframe) == SlotTimestamp(fp, slot) + k * fp.samplesPerSubframe
  {
    if fp.numerology == 0 {
      UniformLater(fp, slot, k);
    } else {
      var half := fp.slotsPerSubframe / 2;
      DivMod(slot, half);
      HalfSubframesLater(fp, slot / half, slot % half, k);
    }
  }

  lemma HalfSubframesLater(fp: FrameParms, q: nat, r: nat, k: nat)
    requires Valid(fp) && fp.numerology > 0 && r < fp.slotsPerSubframe / 2
    ensures var slot := q * (fp.slotsPerSubframe / 2) + r;
            SlotTimestamp(fp, slot + k * fp.slotsPerSubframe) == SlotTimestamp(fp, slot) + k * fp.samplesPerSubframe
  {
    var half, h := fp.slotsPerSubframe / 2, fp.samplesPerSubframe / 2;
    SlotTimestampAt(fp, q, r);
    SlotTimestampAt(fp, q + 2 * k, r);
    Distribute(q, 2 * k, half);
    Distribute(q, 2 * k, h);
    Associate(k, 2, half);
    Associate(k, 2, h);
  }

  lemma SlotTimestampFrames(fp: FrameParms, slot: nat, k: nat)
    requires Valid(fp)
    ensures SlotTimestamp(fp, slot + k * SlotsPerFrame(fp)) == SlotTimestamp(fp, slot) + k * SamplesPerFrame(fp)
  {
    hide SlotTimestamp;
    SlotTimestampSubframes(fp, slot, k * 10);
    Associate(k, 10, fp.slotsPerSubframe);
    Associate(k, 10, fp.samplesPerSubframe);
  }

  lemma FrameTimestamp(fp: FrameParms, slot: nat)
    requires Valid(fp)
    ensures SlotTimestamp(fp, slot + SlotsPerFrame(fp)) == SlotTimestamp(fp, slot) + SamplesPerFrame(fp)
    ensures SlotTimestamp(fp, SlotsPerFrame(fp)) == SamplesPerFrame(fp)
  {
    SlotTimestampSubframes(fp, slot, 10);
    SlotTimestampSubframes(fp, 0, 10);
  }

  lemma SamplesPerSlotPeriodic(fp: FrameParms, slot: int, k: int)
    requires Valid(fp)
    ensures SamplesPerSlot(fp, slot + k * SlotsPerFrame(fp)) == SamplesPerSlot(fp, slot)
    ensures SamplesPerSlot(fp, slot % SlotsPerFrame(fp)) == SamplesPerSlot(fp, slot)
  {
    if fp.numerology > 0 {
      var half := fp.slotsPerSubframe / 2;
      var n := SlotsPerFrame(fp);
      assert n == 20 * half;
      assert k * n == (20 * k) * half;
      AddMultiple(slot, half, 20 * k);
      AddMultiple(0, half, 20);
      ModOfMod(slot, n, half);
    }
  }

  lemma {:induction false} SlotTimestampMonotone(fp: FrameParms, a: nat, b: nat)
    requires Valid(fp) && a < b
    ensures SlotTimestamp(fp, a) + SamplesPerSlot(fp, a) <= SlotTimestamp(fp, b)
  {
    SlotTimestampStep(fp, b - 1);
    if a < b - 1 {
      SlotTimestampMonotone(fp, a, b - 1);
    }
  }

  // ---- Decoding a timestamp inverts the prefix sums ----

  ghost predicate InSlot(fp: FrameParms, t: nat, s: int)
    requires Valid(fp)
  {
    0 <= s < SlotsPerFrame(fp) && SlotTimestamp(fp, s) <= t < SlotTimestamp(fp, s) + SamplesPerSlot(fp, s)
  }

  lemma UniformOffset(fp: FrameParms, t: nat)
    requires Valid(fp) && fp.numerology == 0 && t < SamplesPerFrame(fp)
    ensures InSlot(fp, t, SlotFromTimestamp(fp, t))
  {
    var n := fp.samplesPerSubframe;
    DivModUnique(t, SamplesPerFrame(fp), 0, t);
    DivMod(t, n);
    UniformLater(fp, t / n, 1);
    if t / n >= 10 {
      MulMonotone(10, t / n, n);
    }
    if t < n {
      DivModUnique(t, n, 0, t);
    }
  }

  lemma SlotFromOffset(fp: FrameParms, t: nat)
    requires Valid(fp) && t < SamplesPerFrame(fp)
    ensures InSlot(fp, t, SlotFromTimestamp(fp, t))
  {
    DivModUnique(t, SamplesPerFrame(fp), 0, t);
    if fp.numerology == 0 {
      UniformOffset(fp, t);
    } else {
      var h := fp.samplesPerSubframe / 2;
      assert h >= fp.samplesPerSlot0 by {
        MulMonotone(0, fp.slotsPerSubframe / 2 - 1, fp.samplesPerSlotN0);
      }
      var q, r := t / h, t % h;
      DivMod(t, h);
      if q >= 20 {
        MulMonotone(20, q, h);
      }
      if r < fp.samplesPerSlot0 {
        OffsetInLongSlot(fp, t, q, r);
      } else {
        OffsetInShortSlot(fp, t, q, r);
      }
    }
  }

  lemma OffsetInLongSlot(fp: FrameParms, t: nat, q: nat, r: nat)
    requires Valid(fp) && fp.numerology > 0 && q < 20 && r < fp.samplesPerSlot0 <= fp.samplesPerSubframe / 2
    requires t == q * (fp.samplesPerSubframe / 2) + r && t < SamplesPerFrame(fp)
    ensures InSlot(fp, t, SlotFromTimestamp(fp, t))
  {
    var half, h := fp.slotsPerSubframe / 2, fp.samplesPerSubframe / 2;
    DivModUnique(t, SamplesPerFrame(fp), 0, t);
    DivModUnique(t, h, q, r);
    MulMonotone(q, 19, half);
    SlotTimestampAt(fp, q, 0);
    DivModUnique(q * half, half, q, 0);
    if q >= 1 {
      MulMonotone(1, q, h);
    }
    assert SlotFromTimestamp(fp, t) == q * half;
  }

  lemma OffsetInShortSlot(fp: FrameParms, t: nat, q: nat, r: nat)
    requires Valid(fp) && fp.numerology > 0 && q < 20 && fp.samplesPerSlot0 <= r < fp.samplesPerSubframe / 2
    requires t == q * (fp.samplesPerSubframe / 2) + r && t < SamplesPerFrame(fp)
    ensures InSlot(fp, t, SlotFromTimestamp(fp, t))
  {
    var half, h := fp.slotsPerSubframe / 2, fp.samplesPerSubframe / 2;
    var n0, n := fp.samplesPerSlot0, fp.samplesPerSlotN0;
    DivModUnique(t, SamplesPerFrame(fp), 0, t);
    DivModUnique(t, h, q, r);
    MulMonotone(q, 19, half);
    MulMonotone(0, q, h);
    var e, f := (r - n0) / n, (r - n0) % n;
    DivMod(r - n0, n);
    if e >= half - 1 {
      MulMonotone(half - 1, e, n);
    }
    Distribute(e, 1, n);
    DivModUnique(r - n0 + n, n, e + 1, f);
    ShortSlot(fp, t, q, e, f);
    assert SlotFromTimestamp(fp, t) == q * half + 1 + e;
  }

  lemma ShortSlot(fp: FrameParms, t: nat, q: nat, e: nat, f: nat)
    requires Valid(fp) && fp.numerology > 0 && q < 20 && f < fp.samplesPerSlotN0 && e + 1 < fp.slotsPerSubframe / 2
    requires t == q * (fp.samplesPerSubframe / 2) + fp.samplesPerSlot0 + e * fp.samplesPerSlotN0 + f
    ensures InSlot(fp, t, q * (fp.slotsPerSubframe / 2) + 1 + e)
  {
    var half := fp.slotsPerSubframe / 2;
    SlotTimestampAt(fp, q, 1 + e);
    DivModUnique(q * half + (1 + e), half, q, 1 + e);
    MulMonotone(q, 19, half);
  }

  /** Decoding a position inside slot `slot` of (unwrapped) frame `frame` gives back frame and slot. */
  lemma DecodeTimestamp(fp: FrameParms, frame: nat, slot: nat, offset: nat, timestamp: nat)
    requires Valid(fp) && slot < SlotsPerFrame(fp) && offset < SamplesPerSlot(fp, slot)
    requires timestamp == frame * SamplesPerFrame(fp) + SlotTimestamp(fp, slot) + offset
    ensures SlotFromTimestamp(fp, timestamp) == slot
    ensures timestamp / SamplesPerFrame(fp) == frame
    ensures timestamp % SamplesPerFrame(fp) == SlotTimestamp(fp, slot) + offset
    ensures FrameFromTimestamp(fp, timestamp) == frame % MAX_FRAME_NUMBER
  {
    var t := SlotTimestamp(fp, slot) + offset;
    SlotTimestampMonotone(fp, slot, SlotsPerFrame(fp));
    FrameTimestamp(fp, 0);
    DivModUnique(timestamp, SamplesPerFrame(fp), frame, t);
    SlotFromOffset(fp, t);
    var s: nat := SlotFromTimestamp(fp, t);
    DivModUnique(t, SamplesPerFrame(fp), 0, t);
    if s < slot {
      SlotTimestampMonotone(fp, s, slot);
    } else if slot < s {
      SlotTimestampMonotone(fp, slot, s);
    }
  }

  // ---- Slots are made of symbols ----

  /** The first symbol of every half subframe has the long prefix (section 5.3.1 of 3GPP TS 38.211). */
  ghost predicate LongPrefix(fp: FrameParms, slot: nat, symbol: nat)
    requires fp.symbolsPerSlot >= 2 && fp.symbolsPerSlot % 2 == 0 && fp.slotsPerSubframe > 0
  {
    MulMonotone(1, fp.slotsPerSubframe, fp.symbolsPerSlot / 2);
    (slot * fp.symbolsPerSlot + symbol) % (fp.slotsPerSubframe * (fp.symbolsPerSlot / 2)) == 0
  }

  ghost function SymbolSamples(fp: FrameParms, slot: nat, symbol: nat): nat
    requires fp.symbolsPerSlot >= 2 && fp.symbolsPerSlot % 2 == 0 && fp.slotsPerSubframe > 0
  {
    fp.ofdmSymbolSize + if LongPrefix(fp, slot, symbol) then fp.nbPrefixSamples0 else fp.nbPrefixSamples
  }

  /** Samples of the first `count` symbols of a slot, added one by one. */
  ghost function SumSymbols(fp: FrameParms, slot: nat, count: nat): nat
    requires fp.symbolsPerSlot >= 2 && fp.symbolsPerSlot % 2 == 0 && fp.slotsPerSubframe > 0
  {
    if count == 0 then 0 else SumSymbols(fp, slot, count - 1) + SymbolSamples(fp, slot, count - 1)
  }

  /** Which symbols of a slot are long, by numerology. */
  lemma LongPrefixIff(fp: FrameParms, slot: nat, symbol: nat)
    requires fp.symbolsPerSlot >= 2 && fp.symbolsPerSlot % 2 == 0 && symbol < fp.symbolsPerSlot
    requires fp.slotsPerSubframe == SlotsPerSubframe(fp.numerology)
    ensures LongPrefix(fp, slot, symbol) <==>
              if fp.numerology == 0 then symbol == 0 || symbol == fp.symbolsPerSlot / 2
              else symbol == 0 && slot % (fp.slotsPerSubframe / 2) == 0
  {
    var h, m := fp.symbolsPerSlot / 2, fp.slotsPerSubframe;
    if fp.numerology == 0 {
      assert slot * (2 * h) == (2 * slot) * h by { Associate(slot, 2, h); }
      AddMultiple(symbol, h, 2 * slot);
      if symbol < h {
        DivModUnique(symbol, h, 0, symbol);
      } else {
        DivModUnique(symbol, h, 1, symbol - h);
      }
    } else {
      LongInHalf(slot, symbol, fp.symbolsPerSlot, m / 2);
      Associate(2, m / 2, h);
      Associate(m / 2, 2, h);
    }
  }

  lemma LongInHalf(slot: nat, symbol: nat, symbols: nat, half: nat)
    requires half > 0 && symbol < symbols
    ensures half * symbols > 0
    ensures (slot * symbols + symbol) % (half * symbols) == 0 <==> symbol == 0 && slot % half == 0
  {
    var q, r := slot / half, slot % half;
    DivMod(slot, half);
    MulMonotone(1, half, symbols);
    assert slot * symbols == q * (half * symbols) + r * symbols by {
      Distribute(q * half, r, symbols);
      Associate(q, half, symbols);
    }
    MulMonotone(0, r, symbols);
    MulMonotone(r, half - 1, symbols);
    Distribute(half, 1, symbols);
    DivModUnique(slot * symbols + symbol, half * symbols, q, r * symbols + symbol);
    if r > 0 {
      MulMonotone(1, r, symbols);
    }
  }

  /** Every symbol counts with the short prefix, and the long ones with the difference. */
  ghost function LongSymbols(fp: FrameParms, slot: nat, count: nat): nat
    requires Valid(fp)
  {
    if fp.numerology == 0 then (if count > 0 then 1 else 0) + (if count > fp.symbolsPerSlot / 2 then 1 else 0)
    else if count > 0 && slot % (fp.slotsPerSubframe / 2) == 0 then 1 else 0
  }

  lemma {:induction false} SumSymbolsClosed(fp: FrameParms, slot: nat, count: nat)
    requires Valid(fp) && fp.symbolsPerSlot >= 2 && fp.symbolsPerSlot % 2 == 0 && count <= fp.symbolsPerSlot
    requires fp.slotsPerSubframe == SlotsPerSubframe(fp.numerology)
    ensures SumSymbols(fp, slot, count)
         == count * (fp.nbPrefixSamples + fp.ofdmSymbolSize)
            + LongSymbols(fp, slot, count) * (fp.nbPrefixSamples0 - fp.nbPrefixSamples)
  {
    hide LongPrefix, SlotsPerSubframe;
    if count > 0 {
      SumSymbolsClosed(fp, slot, count - 1);
      LongPrefixIff(fp, slot, count - 1);
      Distribute(count - 1, 1, fp.nbPrefixSamples + fp.ofdmSymbolSize);
      Distribute(LongSymbols(fp, slot, count - 1), 1, fp.nbPrefixSamples0 - fp.nbPrefixSamples);
    }
  }

  /** The slot lengths of initialized parameters are the sums of their symbols. */
  lemma SlotIsItsSymbols(numerology: nat, symbols: nat, ofdm: nat, prefix: nat, prefix0: nat, slot: nat)
    requires symbols >= 2 && symbols % 2 == 0 && ofdm > 0
    ensures var fp := InitFrameParms(numerology, symbols, ofdm, prefix, prefix0);
            Valid(fp) && SamplesPerSlot(fp, slot) == SumSymbols(fp, slot, symbols)
  {
    hide SumSymbols, Valid;
    var fp := InitFrameParms(numerology, symbols, ofdm, prefix, prefix0);
    InitFrameParmsValid(numerology, symbols, ofdm, prefix, prefix0);
    SumSymbolsClosed(fp, slot, symbols);
    Distribute(symbols, 1, prefix);
    Distribute(symbols, 2, prefix + ofdm);
    Distribute(prefix, ofdm, symbols);
  }
}
