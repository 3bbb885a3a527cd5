/** The single-threaded path of the conversion loop of ReSampler.cpp, block by block, over the real converters. */
module ChannelLoop {
  import Signals
  import opened Stage
  import opened Converters
  import opened Channels

  /** What a converter writes to, apart from its output. */
  ghost function EngineOf(c: Converter): set<object> {
    c.State() + c.Arrays() + {c}
  }

  /** What only one channel writes to: its converter and its buffers. */
  ghost function OwnOf(c: Converter, input: array<real>, output: array<real>): set<object> {
    EngineOf(c) + {input, output}
  }

  /** No channel's converter or buffers are another channel's, and none are the shared blocks. */
  ghost predicate AllApart(converters: seq<Converter>, shared: set<object>, inputs: seq<array<real>>,
    outputs: seq<array<real>>)
    requires |converters| == |inputs| == |outputs|
  {
    && (forall ch :: 0 <= ch < |converters| ==>
          && inputs[ch] != outputs[ch]
          && {inputs[ch] as object, outputs[ch]} !! EngineOf(converters[ch])
          && OwnOf(converters[ch], inputs[ch], outputs[ch]) !! shared && converters[ch].Kernels() !! shared)
    && forall c, d :: 0 <= c < |converters| && 0 <= d < |converters| ==>
          && (c != d ==> OwnOf(converters[c], inputs[c], outputs[c]) !! OwnOf(converters[d], inputs[d], outputs[d]))
          && OwnOf(converters[c], inputs[c], outputs[c]) !! converters[d].Kernels()
  }

  /** A converter that has not been fed anything yet. */
  ghost predicate Unfed(c: Converter, stages: seq<StageSpec>)
    reads EngineOf(c), c.Kernels()
  {
    c.Valid() && c.specs == stages && c.fed == []
  }

  lemma UnfedSpecs(c: Converter, stages: seq<StageSpec>)
    requires Unfed(c, stages)
    ensures AllWellFormed(stages)
  {
  }

  class ConversionLoop<D> {
    const nChannels: nat
    const converters: seq<Converter>
    const ditherers: array<D>
    const inputBlock: array<real>
    const outputBlock: array<real>
    const inputChannelBuffers: seq<array<real>>
    const outputChannelBuffers: seq<array<real>>
    const finish: (D, real) -> (D, real)
    ghost const stages: seq<StageSpec>

    constructor (converters: seq<Converter>, ditherers: array<D>, inputBlock: array<real>, outputBlock: array<real>,
                 inputChannelBuffers: seq<array<real>>, outputChannelBuffers: seq<array<real>>,
                 finish: (D, real) -> (D, real))
      requires 1 <= |converters| == ditherers.Length == |inputChannelBuffers| == |outputChannelBuffers|
      requires inputBlock != outputBlock && (outputBlock as object) != ditherers && (inputBlock as object) != ditherers
      requires AllApart(converters, {inputBlock, outputBlock, ditherers as object},
        inputChannelBuffers, outputChannelBuffers)
      requires forall ch :: 0 <= ch < |converters| ==> Unfed(converters[ch], converters[0].specs)
      ensures Shape() && Valid()
      ensures this.converters == converters && this.ditherers == ditherers && this.finish == finish
      ensures this.inputBlock == inputBlock && this.outputBlock == outputBlock && nChannels == |converters|
      ensures this.inputChannelBuffers == inputChannelBuffers && this.outputChannelBuffers == outputChannelBuffers
      ensures stages == converters[0].specs
    {
      nChannels := |converters|;
      this.converters, this.ditherers, this.finish := converters, ditherers, finish;
      this.inputBlock, this.outputBlock := inputBlock, outputBlock;
      this.inputChannelBuffers, this.outputChannelBuffers := inputChannelBuffers, outputChannelBuffers;
      stages := converters[0].specs;
      new;
      hide EngineOf, OwnOf, AllApart, Converter.Valid;
      assert Unfed(converters[0], stages);
      UnfedSpecs(converters[0], stages);
      forall ch | 0 <= ch < nChannels ensures OwnedBy(ch) && Fed(ch, []) {
        Owned(ch);
        assert Unfed(converters[ch], stages);
      }
    }

    ghost predicate Shape() {
      && nChannels == |converters| == ditherers.Length == |inputChannelBuffers| == |outputChannelBuffers| >= 1
      && AllWellFormed(stages)
    }

    /** What the converter of channel `ch` writes to, apart from its output. */
    ghost function Engine(ch: nat): set<object>
      requires Shape() && ch < nChannels
    {
      EngineOf(converters[ch])
    }

    /** What only channel `ch` writes to. */
    ghost function Own(ch: nat): set<object>
      requires Shape() && ch < nChannels
    {
      OwnOf(converters[ch], inputChannelBuffers[ch], outputChannelBuffers[ch])
    }

    ghost function Shared(): set<object> {
      {inputBlock, outputBlock, ditherers as object}
    }

    ghost predicate Separate()
      requires Shape()
    {
      && inputBlock != outputBlock && (outputBlock as object) != ditherers && (inputBlock as object) != ditherers
      && AllApart(converters, Shared(), inputChannelBuffers, outputChannelBuffers)
    }

    ghost function All(): set<object>
      requires Shape()
    {
      set ch, o | 0 <= ch < nChannels && o in Own(ch) :: o
    }

    ghost function AllKernels(): set<object>
      requires Shape()
    {
      set ch, o | 0 <= ch < nChannels && o in converters[ch].Kernels() :: o
    }

    /** Channel `ch` has a converter that has been fed `u`. */
    ghost predicate Fed(ch: nat, u: seq<real>)
      requires Shape() && ch < nChannels
      reads Engine(ch), converters[ch].Kernels()
    {
      converters[ch].Valid() && converters[ch].specs == stages && converters[ch].fed == u
    }

    ghost function TheSetup(): (s: Setup<D>)
      requires Shape()
      ensures s.WellFormed()
    {
      Setup(nChannels, stages, finish)
    }

    ghost predicate Valid()
      reads ditherers, All(), AllKernels()
      requires Shape()
    {
      Separate() && forall ch :: 0 <= ch < nChannels ==> OwnedBy(ch) && Fed(ch, converters[ch].fed)
    }

    ghost predicate OwnedBy(ch: nat)
      requires Shape() && ch < nChannels
    {
      Own(ch) <= All() && converters[ch].Kernels() <= AllKernels()
    }

    lemma Owned(ch: nat)
      requires Shape() && ch < nChannels
      ensures OwnedBy(ch)
    {
    }

    /** The new samples of channel `ch` after gain and dither go to its lane of the output block. */
    method Interleave(ch: nat, o: nat, ghost c: Channel<D>, ghost xs: seq<real>)
      returns (localPeak: real, localOutputBlockIndex: nat)
      requires Shape() && Separate() && ch < nChannels && ditherers[ch] == c.ditherer
      requires o <= outputChannelBuffers[ch].Length && outputChannelBuffers[ch][..o] == xs
      requires Position(nChannels, o, 0) <= outputBlock.Length
      modifies outputBlock, ditherers
      ensures localOutputBlockIndex == Position(nChannels, o, 0)
      ensures localPeak == Peak(Finished(finish, c.ditherer, xs).1)
      ensures ditherers[ch] == Finished(finish, c.ditherer, xs).0
      ensures forall d :: 0 <= d < nChannels && d != ch ==> ditherers[d] == old(ditherers[d])
      ensures LaneWritten(ch, Finished(finish, c.ditherer, xs).1, o, old(outputBlock[..]))
    {
      hide Finished, Peak, Position, Max, Signals.Abs, Frame, Lane;
      localPeak, localOutputBlockIndex := 0.0, 0;
      NothingFinished(TheSetup(), c.ditherer, xs);
      for f := 0 to o
        invariant localOutputBlockIndex == Position(nChannels, f, 0)
        invariant localPeak == Peak(Finished(finish, c.ditherer, xs[..f]).1)
        invariant ditherers[ch] == Finished(finish, c.ditherer, xs[..f]).0
        invariant forall d :: 0 <= d < nChannels && d != ch ==> ditherers[d] == old(ditherers[d])
        invariant LaneWritten(ch, Finished(finish, c.ditherer, xs).1, f, old(outputBlock[..]))
      {
        SampleFinished(TheSetup(), c.ditherer, xs, f);
        PositionInside(nChannels, f, ch, o);
        NextFrame(nChannels, f);
        assert xs[f] == outputChannelBuffers[ch][f];
        var (d, outputSample) := finish(ditherers[ch], outputChannelBuffers[ch][f]);
        ditherers[ch] := d;
        localPeak := Max(localPeak, Signals.Abs(outputSample));
        outputBlock[localOutputBlockIndex + ch] := outputSample;
        LaneGrows(nChannels, f, ch);
        localOutputBlockIndex := localOutputBlockIndex + nChannels;
      }
      assert xs[..o] == xs;
    }

    /** The buffers of channel `ch` have room for what its converter makes of `w`. */
    ghost predicate Room(ch: nat, w: seq<real>, u: seq<real>)
      requires Shape() && ch < nChannels
    {
      && converters[ch].Shape() && converters[ch].specs == stages
      && forall i :: 0 <= i < converters[ch].numStages ==>
           |ChainNext(stages[..i + 1], u, w)| <= converters[ch].Target(i, outputChannelBuffers[ch]).Length
    }

    /** Every channel's buffers have room for the block. */
    ghost predicate Roomy(m: Memory<D>, block: seq<real>)
      requires Shape() && |m.channels| == nChannels
    {
      forall ch :: 0 <= ch < nChannels ==>
        && |block| / nChannels <= inputChannelBuffers[ch].Length
        && Room(ch, Deinterleaved(nChannels, block, ch), m.channels[ch].fed)
    }

    /** processingFunc of one channel. */
    method Process(ch: nat, i: nat, ghost c: Channel<D>, ghost w: seq<real>)
      returns (localOutputBlockIndex: nat, localPeak: real)
      requires Shape() && Separate() && ch < nChannels && Fed(ch, c.fed) && ditherers[ch] == c.ditherer
      requires i <= inputChannelBuffers[ch].Length && inputChannelBuffers[ch][..i] == w && Room(ch, w, c.fed)
      requires Position(nChannels, |Output(TheSetup(), c, w)|, 0) <= outputBlock.Length
      modifies Own(ch), outputBlock, ditherers
      ensures Fed(ch, c.fed + w)
      ensures ditherers[ch] == NextChannel(TheSetup(), c, w).ditherer
      ensures forall d :: 0 <= d < nChannels && d != ch ==> ditherers[d] == old(ditherers[d])
      ensures localOutputBlockIndex == Position(nChannels, |Output(TheSetup(), c, w)|, 0)
      ensures localPeak == Peak(Output(TheSetup(), c, w))
      ensures LaneWritten(ch, Output(TheSetup(), c, w), |Output(TheSetup(), c, w)|, old(outputBlock[..]))
      // the other channels are left alone
      ensures forall d: nat, u :: d < nChannels && d != ch && old(Fed(d, u)) ==> Fed(d, u)
      ensures forall d: nat, x, n :: d < nChannels && d != ch && old(Holds(inputChannelBuffers[d], x, n)) ==>
        Holds(inputChannelBuffers[d], x, n)
    {
      hide Finished, Peak, Position, ChainOut, ChainNext, LaneWritten, Holds;
      ApartFrom(ch);
      OwnAllocated();
      var o := converters[ch].Convert(outputChannelBuffers[ch], inputChannelBuffers[ch], i);
      localPeak, localOutputBlockIndex := Interleave(ch, o, c, Converted(TheSetup(), c, w));
    }

    lemma ConverterOwned(ch: nat)
      requires Shape() && ch < nChannels
      ensures converters[ch] in All()
    {
      assert converters[ch] in Own(ch);
    }

    ghost function ChannelsNow(n: nat): (r: seq<Channel<D>>)
      requires Shape() && n <= nChannels
      reads All(), ditherers
      ensures |r| == n && forall ch :: 0 <= ch < n ==> r[ch] == Channel(converters[ch].fed, ditherers[ch])
    {
      if n == 0 then []
      else
        ConverterOwned(n - 1);
        ChannelsNow(n - 1) + [Channel(converters[n - 1].fed, ditherers[n - 1])]
    }

    /** The loop's variables, as the specification has them. */
    ghost function Now(outputBlockIndex: nat, peakOutputSample: real): (m: Memory<D>)
      requires Shape()
      reads All(), ditherers, outputBlock
      ensures |m.channels| == nChannels
    {
      Memory(ChannelsNow(nChannels), outputBlock[..], outputBlockIndex, peakOutputSample)
    }

    lemma BlockGrows(outs: seq<seq<real>>, ch: nat, before: seq<real>)
      requires Shape() && |outs| == nChannels && ch < nChannels
      requires LaneWritten(ch, outs[ch], |outs[ch]|, Partly(outs, ch, before))
      ensures outputBlock[..] == Partly(outs, ch + 1, before)
    {
    }

    /**
     * The first `ch` channels of the block are done, and the others are as they were in `m`, with their input
     * in place.
     */
    ghost predicate Reached(m: Memory<D>, block: seq<real>, ch: nat, i: nat)
      requires Shape() && |m.channels| == nChannels
      reads All(), AllKernels(), outputBlock, ditherers
    {
      && (forall c :: 0 <= c < nChannels ==>
        OwnedBy(c) && Fed(c, FedBy(m, block, ch, c)) && ditherers[c] == DithererBy(m, block, ch, c))
      && (forall c :: ch <= c < nChannels ==>
        OwnedBy(c) && Holds(inputChannelBuffers[c], Deinterleaved(nChannels, block, c), i))
      && outputBlock[..] == Partly(Outputs(TheSetup(), m, block), ch, m.outputBlock)
    }

    ghost function FedBy(m: Memory<D>, block: seq<real>, ch: nat, c: nat): seq<real>
      requires Shape() && |m.channels| == nChannels && c < nChannels
    {
      if c < ch then m.channels[c].fed + Deinterleaved(nChannels, block, c) else m.channels[c].fed
    }

    ghost function DithererBy(m: Memory<D>, block: seq<real>, ch: nat, c: nat): D
      requires Shape() && |m.channels| == nChannels && c < nChannels
    {
      if c < ch then NextChannel(TheSetup(), m.channels[c], Deinterleaved(nChannels, block, c)).ditherer
      else m.channels[c].ditherer
    }

    lemma OwnAllocated()
      requires Shape()
      ensures forall c, o :: 0 <= c < nChannels && o in Engine(c) ==> allocated(o)
      ensures forall c, o :: 0 <= c < nChannels && o in converters[c].Kernels() ==> allocated(o)
    {
    }

    /** The body of the loop over the channels. */
    method OneChannel(ch: nat, i: nat, ghost m: Memory<D>, ghost block: seq<real>)
      returns (localOutputBlockIndex: nat, localPeak: real)
      requires Shape() && Separate() && ch < nChannels && |m.channels| == nChannels
      requires |m.outputBlock| == outputBlock.Length && Channels.Fits(TheSetup(), m, block)
      requires i == |block| / nChannels && i <= inputChannelBuffers[ch].Length
      requires Room(ch, Deinterleaved(nChannels, block, ch), m.channels[ch].fed)
      requires Reached(m, block, ch, i)
      modifies Own(ch), outputBlock, ditherers
      ensures Reached(m, block, ch + 1, i)
      ensures localOutputBlockIndex == Position(nChannels, |Outputs(TheSetup(), m, block)[ch]|, 0)
      ensures localPeak == Peak(Outputs(TheSetup(), m, block)[ch])
    {
      hide Output, Outputs, Deinterleaved, LaneWritten, Partly, Position, Peak, Max, Room, Fed, Separate, FedBy,
        DithererBy, NextChannel, Holds, Channels.Fits, Own, Engine, Converter.Kernels;
      ghost var w, outs := Deinterleaved(nChannels, block, ch), Outputs(TheSetup(), m, block);
      OutputsAt(m, block, ch);
      ApartFrom(ch);
      PartlyDone(m, block, ch, ch + 1);
      HoldsAll(inputChannelBuffers[ch], w, i);
      localOutputBlockIndex, localPeak := Process(ch, i, m.channels[ch], w);
      BlockGrows(outs, ch, m.outputBlock);
    }

    lemma HoldsAll(buffer: array<real>, lane: seq<real>, i: nat)
      requires Holds(buffer, lane, i) && |lane| == i
      ensures buffer[..i] == lane
    {
    }

    lemma OutputsAt(m: Memory<D>, block: seq<real>, ch: nat)
      requires Shape() && |m.channels| == nChannels && ch < nChannels && Channels.Fits(TheSetup(), m, block)
      ensures Outputs(TheSetup(), m, block)[ch] ==
        Output(TheSetup(), m.channels[ch], Deinterleaved(nChannels, block, ch))
      ensures Position(nChannels, |Outputs(TheSetup(), m, block)[ch]|, 0) <= |m.outputBlock|
    {
      hide Output, Deinterleaved, Position;
    }

    lemma PartlyDone(m: Memory<D>, block: seq<real>, ch: nat, next: nat)
      requires Shape() && |m.channels| == nChannels && ch < nChannels && next == ch + 1
      ensures forall c :: 0 <= c < nChannels && c != ch ==> FedBy(m, block, next, c) == FedBy(m, block, ch, c)
      ensures forall c :: 0 <= c < nChannels && c != ch ==> DithererBy(m, block, next, c) == DithererBy(m, block, ch, c)
      ensures FedBy(m, block, ch, ch) == m.channels[ch].fed && DithererBy(m, block, ch, ch) == m.channels[ch].ditherer
      ensures FedBy(m, block, next, ch) == m.channels[ch].fed + Deinterleaved(nChannels, block, ch)
      ensures DithererBy(m, block, next, ch) ==
        NextChannel(TheSetup(), m.channels[ch], Deinterleaved(nChannels, block, ch)).ditherer
    {
      hide NextChannel, Deinterleaved;
    }

    lemma ApartFrom(ch: nat)
      requires Shape() && Separate() && ch < nChannels
      ensures forall c :: 0 <= c < nChannels && c != ch ==> Engine(c) !! Own(ch) && converters[c].Kernels() !! Own(ch)
      ensures forall c :: 0 <= c < nChannels ==> {outputBlock, ditherers as object} !! Engine(c)
      ensures forall c :: 0 <= c < nChannels ==> {outputBlock, ditherers as object} !! converters[c].Kernels()
      ensures forall c :: 0 <= c < nChannels && c != ch ==> inputChannelBuffers[c] !in Own(ch)
      ensures forall c :: 0 <= c < nChannels ==> inputChannelBuffers[c] !in {outputBlock, ditherers as object}
    {
      forall c | 0 <= c < nChannels && c != ch ensures inputChannelBuffers[c] !in Own(ch) {
        assert inputChannelBuffers[c] in Own(c);
      }
      forall c | 0 <= c < nChannels ensures inputChannelBuffers[c] !in {outputBlock, ditherers as object} {
        assert inputChannelBuffers[c] in Own(c);
      }
    }

    /** One block, one channel after the other. */
    method ConvertBlock(samplesRead: nat, peak: real, ghost m: Memory<D>)
      returns (outputBlockIndex: nat, peakOutputSample: real)
      requires Shape() && Valid() && samplesRead <= inputBlock.Length && samplesRead % nChannels == 0
      requires m == Now(0, peak) && Channels.Fits(TheSetup(), m, inputBlock[..samplesRead])
      requires Roomy(m, inputBlock[..samplesRead])
      modifies All(), outputBlock, ditherers
      ensures Valid() && Now(outputBlockIndex, peakOutputSample) ==
        OneBlock(TheSetup(), m, old(inputBlock[..samplesRead]))
    {
      hide Deinterleaved, Separate, Engine, Own, Outputs, Output, Position, Max, Holds, Fed, Room, Channels.Fits,
        Reached, All, AllKernels, Valid, OneBlock, Now, ChannelsNow, PeakAfter, TheSetup, Roomy;
      ghost var block := inputBlock[..samplesRead];
      BuffersOwned();
      var i := Fill(samplesRead, peak, m);
      outputBlockIndex, peakOutputSample := RunChannels(i, peak, m, block);
      ReachedLast(m, block, outputBlockIndex, peakOutputSample, i);
    }

    /** The input buffers are filled, and no channel is done yet. */
    method Fill(samplesRead: nat, peak: real, ghost m: Memory<D>) returns (i: nat)
      requires Shape() && Valid() && samplesRead <= inputBlock.Length && samplesRead % nChannels == 0
      requires m == Now(0, peak) && Roomy(m, inputBlock[..samplesRead])
      modifies inputChannelBuffers
      ensures i == samplesRead / nChannels && Reached(m, old(inputBlock[..samplesRead]), 0, i)
      ensures Separate() && m.outputBlock == outputBlock[..] && m.peak == peak
    {
      hide Deinterleaved, Separate, Engine, Own, Outputs, Output, Holds, Fed, Reached, All, AllKernels, Valid, Now,
        ChannelsNow;
      Snapshot(m, peak);
      i := Load(samplesRead);
      ReachedFirst(m, old(inputBlock[..samplesRead]), i);
    }

    /** The loop over the channels. */
    method RunChannels(i: nat, peak: real, ghost m: Memory<D>, ghost block: seq<real>)
      returns (outputBlockIndex: nat, peakOutputSample: real)
      requires Shape() && Separate() && |m.channels| == nChannels && m.peak == peak
      requires |m.outputBlock| == outputBlock.Length && Channels.Fits(TheSetup(), m, block) && i == |block| / nChannels
      requires Roomy(m, block)
      requires Reached(m, block, 0, i)
      modifies All(), outputBlock, ditherers
      ensures Reached(m, block, nChannels, i)
      ensures peakOutputSample == PeakAfter(Outputs(TheSetup(), m, block), m.peak, nChannels)
      ensures outputBlockIndex == Position(nChannels, |Outputs(TheSetup(), m, block)[nChannels - 1]|, 0)
    {
      hide Deinterleaved, Separate, Engine, Own, Outputs, Position, Max, Room, Channels.Fits, Reached, All, AllKernels;
      outputBlockIndex, peakOutputSample := 0, peak;
      for ch := 0 to nChannels
        invariant Reached(m, block, ch, i)
        invariant peakOutputSample == PeakAfter(Outputs(TheSetup(), m, block), m.peak, ch)
        invariant ch > 0 ==> outputBlockIndex == Position(nChannels, |Outputs(TheSetup(), m, block)[ch - 1]|, 0)
      {
        Owned(ch);
        var localPeak: real;
        outputBlockIndex, localPeak := OneChannel(ch, i, m, block);
        peakOutputSample := Max(peakOutputSample, localPeak);
      }
    }

    /** De-interleaving leaves the converters and the output alone. */
    method Load(samplesRead: nat) returns (i: nat)
      requires Shape() && Separate() && samplesRead <= inputBlock.Length && samplesRead % nChannels == 0
      requires forall ch :: 0 <= ch < nChannels ==> samplesRead / nChannels <= inputChannelBuffers[ch].Length
      modifies inputChannelBuffers
      ensures i == samplesRead / nChannels
      ensures forall ch :: 0 <= ch < nChannels ==>
        Holds(inputChannelBuffers[ch], Deinterleaved(nChannels, old(inputBlock[..samplesRead]), ch), i)
      ensures forall d: nat, u :: d < nChannels && old(Fed(d, u)) ==> Fed(d, u)
      ensures outputBlock[..] == old(outputBlock[..]) && forall d :: 0 <= d < nChannels ==>
        ditherers[d] == old(ditherers[d])
    {
      hide Deinterleaved, Holds, Engine;
      BuffersApart();
      OwnAllocated();
      i := Deinterleave(nChannels, inputBlock, samplesRead, inputChannelBuffers);
    }

    lemma BuffersApart()
      requires Shape() && Separate()
      ensures forall c, d :: 0 <= c < d < nChannels ==> inputChannelBuffers[c] != inputChannelBuffers[d]
      ensures forall b :: b in inputChannelBuffers ==> b != inputBlock && b != outputBlock && b as object != ditherers
      ensures forall c, b :: 0 <= c < nChannels && b in inputChannelBuffers ==>
        b !in Engine(c) && b !in converters[c].Kernels()
    {
      forall c, d | 0 <= c < nChannels && 0 <= d < nChannels
        ensures inputChannelBuffers[d] !in Engine(c) && inputChannelBuffers[d] !in converters[c].Kernels()
        ensures c != d ==> inputChannelBuffers[c] != inputChannelBuffers[d]
        ensures inputChannelBuffers[d] !in Shared()
      {
        assert inputChannelBuffers[d] in Own(d) && inputChannelBuffers[c] in Own(c);
      }
    }

    lemma BuffersOwned()
      requires Shape()
      ensures forall b :: b in inputChannelBuffers ==> b in All()
    {
      forall ch | 0 <= ch < nChannels ensures inputChannelBuffers[ch] in All() {
        Owned(ch);
        assert inputChannelBuffers[ch] in Own(ch);
      }
    }

    lemma Snapshot(m: Memory<D>, peak: real)
      requires Shape() && Valid() && m == Now(0, peak)
      ensures forall c :: 0 <= c < nChannels ==> Fed(c, m.channels[c].fed) && ditherers[c] == m.channels[c].ditherer
      ensures Separate() && outputBlock[..] == m.outputBlock && peak == m.peak
    {
      hide Separate, Own, Engine;
    }

    lemma ReachedFirst(m: Memory<D>, block: seq<real>, i: nat)
      requires Shape() && |m.channels| == nChannels && i == |block| / nChannels && outputBlock[..] == m.outputBlock
      requires forall c :: 0 <= c < nChannels ==> Fed(c, m.channels[c].fed) && ditherers[c] == m.channels[c].ditherer
      requires forall ch :: 0 <= ch < nChannels ==>
        Holds(inputChannelBuffers[ch], Deinterleaved(nChannels, block, ch), i)
      ensures Reached(m, block, 0, i)
    {
      hide Holds, Deinterleaved, Output, Outputs, Partly, Fed, Separate, Own, Engine;
      PartlyNone(Outputs(TheSetup(), m, block), m.outputBlock);
    }

    lemma ReachedLast(m: Memory<D>, block: seq<real>, outputBlockIndex: nat, peakOutputSample: real, i: nat)
      requires Shape() && Separate() && |m.channels| == nChannels && Reached(m, block, nChannels, i)
      requires outputBlockIndex == Position(nChannels, |Outputs(TheSetup(), m, block)[nChannels - 1]|, 0)
      requires peakOutputSample == PeakAfter(Outputs(TheSetup(), m, block), m.peak, nChannels)
      ensures Valid() && Now(outputBlockIndex, peakOutputSample) == OneBlock(TheSetup(), m, block)
    {
      hide Holds, Deinterleaved, Output, Outputs, Partly, Separate, Own, Engine, Slot, Position, PeakAfter,
        Converter.Valid, Finished, Converted;
      var outs, after := Outputs(TheSetup(), m, block), OneBlock(TheSetup(), m, block);
      PartlyAll(outs, m.outputBlock);
      forall c | 0 <= c < nChannels
        ensures Fed(c, converters[c].fed) && OwnedBy(c)
        ensures after.channels[c] == Channel(converters[c].fed, ditherers[c])
      {
        assert Fed(c, FedBy(m, block, nChannels, c)) && ditherers[c] == DithererBy(m, block, nChannels, c);
      }
      assert ChannelsNow(nChannels) == after.channels;
    }

    /** The lane of channel `ch` holds `out` up to frame `f`; the rest of the output block is as it was. */
    ghost predicate LaneWritten(ch: nat, out: seq<real>, f: nat, before: seq<real>)
      requires Shape() && ch < nChannels && f <= |out|
      reads outputBlock
    {
      && outputBlock.Length == |before|
      && forall k :: 0 <= k < |before| ==>
           outputBlock[k] ==
           if Lane(nChannels, k) == ch && Frame(nChannels, k) < f then out[Frame(nChannels, k)] else before[k]
    }
  }

  /** What the first `ch` channels have written, when each has written all it has. */
  ghost function FirstLengths(outs: seq<seq<real>>, ch: nat): (r: seq<nat>)
    ensures |r| == |outs| && forall c :: 0 <= c < |outs| ==> r[c] == if c < ch then |outs[c]| else 0
  {
    seq(|outs|, c requires 0 <= c < |outs| => if c < ch then |outs[c]| else 0)
  }

  /** The output block with the samples of the first `ch` channels in place. */
  ghost function Partly(outs: seq<seq<real>>, ch: nat, before: seq<real>): (r: seq<real>)
    requires |outs| >= 1
    ensures |r| == |before|
  {
    seq(|before|, k requires 0 <= k < |before| => Slot(outs, FirstLengths(outs, ch), before, k))
  }

  lemma PartlyNone(outs: seq<seq<real>>, before: seq<real>)
    requires |outs| >= 1
    ensures Partly(outs, 0, before) == before
  {
  }

  lemma PartlyAll(outs: seq<seq<real>>, before: seq<real>)
    requires |outs| >= 1
    ensures Partly(outs, |outs|, before) ==
      seq(|before|, k requires 0 <= k < |before| => Slot(outs, Lengths(outs), before, k))
  {
    hide Slot;
    assert FirstLengths(outs, |outs|) == Lengths(outs);
  }

  /** Buffer `ch` starts with the samples `lane`. */
  ghost predicate Holds(buffer: array<real>, lane: seq<real>, count: nat)
    reads buffer
  {
    count <= |lane| <= buffer.Length && forall f :: 0 <= f < count ==> buffer[f] == lane[f]
  }

  /** Each channel's samples of the block go to its own buffer. */
  method Deinterleave(n: nat, inputBlock: array<real>, samplesRead: nat, buffers: seq<array<real>>) returns (i: nat)
    requires 1 <= n == |buffers| && samplesRead <= inputBlock.Length && samplesRead % n == 0
    requires forall ch :: 0 <= ch < n ==> buffers[ch] != inputBlock && samplesRead / n <= buffers[ch].Length
    requires forall c, d :: 0 <= c < d < n ==> buffers[c] != buffers[d]
    modifies buffers
    ensures i == samplesRead / n
    ensures forall ch :: 0 <= ch < n ==> Holds(buffers[ch], Deinterleaved(n, inputBlock[..samplesRead], ch), i)
  {
    hide Deinterleaved;
    i := 0;
    var s := 0;
    ghost var frames := samplesRead / n;
    Frames(n, samplesRead);
    while s < samplesRead
      invariant i <= frames && s == Position(n, i, 0)
      invariant forall ch :: 0 <= ch < n ==> Holds(buffers[ch], Deinterleaved(n, inputBlock[..samplesRead], ch), i)
      decreases frames - i
    {
      FrameBefore(n, i, frames);
      DeinterleaveFrame(n, inputBlock, samplesRead, buffers, s, i);
      NextFrame(n, i);
      i := i + 1;
      s := s + n;
    }
    FrameBefore(n, i, frames);
  }

  lemma Frames(n: nat, samples: nat)
    requires n >= 1 && samples % n == 0
    ensures samples == Position(n, samples / n, 0)
  {
  }

  lemma FrameBefore(n: nat, f: nat, frames: nat)
    requires n >= 1
    ensures f < frames <==> Position(n, f, 0) < Position(n, frames, 0)
  {
    if f < frames {
      PositionInside(n, f, 0, frames);
    } else {
      Signals.MulMono(frames, f, n);
    }
  }

  /** Frame `i` of the block, one sample for each channel. */
  method DeinterleaveFrame(n: nat, inputBlock: array<real>, samplesRead: nat, buffers: seq<array<real>>, s: nat, i: nat)
    requires 1 <= n == |buffers| && samplesRead <= inputBlock.Length && i < samplesRead / n && s == Position(n, i, 0)
    requires forall ch :: 0 <= ch < n ==> buffers[ch] != inputBlock
    requires forall c, d :: 0 <= c < d < n ==> buffers[c] != buffers[d]
    requires forall ch :: 0 <= ch < n ==> Holds(buffers[ch], Deinterleaved(n, inputBlock[..samplesRead], ch), i)
    modifies buffers
    ensures forall ch :: 0 <= ch < n ==> Holds(buffers[ch], Deinterleaved(n, inputBlock[..samplesRead], ch), i + 1)
  {
    hide Deinterleaved;
    for ch := 0 to n
      invariant forall c :: 0 <= c < ch ==> Holds(buffers[c], Deinterleaved(n, inputBlock[..samplesRead], c), i + 1)
      invariant forall c :: ch <= c < n ==> Holds(buffers[c], Deinterleaved(n, inputBlock[..samplesRead], c), i)
    {
      SampleOf(n, inputBlock[..samplesRead], ch, i);
      NextFrame(n, i);
      buffers[ch][i] := inputBlock[s + ch];
    }
  }

  lemma SampleOf(n: nat, block: seq<real>, ch: nat, i: nat)
    requires ch < n && i < |block| / n
    ensures Position(n, i, ch) < |block| && Deinterleaved(n, block, ch)[i] == block[Position(n, i, ch)]
  {
    PositionInside(n, i, ch, |block| / n);
  }

  /** Only one position belongs to the next frame of a lane. */
  lemma LaneGrows(n: nat, f: nat, ch: nat)
    requires ch < n
    ensures Lane(n, Position(n, f, ch)) == ch && Frame(n, Position(n, f, ch)) == f
    ensures forall k: nat :: Lane(n, k) == ch && Frame(n, k) == f ==> k == Position(n, f, ch)
  {
    hide Position, Frame, Lane;
    PositionOf(n, f, ch);
    forall k: nat | Lane(n, k) == ch && Frame(n, k) == f ensures k == Position(n, f, ch) {
      PlacedAt(n, k);
    }
  }
}
