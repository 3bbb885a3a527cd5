/** The Converter of srconvert.h: a chain of stages, each reading what the one before it wrote. */
module Converters {
  import opened Stage

  ghost predicate AllWellFormed(cs: seq<StageSpec>) {
    forall i :: 0 <= i < |cs| ==> cs[i].WellFormed()
  }

  /** All output of a chain of stages fed `u`. */
  ghost function ChainOut(cs: seq<StageSpec>, u: seq<real>): seq<real>
    requires AllWellFormed(cs)
  {
    if cs == [] then u else StageOut(cs[|cs| - 1], ChainOut(cs[..|cs| - 1], u))
  }

  lemma {:induction false} ChainOutPrefix(cs: seq<StageSpec>, u: seq<real>, w: seq<real>)
    requires AllWellFormed(cs)
    ensures ChainOut(cs, u) <= ChainOut(cs, u + w)
  {
    if cs != [] {
      var front := cs[..|cs| - 1];
      ChainOutPrefix(front, u, w);
      var a, b := ChainOut(front, u), ChainOut(front, u + w);
      assert b == a + b[|a|..];
      StageOutPrefix(cs[|cs| - 1], a, b[|a|..]);
    }
  }

  /** What a chain that has been fed `u` gives for the next samples `w`. */
  ghost function ChainNext(cs: seq<StageSpec>, u: seq<real>, w: seq<real>): (r: seq<real>)
    requires AllWellFormed(cs)
    ensures ChainOut(cs, u + w) == ChainOut(cs, u) + r
  {
    ChainOutPrefix(cs, u, w);
    ChainOut(cs, u + w)[|ChainOut(cs, u)|..]
  }

  /** One more stage turns the new samples of the chain before it into the new samples of the longer chain. */
  lemma ChainNextStep(cs: seq<StageSpec>, i: nat, u: seq<real>, w: seq<real>)
    requires AllWellFormed(cs) && i < |cs|
    ensures NextOut(cs[i], ChainOut(cs[..i], u), ChainNext(cs[..i], u, w)) == ChainNext(cs[..i + 1], u, w)
    ensures ChainOut(cs[..i + 1], u) == StageOut(cs[i], ChainOut(cs[..i], u))
  {
    var front, longer := cs[..i], cs[..i + 1];
    assert longer[..|longer| - 1] == front;
    assert ChainOut(longer, u + w) == StageOut(cs[i], ChainOut(front, u) + ChainNext(front, u, w));
  }

  /** Stages in bypass pass on what they are fed. */
  lemma {:induction false} BypassOut(cs: seq<StageSpec>, u: seq<real>)
    requires AllWellFormed(cs) && forall c :: c in cs ==> c.bypass
    ensures ChainOut(cs, u) == u
  {
    if cs != [] {
      BypassOut(cs[..|cs| - 1], u);
      assert cs[|cs| - 1] in cs;
    }
  }

  lemma BypassNext(cs: seq<StageSpec>, u: seq<real>, w: seq<real>)
    requires AllWellFormed(cs) && forall c :: c in cs ==> c.bypass
    ensures ChainNext(cs, u, w) == w
  {
    BypassOut(cs, u);
    BypassOut(cs, u + w);
  }

  class Converter {
    const convertStages: seq<ResamplingStage>
    const numStages: nat
    const indexOfLastStage: int
    const intermediateOutputBuffers: seq<array<real>>
    const isMultistage: bool
    ghost const specs: seq<StageSpec>
    ghost var fed: seq<real>

    /** The stages and their filters and buffers are all different objects. */
    ghost predicate Separate()
      requires numStages <= |convertStages|
    {
      && (forall i, j :: 0 <= i < j < numStages ==>
            && convertStages[i] != convertStages[j]
            && convertStages[i].filter != convertStages[j].filter
            && convertStages[i].filter.signal != convertStages[j].filter.signal)
      && (forall i, j :: 0 <= i < j < |intermediateOutputBuffers| ==>
            intermediateOutputBuffers[i] != intermediateOutputBuffers[j])
      && (forall i, j :: 0 <= i < |intermediateOutputBuffers| && 0 <= j < numStages ==>
            intermediateOutputBuffers[i] != convertStages[j].filter.signal)
    }

    ghost predicate Shape() {
      && numStages == |convertStages| == |specs| >= 1
      && indexOfLastStage == numStages - 1 == |intermediateOutputBuffers|
      && (!isMultistage ==> numStages == 1)
      && AllWellFormed(specs) && Separate()
    }

    ghost function State(): set<object> {
      (set s: ResamplingStage | s in convertStages :: s as object) +
        (set s: ResamplingStage | s in convertStages :: s.filter as object)
    }

    ghost function Arrays(): set<object> {
      (set s: ResamplingStage | s in convertStages :: s.filter.signal as object) +
        (set b: array<real> | b in intermediateOutputBuffers :: b as object)
    }

    ghost function Kernels(): set<object> {
      set s: ResamplingStage | s in convertStages :: s.filter.kernelphases as object
    }

    /** Stage `i` is valid, and has been fed what the stages before it make of `u`. */
    ghost predicate StageFed(i: nat, u: seq<real>)
      requires Shape() && i < numStages
      reads convertStages[i], convertStages[i].filter, convertStages[i].filter.signal,
        convertStages[i].filter.kernelphases
    {
      && convertStages[i].Valid() && convertStages[i].Spec() == specs[i]
      && convertStages[i].fed == ChainOut(specs[..i], u)
    }

    ghost predicate Valid()
      reads this, State(), Arrays(), Kernels()
    {
      Shape() && forall i :: 0 <= i < numStages ==> (Owned(i); StageFed(i, fed))
    }

    constructor (stages: seq<ResamplingStage>, buffers: seq<array<real>>, isMultistage: bool)
      requires |stages| >= 1 && |buffers| == |stages| - 1 && (!isMultistage ==> |stages| == 1)
      requires forall s :: s in stages ==> s.Valid() && s.fed == []
      requires forall i, j :: 0 <= i < j < |stages| ==>
        stages[i] != stages[j] && stages[i].filter != stages[j].filter &&
          stages[i].filter.signal != stages[j].filter.signal
      requires forall i, j :: 0 <= i < j < |buffers| ==> buffers[i] != buffers[j]
      requires forall i, j :: 0 <= i < |buffers| && 0 <= j < |stages| ==> buffers[i] != stages[j].filter.signal
      ensures Valid() && fed == [] && convertStages == stages && intermediateOutputBuffers == buffers
      ensures specs == seq(|stages|, i requires 0 <= i < |stages| => stages[i].Spec())
    {
      hide ChainOut;
      convertStages := stages;
      numStages := |stages|;
      indexOfLastStage := |stages| - 1;
      intermediateOutputBuffers := buffers;
      this.isMultistage := isMultistage;
      specs := seq(|stages|, i requires 0 <= i < |stages| => stages[i].Spec());
      fed := [];
      new;
      assert forall i :: 0 <= i < numStages ==> stages[i] in stages;
      forall i | 0 <= i < numStages ensures StageFed(i, []) {
        ChainOfNothing(specs[..i]);
      }
    }

    /** The buffer stage `i` writes to. */
    function Target(i: nat, outBuffer: array<real>): array<real>
      requires i <= |intermediateOutputBuffers|
    {
      if i == indexOfLastStage || i == |intermediateOutputBuffers| then outBuffer else intermediateOutputBuffers[i]
    }

    ghost predicate Ready(outBuffer: array<real>, inBuffer: array<real>, inBufferSize: nat)
      reads this, State(), Arrays(), Kernels(), inBuffer
    {
      && Valid() && inBufferSize <= inBuffer.Length
      && inBuffer != outBuffer && {inBuffer as object, outBuffer} !! Arrays()
      && forall i :: 0 <= i < numStages ==>
           |ChainNext(specs[..i + 1], fed, inBuffer[..inBufferSize])| <= Target(i, outBuffer).Length
    }

    method Convert(outBuffer: array<real>, inBuffer: array<real>, inBufferSize: nat) returns (outBufferSize: nat)
      requires Ready(outBuffer, inBuffer, inBufferSize)
      modifies this, State(), Arrays(), outBuffer
      ensures Valid() && fed == old(fed) + old(inBuffer[..inBufferSize])
      ensures outBufferSize <= outBuffer.Length
      ensures outBuffer[..outBufferSize] == ChainNext(specs, old(fed), old(inBuffer[..inBufferSize]))
      ensures forall k :: outBufferSize <= k < outBuffer.Length ==> outBuffer[k] == old(outBuffer[k])
      ensures (forall c :: c in specs ==> c.bypass) ==>
        outBufferSize == inBufferSize && outBuffer[..inBufferSize] == old(inBuffer[..inBufferSize])
    {
      hide ResamplingStage.Valid, StageOut, NextOut, ChainOut;
      ghost var u, w := fed, inBuffer[..inBufferSize];
      assert specs[..numStages] == specs;
      if isMultistage {
        outBufferSize := ConvertStages(outBuffer, inBuffer, inBufferSize);
      } else {
        ChainNextNone(u, w);
        assert specs[..0] == [];
        Owned(0);
        assert outBuffer == Target(0, outBuffer);
        outBufferSize := ConvertStage(0, outBuffer, inBuffer, inBufferSize, u, w);
      }
      fed := fed + w;
      if forall c :: c in specs ==> c.bypass { BypassNext(specs, u, w); }
    }

    ghost predicate StageAt(k: nat, i: nat, u: seq<real>, w: seq<real>)
      requires Shape() && k < numStages
      reads convertStages[k], convertStages[k].filter, convertStages[k].filter.signal,
        convertStages[k].filter.kernelphases
    {
      StageFed(k, if k < i then u + w else u)
    }

    /**
     * Before round `i` of the loop: the stages before it have taken the new input, and `input` holds what
     * comes out of them.
     */
    ghost predicate Reached(i: nat, u: seq<real>, w: seq<real>, input: array<real>, inSize: nat)
      requires Shape()
      reads State(), Arrays(), Kernels(), input
    {
      && (forall k :: 0 <= k < numStages ==> (Owned(k); StageAt(k, i, u, w)))
      && i <= numStages && inSize <= input.Length && input[..inSize] == ChainNext(specs[..i], u, w)
    }

    /** The multistage path: the first stage reads inBuffer, the last writes outBuffer. */
    method ConvertStages(outBuffer: array<real>, inBuffer: array<real>, inBufferSize: nat) returns (outSize: nat)
      requires Ready(outBuffer, inBuffer, inBufferSize)
      modifies State(), Arrays(), outBuffer
      ensures forall k :: 0 <= k < numStages ==> StageFed(k, old(fed) + old(inBuffer[..inBufferSize]))
      ensures outSize <= outBuffer.Length
      ensures outBuffer[..outSize] == ChainNext(specs[..numStages], old(fed), old(inBuffer[..inBufferSize]))
      ensures forall k :: outSize <= k < outBuffer.Length ==> outBuffer[k] == old(outBuffer[k])
    {
      hide ResamplingStage.Valid, StageOut, NextOut, ChainOut;
      ghost var u, w := fed, inBuffer[..inBufferSize];
      ghost var before := outBuffer[..];
      assert forall k :: 0 <= k < numStages ==> |ChainNext(specs[..k + 1], u, w)| <= Target(k, outBuffer).Length;
      ChainNextNone(u, w);
      assert specs[..0] == [];
      var input, inSize: nat := inBuffer, inBufferSize;
      outSize := 0;
      forall k | 0 <= k < numStages ensures StageAt(k, 0, u, w) {
        assert StageFed(k, fed);
      }
      for i := 0 to numStages
        modifies State(), Arrays(), outBuffer
        invariant Reached(i, u, w, input, inSize)
        invariant if i == 0 then input == inBuffer else input == Target(i - 1, outBuffer) && outSize == inSize
        invariant if i < numStages then outBuffer[..] == before else outBuffer[outSize..] == before[outSize..]
      {
        outSize := ConvertRound(i, outBuffer, input, inSize, u, w);
        input := Target(i, outBuffer);
        inSize := outSize;
      }
      forall k | 0 <= k < numStages ensures StageFed(k, u + w) {
        assert StageAt(k, numStages, u, w);
      }
    }

    /** One round: stage `i` writes to the next buffer, which is outBuffer for the last stage. */
    method ConvertRound(i: nat, outBuffer: array<real>, input: array<real>, inSize: nat, ghost u: seq<real>,
      ghost w: seq<real>)
      returns (outSize: nat)
      requires Shape() && i < numStages && outBuffer !in Arrays() && Reached(i, u, w, input, inSize)
      requires if i == 0 then input != outBuffer && input !in Arrays() else input == intermediateOutputBuffers[i - 1]
      requires |ChainNext(specs[..i + 1], u, w)| <= Target(i, outBuffer).Length
      modifies State(), Arrays(), outBuffer
      ensures Reached(i + 1, u, w, Target(i, outBuffer), outSize)
      ensures if i < indexOfLastStage then outBuffer[..] == old(outBuffer[..])
              else outBuffer[outSize..] == old(outBuffer[outSize..])
    {
      hide ResamplingStage.Valid, StageOut, NextOut, ChainOut, ChainNext;
      var out := if i == indexOfLastStage then outBuffer else intermediateOutputBuffers[i];
      Owned(i);
      if i > 0 { Owned(i - 1); }
      assert StageAt(i, i, u, w);
      ghost var next := i + 1;
      outSize := ConvertStage(i, out, input, inSize, u, w);
      forall k | 0 <= k < numStages ensures StageAt(k, next, u, w) {
        assert k != i ==> old(StageAt(k, i, u, w));
      }
    }

    lemma Owned(i: nat)
      requires Shape() && i < numStages
      ensures {convertStages[i] as object, convertStages[i].filter} <= State()
      ensures convertStages[i].filter.signal in Arrays() && convertStages[i].filter.kernelphases in Kernels()
      ensures i != indexOfLastStage ==> intermediateOutputBuffers[i] in Arrays()
    {
      assert convertStages[i] in convertStages;
      assert i != indexOfLastStage ==> intermediateOutputBuffers[i] in intermediateOutputBuffers;
    }

    /** One round of the loop in convert(). */
    method ConvertStage(i: nat, out: array<real>, input: array<real>, inSize: nat, ghost u: seq<real>,
      ghost w: seq<real>)
      returns (outSize: nat)
      requires Shape() && i < numStages && StageFed(i, u)
      requires input != out && input != convertStages[i].filter.signal && out != convertStages[i].filter.signal
      requires inSize <= input.Length && input[..inSize] == ChainNext(specs[..i], u, w)
      requires |ChainNext(specs[..i + 1], u, w)| <= out.Length
      modifies convertStages[i], convertStages[i].filter, convertStages[i].filter.signal, out
      ensures StageFed(i, u + w)
      ensures outSize <= out.Length && out[..outSize] == ChainNext(specs[..i + 1], u, w)
      ensures forall k :: outSize <= k < out.Length ==> out[k] == old(out[k])
    {
      ChainNextStep(specs, i, u, w);
      outSize := convertStages[i].Convert(out, input, inSize);
    }

    method Reset()
      requires Valid()
      modifies this, State(), Arrays()
      ensures Valid() && fed == []
    {
      hide ResamplingStage.Valid, ChainOut, ResamplingStage.Spec;
      ghost var u := fed;
      for i := 0 to numStages
        modifies State(), Arrays()
        invariant forall k :: 0 <= k < i ==> StageFed(k, [])
        invariant forall k :: i <= k < numStages ==> StageFed(k, u)
      {
        ChainOfNothing(specs[..i]);
        Owned(i);
        assert StageFed(i, u);
        convertStages[i].Reset();
        if i != indexOfLastStage {
          forall j | 0 <= j < intermediateOutputBuffers[i].Length { intermediateOutputBuffers[i][j] := 0.0; }
        }
      }
      fed := [];
    }
  }

  lemma ChainNextNone(u: seq<real>, w: seq<real>)
    ensures ChainNext([], u, w) == w
  {
  }

  lemma {:induction false} ChainOfNothing(cs: seq<StageSpec>)
    requires AllWellFormed(cs)
    ensures ChainOut(cs, []) == []
  {
    if cs != [] { ChainOfNothing(cs[..|cs| - 1]); }
  }
}
