/**
 * The conversion loop of ReSampler.cpp over the channels of a block: what one block does, and every schedule of the
 * channel tasks that the thread pool runs.
 */
module Channels {
  import opened Signals
  import opened Stage
  import opened Converters
  import ConverterTheorems
  import StageTheorems

  /** All channels have the same stages; `finish` applies the gain and the ditherer, whose state it advances. */
  datatype Setup<!D> = Setup(nChannels: nat, stages: seq<StageSpec>, finish: (D, real) -> (D, real))
  {
    ghost predicate WellFormed() {
      nChannels >= 1 && AllWellFormed(stages)
    }
  }

  /** What a channel keeps from block to block: the input its converter has been fed, and its ditherer. */
  datatype Channel<D> = Channel(fed: seq<real>, ditherer: D)

  // ----- Interleaving

  /** The frame and the channel of position `k` of an interleaved block. */
  function Frame(n: nat, k: nat): nat
    requires n >= 1
  {
    k / n
  }

  function Lane(n: nat, k: nat): (c: nat)
    requires n >= 1
    ensures c < n
  {
    k % n
  }

  function Position(n: nat, f: nat, ch: nat): nat {
    f * n + ch
  }

  /** Each frame and channel has one position, and each position one frame and channel. */
  lemma PositionOf(n: nat, f: nat, ch: nat)
    requires ch < n
    ensures Frame(n, Position(n, f, ch)) == f && Lane(n, Position(n, f, ch)) == ch
  {
    DivUnique(Position(n, f, ch), n, f, ch);
  }

  lemma PlacedAt(n: nat, k: nat)
    requires n >= 1
    ensures Position(n, Frame(n, k), Lane(n, k)) == k
  {
  }

  lemma PositionInside(n: nat, f: nat, ch: nat, count: nat)
    requires ch < n && f < count
    ensures Position(n, f, ch) < Position(n, count, 0)
  {
    MulMono(f + 1, count, n);
  }

  /** The samples of one channel of an interleaved block. */
  function Deinterleaved(n: nat, block: seq<real>, ch: nat): (r: seq<real>)
    requires ch < n
    ensures |r| == |block| / n
  {
    seq(|block| / n, f requires 0 <= f < |block| / n =>
      (PositionInside(n, f, ch, |block| / n); block[Position(n, f, ch)]))
  }

  /** The place of a sample in figures. */
  lemma DeinterleavedAt(n: nat, block: seq<real>, ch: nat, f: nat)
    requires ch < n && f < |block| / n
    ensures f * n + ch < |block| && Deinterleaved(n, block, ch)[f] == block[f * n + ch]
  {
    PositionInside(n, f, ch, |block| / n);
  }

  // ----- One channel of one block

  /** The samples of a channel after gain and dither, and the ditherer afterwards. */
  function Finished<D>(finish: (D, real) -> (D, real), d: D, xs: seq<real>): (r: (D, seq<real>))
    ensures |r.1| == |xs|
  {
    if xs == [] then (d, [])
    else
      var before := Finished(finish, d, xs[..|xs| - 1]);
      var (e, y) := finish(before.0, xs[|xs| - 1]);
      (e, before.1 + [y])
  }

  lemma FinishedNext<D>(finish: (D, real) -> (D, real), d: D, xs: seq<real>, f: nat)
    requires f < |xs|
    ensures var (e, y) := finish(Finished(finish, d, xs[..f]).0, xs[f]);
      Finished(finish, d, xs[..f + 1]) == (e, Finished(finish, d, xs[..f]).1 + [y])
  {
    assert xs[..f + 1][..f] == xs[..f];
  }

  lemma {:induction false} FinishedPrefix<D>(finish: (D, real) -> (D, real), d: D, xs: seq<real>, f: nat)
    requires f <= |xs|
    ensures Finished(finish, d, xs[..f]).1 == Finished(finish, d, xs).1[..f]
    decreases |xs| - f
  {
    if f == |xs| {
      assert xs[..f] == xs;
    } else {
      FinishedPrefix(finish, d, xs, f + 1);
      FinishedNext(finish, d, xs, f);
    }
  }

  function Max(a: real, b: real): real {
    if a < b then b else a
  }

  /** The largest magnitude, 0 when there are no samples. */
  function Peak(ys: seq<real>): real {
    if ys == [] then 0.0 else Max(Peak(ys[..|ys| - 1]), Abs(ys[|ys| - 1]))
  }

  ghost function Converted<D>(s: Setup<D>, c: Channel<D>, w: seq<real>): seq<real>
    requires s.WellFormed()
  {
    ChainNext(s.stages, c.fed, w)
  }

  /** What a channel puts into the output block for the new input `w`. */
  ghost function Output<D>(s: Setup<D>, c: Channel<D>, w: seq<real>): (r: seq<real>)
    requires s.WellFormed()
    ensures |r| == |Converted(s, c, w)|
  {
    Finished(s.finish, c.ditherer, Converted(s, c, w)).1
  }

  ghost function NextChannel<D>(s: Setup<D>, c: Channel<D>, w: seq<real>): Channel<D>
    requires s.WellFormed()
  {
    Channel(c.fed + w, Finished(s.finish, c.ditherer, Converted(s, c, w)).0)
  }

  // ----- One block

  /** What the loop keeps from block to block. */
  datatype Memory<D> = Memory(channels: seq<Channel<D>>, outputBlock: seq<real>, outputBlockIndex: nat, peak: real)

  ghost function Outputs<D>(s: Setup<D>, m: Memory<D>, block: seq<real>): (r: seq<seq<real>>)
    requires s.WellFormed() && |m.channels| == s.nChannels
    ensures |r| == s.nChannels
  {
    seq(s.nChannels, ch requires 0 <= ch < s.nChannels =>
      Output(s, m.channels[ch], Deinterleaved(s.nChannels, block, ch)))
  }

  /** Position `k` once the first `written[c]` samples of each channel c are in the block. */
  ghost function Slot(outs: seq<seq<real>>, written: seq<nat>, before: seq<real>, k: nat): real
    requires |outs| == |written| >= 1 && k < |before|
    requires forall c :: 0 <= c < |outs| ==> written[c] <= |outs[c]|
  {
    var n := |outs|;
    if Frame(n, k) < written[Lane(n, k)] then outs[Lane(n, k)][Frame(n, k)] else before[k]
  }

  ghost function Lengths(outs: seq<seq<real>>): (r: seq<nat>)
    ensures |r| == |outs| && forall c :: 0 <= c < |outs| ==> r[c] == |outs[c]|
  {
    seq(|outs|, c requires 0 <= c < |outs| => |outs[c]|)
  }

  /** The peak after the results of the first `n` channels. */
  ghost function PeakAfter(outs: seq<seq<real>>, peak: real, n: nat): real
    requires n <= |outs|
  {
    if n == 0 then peak else Max(PeakAfter(outs, peak, n - 1), Peak(outs[n - 1]))
  }

  /** The single-threaded path: one channel after the other. */
  ghost function OneBlock<D>(s: Setup<D>, m: Memory<D>, block: seq<real>): (r: Memory<D>)
    requires s.WellFormed() && |m.channels| == s.nChannels
    ensures |r.channels| == s.nChannels && |r.outputBlock| == |m.outputBlock|
  {
    var outs := Outputs(s, m, block);
    Memory(
      seq(s.nChannels, ch requires 0 <= ch < s.nChannels =>
        NextChannel(s, m.channels[ch], Deinterleaved(s.nChannels, block, ch))),
      seq(|m.outputBlock|, k requires 0 <= k < |m.outputBlock| => Slot(outs, Lengths(outs), m.outputBlock, k)),
      Position(s.nChannels, |outs[s.nChannels - 1]|, 0),
      PeakAfter(outs, m.peak, s.nChannels))
  }

  /** The same for a sequence of blocks. */
  ghost function AllBlocks<D>(s: Setup<D>, m: Memory<D>, blocks: seq<seq<real>>): (r: Memory<D>)
    requires s.WellFormed() && |m.channels| == s.nChannels
    ensures |r.channels| == s.nChannels && |r.outputBlock| == |m.outputBlock|
  {
    if blocks == [] then m else OneBlock(s, AllBlocks(s, m, blocks[..|blocks| - 1]), blocks[|blocks| - 1])
  }

  /** The output block has room for every channel's samples. */
  ghost predicate Fits<D>(s: Setup<D>, m: Memory<D>, block: seq<real>)
    requires s.WellFormed() && |m.channels| == s.nChannels
  {
    forall ch :: 0 <= ch < s.nChannels ==> Position(s.nChannels, |Outputs(s, m, block)[ch]|, 0) <= |m.outputBlock|
  }

  // ----- The multi-threaded path, step by step

  /** A channel's task: not pushed yet, waiting in the pool, in its sample loop, or returned. */
  datatype Task =
    | Absent
    | Queued
    | Looping(oBuf: seq<real>, f: nat, localPeak: real, localOutputBlockIndex: nat)
    | Returned(outBlockIndex: nat, peak: real)

  /** Where the main thread stands: before a block, pushing the tasks, or collecting the results. */
  datatype MainPc = BetweenBlocks | Pushing(next: nat) | Collecting(next: nat)

  datatype Machine<D> = Machine(main: MainPc, tasks: seq<Task>, memory: Memory<D>, inputs: seq<seq<real>>, done: nat)

  datatype Step = ReadBlock | PushTask | Convert(ch: nat) | Sample(ch: nat) | Return(ch: nat) | Collect

  ghost predicate Enabled<D>(s: Setup<D>, blocks: seq<seq<real>>, x: Machine<D>, l: Step)
    requires Shape(s, x)
  {
    match l
    case ReadBlock => x.main == BetweenBlocks && x.done < |blocks|
    case PushTask => x.main.Pushing? && x.main.next < s.nChannels
    case Convert(ch) => ch < s.nChannels && x.tasks[ch] == Queued
    case Sample(ch) =>
      && ch < s.nChannels && x.tasks[ch].Looping? && x.tasks[ch].f < |x.tasks[ch].oBuf|
      && x.tasks[ch].localOutputBlockIndex + ch < |x.memory.outputBlock|
    case Return(ch) => ch < s.nChannels && x.tasks[ch].Looping? && x.tasks[ch].f >= |x.tasks[ch].oBuf|
    case Collect => x.main.Collecting? && x.main.next < s.nChannels && x.tasks[x.main.next].Returned?
  }

  ghost predicate Shape<D>(s: Setup<D>, x: Machine<D>) {
    && s.WellFormed()
    && |x.tasks| == |x.memory.channels| == |x.inputs| == s.nChannels
  }

  ghost function Next<D>(s: Setup<D>, blocks: seq<seq<real>>, x: Machine<D>, l: Step): (y: Machine<D>)
    requires Shape(s, x) && Enabled(s, blocks, x, l)
    ensures Shape(s, y)
  {
    var m := x.memory;
    match l
    case ReadBlock =>
      x.(main := Pushing(0), tasks := seq(s.nChannels, _ => Absent), memory := m.(outputBlockIndex := 0),
         inputs := seq(s.nChannels, ch requires 0 <= ch < s.nChannels =>
           Deinterleaved(s.nChannels, blocks[x.done], ch)))
    case PushTask =>
      x.(main := if x.main.next + 1 < s.nChannels then Pushing(x.main.next + 1) else Collecting(0),
         tasks := x.tasks[x.main.next := Queued])
    case Convert(ch) =>
      x.(tasks := x.tasks[ch := Looping(Converted(s, m.channels[ch], x.inputs[ch]), 0, 0.0, 0)],
         memory := m.(channels := m.channels[ch := m.channels[ch].(fed := m.channels[ch].fed + x.inputs[ch])]))
    case Sample(ch) =>
      var t := x.tasks[ch];
      var (d, outputSample) := s.finish(m.channels[ch].ditherer, t.oBuf[t.f]);
      x.(tasks := x.tasks[ch := Looping(t.oBuf, t.f + 1, Max(t.localPeak, Abs(outputSample)),
                                        t.localOutputBlockIndex + s.nChannels)],
         memory := m.(channels := m.channels[ch := m.channels[ch].(ditherer := d)],
                      outputBlock := m.outputBlock[t.localOutputBlockIndex + ch := outputSample]))
    case Return(ch) =>
      x.(tasks := x.tasks[ch := Returned(x.tasks[ch].localOutputBlockIndex, x.tasks[ch].localPeak)])
    case Collect =>
      var res := x.tasks[x.main.next];
      var m' := m.(peak := Max(m.peak, res.peak), outputBlockIndex := res.outBlockIndex);
      if x.main.next + 1 < s.nChannels then x.(main := Collecting(x.main.next + 1), memory := m')
      else x.(main := BetweenBlocks, memory := m', done := x.done + 1)
  }

  // ----- What every schedule keeps

  /** How many samples of channel `ch` are in the output block. */
  ghost function Written(t: Task, total: nat): nat {
    match t
    case Absent => 0
    case Queued => 0
    case Looping(_, f, _, _) => f
    case Returned(_, _) => total
  }

  ghost function AllWritten(tasks: seq<Task>, outs: seq<seq<real>>): (r: seq<nat>)
    requires |tasks| == |outs|
    ensures |r| == |tasks| && forall c :: 0 <= c < |r| ==> r[c] == Written(tasks[c], |outs[c]|)
  {
    seq(|tasks|, c requires 0 <= c < |tasks| => Written(tasks[c], |outs[c]|))
  }

  /** Channel `ch`, which was `c0` when the block `w` came, has got as far as its task says. */
  ghost predicate ChannelKept<D>(s: Setup<D>, ch: nat, c0: Channel<D>, w: seq<real>, t: Task, c: Channel<D>)
    requires s.WellFormed()
  {
    match t
    case Absent => c == c0
    case Queued => c == c0
    case Looping(oBuf, f, localPeak, index) =>
      && oBuf == Converted(s, c0, w) && f <= |oBuf| && index == Position(s.nChannels, f, 0)
      && c == Channel(c0.fed + w, Finished(s.finish, c0.ditherer, oBuf[..f]).0)
      && localPeak == Peak(Finished(s.finish, c0.ditherer, oBuf[..f]).1)
    case Returned(index, peak) =>
      && c == NextChannel(s, c0, w)
      && index == Position(s.nChannels, |Output(s, c0, w)|, 0) && peak == Peak(Output(s, c0, w))
  }

  ghost predicate TasksKept<D>(s: Setup<D>, m0: Memory<D>, block: seq<real>, x: Machine<D>)
    requires Shape(s, x) && |m0.channels| == s.nChannels
  {
    forall ch :: 0 <= ch < s.nChannels ==>
      && x.inputs[ch] == Deinterleaved(s.nChannels, block, ch)
      && ChannelKept(s, ch, m0.channels[ch], x.inputs[ch], x.tasks[ch], x.memory.channels[ch])
  }

  /** Every position of the output block holds its channel's sample, or what was there before the block. */
  ghost predicate BlockKept<D>(s: Setup<D>, m0: Memory<D>, block: seq<real>, x: Machine<D>)
    requires Shape(s, x) && |m0.channels| == s.nChannels
  {
    var outs := Outputs(s, m0, block);
    && |x.memory.outputBlock| == |m0.outputBlock|
    && (forall c :: 0 <= c < s.nChannels ==> AllWritten(x.tasks, outs)[c] <= |outs[c]|)
    && forall k :: 0 <= k < |m0.outputBlock| ==>
         x.memory.outputBlock[k] == Slot(outs, AllWritten(x.tasks, outs), m0.outputBlock, k)
  }

  ghost predicate MainKept<D>(s: Setup<D>, m0: Memory<D>, block: seq<real>, x: Machine<D>)
    requires Shape(s, x) && |m0.channels| == s.nChannels
  {
    match x.main
    case BetweenBlocks => false
    case Pushing(next) =>
      && next < s.nChannels && x.memory.peak == m0.peak
      && (forall ch :: next <= ch < s.nChannels ==> x.tasks[ch] == Absent)
      && (forall ch :: 0 <= ch < next ==> x.tasks[ch] != Absent)
    case Collecting(next) =>
      && next < s.nChannels && x.memory.peak == PeakAfter(Outputs(s, m0, block), m0.peak, next)
      && (forall ch :: 0 <= ch < next ==> x.tasks[ch].Returned?)
      && (forall ch :: 0 <= ch < s.nChannels ==> x.tasks[ch] != Absent)
      && (next > 0 ==> x.memory.outputBlockIndex == Position(s.nChannels, |Outputs(s, m0, block)[next - 1]|, 0))
  }

  /** In the middle of a block, the machine stands between the memory before the block and the memory after it. */
  ghost predicate InBlock<D>(s: Setup<D>, m0: Memory<D>, block: seq<real>, x: Machine<D>)
    requires Shape(s, x) && |m0.channels| == s.nChannels
  {
    TasksKept(s, m0, block, x) && BlockKept(s, m0, block, x) && MainKept(s, m0, block, x)
  }

  /** Between blocks, the memory is the single-threaded path's; in a block, the invariant above holds. */
  ghost predicate Inv<D>(s: Setup<D>, m0: Memory<D>, blocks: seq<seq<real>>, x: Machine<D>)
    requires Shape(s, x) && |m0.channels| == s.nChannels
  {
    && x.done <= |blocks|
    && if x.main == BetweenBlocks then
         && (forall ch :: 0 <= ch < s.nChannels ==> x.tasks[ch] == Absent || x.tasks[ch].Returned?)
         && x.memory == AllBlocks(s, m0, blocks[..x.done])
       else
         x.done < |blocks| && InBlock(s, AllBlocks(s, m0, blocks[..x.done]), blocks[x.done], x)
  }

  lemma BlockBegins<D>(s: Setup<D>, blocks: seq<seq<real>>, m0: Memory<D>, x: Machine<D>)
    requires Shape(s, x) && Enabled(s, blocks, x, ReadBlock) && x.memory == m0
    ensures InBlock(s, m0, blocks[x.done], Next(s, blocks, x, ReadBlock))
  {
    hide Output, Deinterleaved, Frame, Lane;
  }

  /** A step that a channel takes keeps what is promised of its task. */
  lemma TaskStep<D>(s: Setup<D>, blocks: seq<seq<real>>, c0: Channel<D>, w: seq<real>, x: Machine<D>, l: Step, ch: nat)
    requires Shape(s, x) && Enabled(s, blocks, x, l) && (l == Convert(ch) || l == Sample(ch) || l == Return(ch))
    requires x.inputs[ch] == w && ChannelKept(s, ch, c0, w, x.tasks[ch], x.memory.channels[ch])
    ensures var y := Next(s, blocks, x, l);
      ChannelKept(s, ch, c0, w, y.tasks[ch], y.memory.channels[ch])
    ensures l == Sample(ch) ==> var y := Next(s, blocks, x, l);
      y.memory.outputBlock[x.tasks[ch].localOutputBlockIndex + ch] == Output(s, c0, w)[x.tasks[ch].f]
  {
    hide Finished, Peak, Position, Converted, Max, Abs;
    if l == Sample(ch) {
      SampleFinished(s, c0.ditherer, x.tasks[ch].oBuf, x.tasks[ch].f);
      NextFrame(s.nChannels, x.tasks[ch].f);
    } else if l == Return(ch) {
      assert x.tasks[ch].oBuf[..x.tasks[ch].f] == x.tasks[ch].oBuf;
    } else {
      NothingFinished(s, c0.ditherer, Converted(s, c0, w));
    }
  }

  lemma NothingFinished<D>(s: Setup<D>, d: D, oBuf: seq<real>)
    ensures Finished(s.finish, d, oBuf[..0]) == (d, []) && Peak([]) == 0.0 && Position(s.nChannels, 0, 0) == 0
  {
  }

  /** One more sample through the ditherer, as the loop over f has it. */
  lemma SampleFinished<D>(s: Setup<D>, d: D, oBuf: seq<real>, f: nat)
    requires f < |oBuf|
    ensures var before, after := Finished(s.finish, d, oBuf[..f]), Finished(s.finish, d, oBuf[..f + 1]);
      var (e, y) := s.finish(before.0, oBuf[f]);
      after.0 == e && Finished(s.finish, d, oBuf).1[f] == y && Peak(after.1) == Max(Peak(before.1), Abs(y))
  {
    hide Max, Abs;
    var before := Finished(s.finish, d, oBuf[..f]);
    FinishedNext(s.finish, d, oBuf, f);
    FinishedPrefix(s.finish, d, oBuf, f + 1);
    PeakNext(before.1, s.finish(before.0, oBuf[f]).1);
  }

  lemma PeakNext(ys: seq<real>, y: real)
    ensures Peak(ys + [y]) == Max(Peak(ys), Abs(y))
  {
    assert (ys + [y])[..|ys|] == ys;
  }

  lemma NextFrame(n: nat, f: nat)
    ensures Position(n, f, 0) + n == Position(n, f + 1, 0)
    ensures forall ch :: Position(n, f, 0) + ch == Position(n, f, ch)
  {
  }

  /** The other tasks are not touched. */
  lemma TasksStep<D>(s: Setup<D>, blocks: seq<seq<real>>, m0: Memory<D>, block: seq<real>, x: Machine<D>, l: Step)
    requires Shape(s, x) && Enabled(s, blocks, x, l) && l != ReadBlock && |m0.channels| == s.nChannels
    requires InBlock(s, m0, block, x)
    ensures TasksKept(s, m0, block, Next(s, blocks, x, l))
  {
    hide Output, Deinterleaved, Converted, NextChannel, BlockKept;
    if l.Convert? || l.Sample? || l.Return? {
      TaskStep(s, blocks, m0.channels[l.ch], x.inputs[l.ch], x, l, l.ch);
    }
  }

  /** A sample goes to its own frame and lane, and nowhere else. */
  lemma SlotWritten(outs: seq<seq<real>>, written: seq<nat>, written': seq<nat>, before: seq<real>, ch: nat, k: nat)
    requires |outs| == |written| == |written'| >= 1 && k < |before| && ch < |outs|
    requires forall c :: 0 <= c < |outs| ==> written[c] <= |outs[c]|
    requires written[ch] < |outs[ch]| && written' == written[ch := written[ch] + 1]
    ensures Slot(outs, written', before, k) ==
      if k == Position(|outs|, written[ch], ch) then outs[ch][written[ch]] else Slot(outs, written, before, k)
  {
    PositionOf(|outs|, written[ch], ch);
    PlacedAt(|outs|, k);
  }

  lemma BlockStep<D>(s: Setup<D>, blocks: seq<seq<real>>, m0: Memory<D>, block: seq<real>, x: Machine<D>, l: Step)
    requires Shape(s, x) && Enabled(s, blocks, x, l) && l != ReadBlock && |m0.channels| == s.nChannels
    requires InBlock(s, m0, block, x)
    ensures BlockKept(s, m0, block, Next(s, blocks, x, l))
  {
    hide Output, Deinterleaved, Converted, NextChannel, Slot, Finished, Position;
    var outs, y := Outputs(s, m0, block), Next(s, blocks, x, l);
    var written, written' := AllWritten(x.tasks, outs), AllWritten(y.tasks, outs);
    if l.Sample? {
      var ch, f := l.ch, x.tasks[l.ch].f;
      TaskStep(s, blocks, m0.channels[ch], x.inputs[ch], x, l, ch);
      assert x.inputs[ch] == Deinterleaved(s.nChannels, block, ch);
      assert written' == written[ch := f + 1];
      NextFrame(s.nChannels, f);
      forall k | 0 <= k < |m0.outputBlock|
        ensures y.memory.outputBlock[k] == Slot(outs, written', m0.outputBlock, k)
      {
        SlotWritten(outs, written, written', m0.outputBlock, ch, k);
      }
    } else {
      if l.Return? {
        assert x.inputs[l.ch] == Deinterleaved(s.nChannels, block, l.ch);
        assert ChannelKept(s, l.ch, m0.channels[l.ch], x.inputs[l.ch], x.tasks[l.ch], x.memory.channels[l.ch]);
      }
      assert written' == written;
    }
  }

  /** A returned task has the channel's whole output and its peak. */
  lemma ReturnedResult<D>(s: Setup<D>, m0: Memory<D>, block: seq<real>, x: Machine<D>, ch: nat)
    requires Shape(s, x) && |m0.channels| == s.nChannels && TasksKept(s, m0, block, x)
    requires ch < s.nChannels && x.tasks[ch].Returned?
    ensures var out := Outputs(s, m0, block)[ch];
      && x.tasks[ch].peak == Peak(out) && x.tasks[ch].outBlockIndex == Position(s.nChannels, |out|, 0)
      && x.memory.channels[ch] == NextChannel(s, m0.channels[ch], Deinterleaved(s.nChannels, block, ch))
  {
    hide Output, Deinterleaved, NextChannel, Peak, Position;
  }

  lemma MainStep<D>(s: Setup<D>, blocks: seq<seq<real>>, m0: Memory<D>, block: seq<real>, x: Machine<D>, l: Step)
    requires Shape(s, x) && Enabled(s, blocks, x, l) && l != ReadBlock && |m0.channels| == s.nChannels
    requires InBlock(s, m0, block, x)
    requires l == Collect ==> x.main.next + 1 < s.nChannels
    ensures MainKept(s, m0, block, Next(s, blocks, x, l))
  {
    hide Output, Outputs, Deinterleaved, Converted, NextChannel, BlockKept, TasksKept, Finished, Position, Max;
    if l == Collect {
      ReturnedResult(s, m0, block, x, x.main.next);
    }
  }

  /** When the last result is collected, the memory is what the single-threaded path leaves. */
  lemma BlockEnds<D>(s: Setup<D>, blocks: seq<seq<real>>, m0: Memory<D>, block: seq<real>, x: Machine<D>)
    requires Shape(s, x) && Enabled(s, blocks, x, Collect) && |m0.channels| == s.nChannels
    requires InBlock(s, m0, block, x) && x.main.next + 1 == s.nChannels
    ensures Next(s, blocks, x, Collect).memory == OneBlock(s, m0, block)
  {
    hide Output, Outputs, Deinterleaved, Converted, NextChannel, Finished, Position, Max, Peak, Slot;
    var outs, n := Outputs(s, m0, block), s.nChannels;
    forall ch | 0 <= ch < n
      ensures x.memory.channels[ch] == NextChannel(s, m0.channels[ch], Deinterleaved(n, block, ch))
    {
      ReturnedResult(s, m0, block, x, ch);
    }
    ReturnedResult(s, m0, block, x, n - 1);
    assert AllWritten(x.tasks, outs) == Lengths(outs);
    assert x.memory.outputBlock == OneBlock(s, m0, block).outputBlock;
    assert x.memory.channels == OneBlock(s, m0, block).channels;
  }

  lemma BlocksNext<D>(s: Setup<D>, m: Memory<D>, blocks: seq<seq<real>>, i: nat)
    requires s.WellFormed() && |m.channels| == s.nChannels && i < |blocks|
    ensures AllBlocks(s, m, blocks[..i + 1]) == OneBlock(s, AllBlocks(s, m, blocks[..i]), blocks[i])
  {
    assert blocks[..i + 1][..i] == blocks[..i];
  }

  /** Which steps there are between blocks and within one, and where they lead. */
  lemma StepPlace<D>(s: Setup<D>, blocks: seq<seq<real>>, x: Machine<D>, l: Step)
    requires Shape(s, x) && Enabled(s, blocks, x, l)
    requires x.main == BetweenBlocks ==> forall ch :: 0 <= ch < s.nChannels ==>
      x.tasks[ch] == Absent || x.tasks[ch].Returned?
    ensures x.main == BetweenBlocks <==> l == ReadBlock
    ensures var y, last := Next(s, blocks, x, l), l == Collect && x.main.next + 1 == s.nChannels;
      && (y.main == BetweenBlocks <==> last) && (last ==> y.tasks == x.tasks)
      && y.done == (if last then x.done + 1 else x.done) && (l == ReadBlock ==> x.done < |blocks|)
  {
  }

  lemma InvKept<D>(s: Setup<D>, m0: Memory<D>, blocks: seq<seq<real>>, x: Machine<D>, l: Step)
    requires Shape(s, x) && Enabled(s, blocks, x, l) && |m0.channels| == s.nChannels
    requires Inv(s, m0, blocks, x)
    ensures Inv(s, m0, blocks, Next(s, blocks, x, l))
  {
    hide AllBlocks, OneBlock, TasksKept, BlockKept, Enabled, Next, Outputs, Deinterleaved, PeakAfter, Position;
    var m := AllBlocks(s, m0, blocks[..x.done]);
    StepPlace(s, blocks, x, l);
    if x.main == BetweenBlocks {
      BlockBegins(s, blocks, m, x);
    } else {
      var block := blocks[x.done];
      if l == Collect && x.main.next + 1 == s.nChannels {
        BlockEnds(s, blocks, m, block, x);
        BlocksNext(s, m0, blocks, x.done);
        AllReturned(s, m, block, blocks, x);
      } else {
        TasksStep(s, blocks, m, block, x, l);
        BlockStep(s, blocks, m, block, x, l);
        MainStep(s, blocks, m, block, x, l);
      }
    }
  }

  lemma AllReturned<D>(s: Setup<D>, m: Memory<D>, block: seq<real>, blocks: seq<seq<real>>, x: Machine<D>)
    requires Shape(s, x) && |m.channels| == s.nChannels && MainKept(s, m, block, x)
    requires Enabled(s, blocks, x, Collect) && x.main.next + 1 == s.nChannels
    ensures forall ch :: 0 <= ch < s.nChannels ==> x.tasks[ch].Returned?
  {
    hide Outputs;
  }

  // ----- Every schedule

  ghost predicate IsSchedule<D>(s: Setup<D>, blocks: seq<seq<real>>, x: Machine<D>, ls: seq<Step>)
    requires Shape(s, x)
    decreases ls
  {
    ls == [] || (Enabled(s, blocks, x, ls[0]) && IsSchedule(s, blocks, Next(s, blocks, x, ls[0]), ls[1..]))
  }

  ghost function After<D>(s: Setup<D>, blocks: seq<seq<real>>, x: Machine<D>, ls: seq<Step>): (y: Machine<D>)
    requires Shape(s, x) && IsSchedule(s, blocks, x, ls)
    ensures Shape(s, y)
    decreases ls
  {
    if ls == [] then x else After(s, blocks, Next(s, blocks, x, ls[0]), ls[1..])
  }

  /** The loop before its first block. */
  ghost function Start<D>(s: Setup<D>, m0: Memory<D>): (x: Machine<D>)
    requires s.WellFormed() && |m0.channels| == s.nChannels
    ensures Shape(s, x)
  {
    Machine(BetweenBlocks, seq(s.nChannels, _ => Absent), m0, seq(s.nChannels, _ => []), 0)
  }

  lemma StartInv<D>(s: Setup<D>, m0: Memory<D>, blocks: seq<seq<real>>)
    requires s.WellFormed() && |m0.channels| == s.nChannels
    ensures Inv(s, m0, blocks, Start(s, m0))
  {
    assert blocks[..0] == [];
  }

  lemma {:induction false} InvOnSchedules<D>(s: Setup<D>, m0: Memory<D>, blocks: seq<seq<real>>, x: Machine<D>,
    ls: seq<Step>)
    requires Shape(s, x) && |m0.channels| == s.nChannels && IsSchedule(s, blocks, x, ls) && Inv(s, m0, blocks, x)
    ensures Inv(s, m0, blocks, After(s, blocks, x, ls))
    decreases ls
  {
    hide Inv, Next, Enabled;
    if ls != [] {
      InvKept(s, m0, blocks, x, ls[0]);
      InvOnSchedules(s, m0, blocks, Next(s, blocks, x, ls[0]), ls[1..]);
    }
  }

  /** Threaded equals sequential: after every block, under every schedule, the memory is the single-threaded path's. */
  lemma ThreadedEqualsSequential<D>(s: Setup<D>, m0: Memory<D>, blocks: seq<seq<real>>, ls: seq<Step>)
    requires s.WellFormed() && |m0.channels| == s.nChannels && IsSchedule(s, blocks, Start(s, m0), ls)
    ensures var x := After(s, blocks, Start(s, m0), ls);
      x.done <= |blocks| && (x.main == BetweenBlocks ==> x.memory == AllBlocks(s, m0, blocks[..x.done]))
  {
    StartInv(s, m0, blocks);
    InvOnSchedules(s, m0, blocks, Start(s, m0), ls);
  }

  lemma LoopIndex<D>(s: Setup<D>, m0: Memory<D>, blocks: seq<seq<real>>, x: Machine<D>, ch: nat)
    requires Shape(s, x) && |m0.channels| == s.nChannels && Inv(s, m0, blocks, x)
    requires ch < s.nChannels && x.tasks[ch].Looping?
    ensures x.tasks[ch].localOutputBlockIndex == Position(s.nChannels, x.tasks[ch].f, 0)
  {
    hide AllBlocks, BlockKept, MainKept, Position, Finished, Peak, Converted, Output, NextChannel, Deinterleaved;
    var m := AllBlocks(s, m0, blocks[..x.done]);
    assert ChannelKept(s, ch, m.channels[ch], x.inputs[ch], x.tasks[ch], x.memory.channels[ch]);
  }

  /** A channel's task writes in its own lane only, at the frame it has reached. */
  lemma OwnLaneOnly<D>(s: Setup<D>, m0: Memory<D>, blocks: seq<seq<real>>, ls: seq<Step>, ch: nat)
    requires s.WellFormed() && |m0.channels| == s.nChannels && IsSchedule(s, blocks, Start(s, m0), ls)
    requires ch < s.nChannels && After(s, blocks, Start(s, m0), ls).tasks[ch].Looping?
    ensures var t := After(s, blocks, Start(s, m0), ls).tasks[ch];
      Lane(s.nChannels, t.localOutputBlockIndex + ch) == ch && Frame(s.nChannels, t.localOutputBlockIndex + ch) == t.f
  {
    hide Inv, Enabled, Next, After, IsSchedule, Start, Position, Frame, Lane;
    var x := After(s, blocks, Start(s, m0), ls);
    StartInv(s, m0, blocks);
    InvOnSchedules(s, m0, blocks, Start(s, m0), ls);
    LoopIndex(s, m0, blocks, x, ch);
    NextFrame(s.nChannels, x.tasks[ch].f);
    PositionOf(s.nChannels, x.tasks[ch].f, ch);
  }

  /** The step that is next for a channel. */
  function TaskDue(t: Task, ch: nat): Step {
    match t
    case Absent => PushTask
    case Queued => Convert(ch)
    case Looping(oBuf, f, _, _) => if f < |oBuf| then Sample(ch) else Return(ch)
    case Returned(_, _) => Collect
  }

  /** The step the main thread waits for. */
  function Due<D>(x: Machine<D>): Step
    requires x.main.Collecting? ==> x.main.next < |x.tasks|
  {
    match x.main
    case BetweenBlocks => ReadBlock
    case Pushing(_) => PushTask
    case Collecting(next) => TaskDue(x.tasks[next], next)
  }

  /** No schedule gets stuck: until all blocks are done, some step is possible, if the output block is large enough. */
  lemma NeverStuck<D>(s: Setup<D>, m0: Memory<D>, blocks: seq<seq<real>>, ls: seq<Step>)
    requires s.WellFormed() && |m0.channels| == s.nChannels && IsSchedule(s, blocks, Start(s, m0), ls)
    requires forall i :: 0 <= i < |blocks| ==> Fits(s, AllBlocks(s, m0, blocks[..i]), blocks[i])
    ensures var x := After(s, blocks, Start(s, m0), ls);
      (x.main == BetweenBlocks && x.done == |blocks|) || exists l :: Enabled(s, blocks, x, l)
  {
    hide *;
    var x := After(s, blocks, Start(s, m0), ls);
    StartInv(s, m0, blocks);
    InvOnSchedules(s, m0, blocks, Start(s, m0), ls);
    if !(x.main == BetweenBlocks && x.done == |blocks|) {
      DuePossible(s, m0, blocks, x);
    }
  }

  /** In every state that schedules reach, the step the main thread waits for is possible. */
  lemma DuePossible<D>(s: Setup<D>, m0: Memory<D>, blocks: seq<seq<real>>, x: Machine<D>)
    requires Shape(s, x) && |m0.channels| == s.nChannels && Inv(s, m0, blocks, x)
    requires forall i :: 0 <= i < |blocks| ==> Fits(s, AllBlocks(s, m0, blocks[..i]), blocks[i])
    requires !(x.main == BetweenBlocks && x.done == |blocks|)
    ensures exists l :: Enabled(s, blocks, x, l)
  {
    hide Output, Outputs, Deinterleaved, Converted, NextChannel, Finished, Max, Peak, Slot, AllBlocks, Position;
    if x.main.Collecting? {
      var ch := x.main.next;
      var m, block := AllBlocks(s, m0, blocks[..x.done]), blocks[x.done];
      assert ChannelKept(s, ch, m.channels[ch], x.inputs[ch], x.tasks[ch], x.memory.channels[ch]);
      if Due(x) == Sample(ch) {
        RoomForSample(s, m, block, ch, x.tasks[ch].f);
      }
    }
    assert Enabled(s, blocks, x, Due(x));
  }

  lemma RoomForSample<D>(s: Setup<D>, m: Memory<D>, block: seq<real>, ch: nat, f: nat)
    requires s.WellFormed() && |m.channels| == s.nChannels && Fits(s, m, block) && ch < s.nChannels
    requires f < |Converted(s, m.channels[ch], Deinterleaved(s.nChannels, block, ch))|
    ensures Position(s.nChannels, f, 0) + ch < |m.outputBlock|
  {
    hide Output, Converted, Deinterleaved;
    var count := |Outputs(s, m, block)[ch]|;
    PositionInside(s.nChannels, f, ch, count);
  }

  // ----- All channels give the same number of samples

  /** How many samples a chain of stages gives depends only on how many it has been fed. */
  lemma {:induction false} CountByLength(cs: seq<StageSpec>, u: seq<real>, w: seq<real>)
    requires AllWellFormed(cs) && |u| == |w|
    ensures |ChainOut(cs, u)| == |ChainOut(cs, w)|
  {
    if cs != [] {
      var c, front := cs[|cs| - 1], cs[..|cs| - 1];
      CountByLength(front, u, w);
      if !c.bypass {
        StageTheorems.OutputCount(c, ChainOut(front, u));
        StageTheorems.OutputCount(c, ChainOut(front, w));
      }
    }
  }

  lemma OutputCount<D>(s: Setup<D>, c: Channel<D>, d: Channel<D>, w: seq<real>, z: seq<real>)
    requires s.WellFormed() && |c.fed| == |d.fed| && |w| == |z|
    ensures |Output(s, c, w)| == |Output(s, d, z)|
  {
    hide ChainOut, Finished;
    CountByLength(s.stages, c.fed, d.fed);
    CountByLength(s.stages, c.fed + w, d.fed + z);
  }

  ghost predicate InStep<D>(m: Memory<D>) {
    forall c, d :: 0 <= c < d < |m.channels| ==> |m.channels[c].fed| == |m.channels[d].fed|
  }

  /** Channels that have been fed nothing are in step. */
  lemma StartInStep<D>(m: Memory<D>)
    requires forall ch :: 0 <= ch < |m.channels| ==> m.channels[ch].fed == []
    ensures InStep(m)
  {
  }

  /**
   * Channels that start in step stay in step: every block, all of them give the same number of frames, so the output
   * block up to outputBlockIndex is exactly their interleaving, whichever channel reported last.
   */
  lemma BlockInterleaves<D>(s: Setup<D>, m: Memory<D>, block: seq<real>)
    requires s.WellFormed() && |m.channels| == s.nChannels && InStep(m) && Fits(s, m, block)
    ensures var r := OneBlock(s, m, block);
      && InStep(r) && r.outputBlockIndex <= |r.outputBlock| && Lane(s.nChannels, r.outputBlockIndex) == 0
      && (forall ch :: 0 <= ch < s.nChannels ==>
        Position(s.nChannels, |Outputs(s, m, block)[ch]|, 0) == r.outputBlockIndex)
      && (forall ch :: 0 <= ch < s.nChannels ==>
        Deinterleaved(s.nChannels, r.outputBlock[..r.outputBlockIndex], ch) == Outputs(s, m, block)[ch])
      && forall k :: r.outputBlockIndex <= k < |r.outputBlock| ==> r.outputBlock[k] == m.outputBlock[k]
  {
    hide Output, Converted, Finished, PeakAfter, Position, Frame, Lane, Slot;
    var outs, n := Outputs(s, m, block), s.nChannels;
    var r, count := OneBlock(s, m, block), |Outputs(s, m, block)[s.nChannels - 1]|;
    forall ch | 0 <= ch < n ensures |outs[ch]| == count {
      OutputCount(s, m.channels[ch], m.channels[n - 1], Deinterleaved(n, block, ch), Deinterleaved(n, block, n - 1));
    }
    PositionOf(n, count, 0);
    forall ch | 0 <= ch < n ensures Deinterleaved(n, r.outputBlock[..r.outputBlockIndex], ch) == outs[ch] {
      LaneReadBack(n, outs, m.outputBlock, r.outputBlock, count, ch);
    }
    forall k | r.outputBlockIndex <= k < |r.outputBlock| ensures r.outputBlock[k] == m.outputBlock[k] {
      SlotPastEnd(outs, m.outputBlock, count, k);
    }
  }

  lemma SlotPastEnd(outs: seq<seq<real>>, before: seq<real>, count: nat, k: nat)
    requires |outs| >= 1 && Position(|outs|, count, 0) <= k < |before| && forall c :: 0 <= c < |outs| ==>
      |outs[c]| == count
    ensures Slot(outs, Lengths(outs), before, k) == before[k]
  {
    var n := |outs|;
    PlacedAt(n, k);
    if Frame(n, k) < count { PositionInside(n, Frame(n, k), Lane(n, k), count); }
  }

  /** De-interleaving the output block gives each channel's samples back. */
  lemma LaneReadBack(n: nat, outs: seq<seq<real>>, before: seq<real>, block: seq<real>, count: nat, ch: nat)
    requires n == |outs| >= 1 && ch < n && |block| == |before| && Position(n, count, 0) <= |block|
    requires forall c :: 0 <= c < n ==> |outs[c]| == count
    requires forall k :: 0 <= k < |block| ==> block[k] == Slot(outs, Lengths(outs), before, k)
    ensures Deinterleaved(n, block[..Position(n, count, 0)], ch) == outs[ch]
  {
    PositionOf(n, count, 0);
    var lane := Deinterleaved(n, block[..Position(n, count, 0)], ch);
    forall f | 0 <= f < count ensures lane[f] == outs[ch][f] {
      PositionInside(n, f, ch, count);
      PositionOf(n, f, ch);
    }
  }

  // ----- However the input is cut into blocks

  /** All that channel `ch` has written over the blocks. */
  ghost function Stream<D>(s: Setup<D>, m: Memory<D>, blocks: seq<seq<real>>, ch: nat): seq<real>
    requires s.WellFormed() && |m.channels| == s.nChannels && ch < s.nChannels
  {
    if blocks == [] then []
    else
      var n := |blocks| - 1;
      Stream(s, m, blocks[..n], ch) + Outputs(s, AllBlocks(s, m, blocks[..n]), blocks[n])[ch]
  }

  ghost function Lanes(n: nat, blocks: seq<seq<real>>, ch: nat): seq<real>
    requires ch < n
  {
    if blocks == [] then [] else Lanes(n, blocks[..|blocks| - 1], ch) + Deinterleaved(n, blocks[|blocks| - 1], ch)
  }

  lemma {:induction false} FinishedConcat<D>(finish: (D, real) -> (D, real), d: D, xs: seq<real>, ys: seq<real>)
    ensures var a := Finished(finish, d, xs);
      Finished(finish, d, xs + ys) == (Finished(finish, a.0, ys).0, a.1 + Finished(finish, a.0, ys).1)
  {
    if ys == [] {
      assert xs + ys == xs;
      assert Finished(finish, d, xs).1 + [] == Finished(finish, d, xs).1;
    } else {
      var n := |ys| - 1;
      FinishedConcat(finish, d, xs, ys[..n]);
      assert (xs + ys)[..|xs + ys| - 1] == xs + ys[..n] && (xs + ys)[|xs + ys| - 1] == ys[n];
      var a, b := Finished(finish, d, xs), Finished(finish, Finished(finish, d, xs).0, ys[..n]);
      var y := finish(b.0, ys[n]).1;
      assert Finished(finish, d, xs + ys).1 == a.1 + b.1 + [y] == a.1 + (b.1 + [y]);
    }
  }

  /**
   * What a channel writes over all blocks is its whole input converted at once, then scaled and dithered at once: the
   * cut into blocks does not show.
   */
  lemma {:induction false} StreamOfChannel<D>(s: Setup<D>, m: Memory<D>, blocks: seq<seq<real>>, ch: nat)
    requires s.WellFormed() && |m.channels| == s.nChannels && ch < s.nChannels
    ensures var c, w := m.channels[ch], Lanes(s.nChannels, blocks, ch);
      Stream(s, m, blocks, ch) == Output(s, c, w) && AllBlocks(s, m, blocks).channels[ch] == NextChannel(s, c, w)
  {
    hide ChainNext, Finished, Deinterleaved;
    var c := m.channels[ch];
    if blocks == [] {
      ConverterTheorems.NothingNext(s.stages, c.fed);
      var none: seq<real> := [];
      NothingFinished(s, c.ditherer, none);
      assert none[..0] == none;
      assert c.fed + [] == c.fed;
    } else {
      var n := |blocks| - 1;
      StreamOfChannel(s, m, blocks[..n], ch);
      TwoInputs(s, c, Lanes(s.nChannels, blocks[..n], ch), Deinterleaved(s.nChannels, blocks[n], ch));
    }
  }

  /** A channel that gets its input in two parts. */
  lemma TwoInputs<D>(s: Setup<D>, c: Channel<D>, w: seq<real>, z: seq<real>)
    requires s.WellFormed()
    ensures Output(s, c, w + z) == Output(s, c, w) + Output(s, NextChannel(s, c, w), z)
    ensures NextChannel(s, c, w + z) == NextChannel(s, NextChannel(s, c, w), z)
  {
    hide ChainNext, Finished;
    ConverterTheorems.NextConcat(s.stages, c.fed, w, z);
    FinishedConcat(s.finish, c.ditherer, Converted(s, c, w), ChainNext(s.stages, c.fed + w, z));
    assert c.fed + w + z == c.fed + (w + z);
  }

  /** The peak is a bound for every sample of every channel, and is reached unless it was there before. */
  lemma {:induction false} PeakIsMax(ys: seq<real>)
    ensures Peak(ys) >= 0.0 && forall i :: 0 <= i < |ys| ==> -Peak(ys) <= ys[i] <= Peak(ys)
    ensures Peak(ys) == 0.0 || exists i :: 0 <= i < |ys| && (ys[i] == Peak(ys) || ys[i] == -Peak(ys))
  {
    if ys != [] {
      PeakIsMax(ys[..|ys| - 1]);
      assert forall i :: 0 <= i < |ys| - 1 ==> ys[..|ys| - 1][i] == ys[i];
    }
  }

  lemma {:induction false} PeakAfterIsMax(outs: seq<seq<real>>, peak: real, n: nat)
    requires n <= |outs| && peak >= 0.0
    ensures PeakAfter(outs, peak, n) >= peak
    ensures forall c, i :: 0 <= c < n && 0 <= i < |outs[c]| ==>
      -PeakAfter(outs, peak, n) <= outs[c][i] <= PeakAfter(outs, peak, n)
    ensures PeakAfter(outs, peak, n) == peak
         || (exists c, i :: 0 <= c < n && 0 <= i < |outs[c]| && outs[c][i] == PeakAfter(outs, peak, n))
         || (exists c, i :: 0 <= c < n && 0 <= i < |outs[c]| && outs[c][i] == -PeakAfter(outs, peak, n))
  {
    hide Abs, Peak;
    if n > 0 {
      PeakAfterIsMax(outs, peak, n - 1);
      PeakIsMax(outs[n - 1]);
    }
  }
}
