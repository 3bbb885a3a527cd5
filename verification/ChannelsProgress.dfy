/** Schedules of the channel tasks cannot go on forever: every one takes the same number of steps to the end. */
module ChannelsProgress {
  import opened Channels

  /** The steps that a task has still to take, when its channel gives `total` samples. */
  function TaskWork(t: Task, total: nat): int {
    match t
    case Absent => total + 3
    case Queued => total + 2
    case Looping(oBuf, f, _, _) => |oBuf| - f + 1
    case Returned(_, _) => 0
  }

  ghost function TasksWork(tasks: seq<Task>, outs: seq<seq<real>>, n: nat): int
    requires n <= |tasks| == |outs|
  {
    if n == 0 then 0 else TasksWork(tasks, outs, n - 1) + TaskWork(tasks[n - 1], |outs[n - 1]|)
  }

  lemma {:induction false} TasksWorkUpdate(tasks: seq<Task>, outs: seq<seq<real>>, n: nat, ch: nat, t: Task)
    requires n <= |tasks| == |outs| && ch < |tasks|
    ensures TasksWork(tasks[ch := t], outs, n) == TasksWork(tasks, outs, n) +
      if ch < n then TaskWork(t, |outs[ch]|) - TaskWork(tasks[ch], |outs[ch]|) else 0
  {
    if n > 0 { TasksWorkUpdate(tasks, outs, n - 1, ch, t); }
  }

  lemma {:induction false} TasksWorkDone(tasks: seq<Task>, outs: seq<seq<real>>, n: nat)
    requires n <= |tasks| == |outs| && forall ch :: 0 <= ch < n ==> tasks[ch].Returned?
    ensures TasksWork(tasks, outs, n) == 0
  {
    if n > 0 { TasksWorkDone(tasks, outs, n - 1); }
  }

  ghost function Fresh(n: nat): (tasks: seq<Task>)
    ensures |tasks| == n
  {
    seq(n, _ => Absent)
  }

  /** All steps of a block: its reading, what its tasks take from the push on, and the collecting of the results. */
  ghost function BlockWork<D>(s: Setup<D>, m: Memory<D>, block: seq<real>): int
    requires s.WellFormed() && |m.channels| == s.nChannels
  {
    1 + s.nChannels + TasksWork(Fresh(s.nChannels), Outputs(s, m, block), s.nChannels)
  }

  /** All steps of the blocks from block `j` on. */
  ghost function LaterWork<D>(s: Setup<D>, m0: Memory<D>, blocks: seq<seq<real>>, j: nat): int
    requires s.WellFormed() && |m0.channels| == s.nChannels && j <= |blocks|
    decreases |blocks| - j
  {
    if j == |blocks| then 0
    else BlockWork(s, AllBlocks(s, m0, blocks[..j]), blocks[j]) + LaterWork(s, m0, blocks, j + 1)
  }

  function ToCollect(main: MainPc, n: nat): int {
    match main
    case BetweenBlocks => 0
    case Pushing(_) => n
    case Collecting(next) => n - next
  }

  /** The steps that are left. */
  ghost function Work<D>(s: Setup<D>, m0: Memory<D>, blocks: seq<seq<real>>, x: Machine<D>): int
    requires Shape(s, x) && |m0.channels| == s.nChannels
    requires x.done <= |blocks| && (x.main != BetweenBlocks ==> x.done < |blocks|)
  {
    if x.main == BetweenBlocks then LaterWork(s, m0, blocks, x.done)
    else
      var outs := Outputs(s, AllBlocks(s, m0, blocks[..x.done]), blocks[x.done]);
      TasksWork(x.tasks, outs, s.nChannels) + ToCollect(x.main, s.nChannels) + LaterWork(s, m0, blocks, x.done + 1)
  }

  /** A step of channel `ch` leaves it one step less to take. */
  lemma ChannelStep<D>(s: Setup<D>, m: Memory<D>, block: seq<real>, blocks: seq<seq<real>>, x: Machine<D>, l: Step)
    requires Shape(s, x) && |m.channels| == s.nChannels && Enabled(s, blocks, x, l) && InBlock(s, m, block, x)
    requires l.Convert? || l.Sample? || l.Return?
    ensures var y, outs := Next(s, blocks, x, l), Outputs(s, m, block);
      y.main == x.main && y.done == x.done &&
        TasksWork(y.tasks, outs, s.nChannels) == TasksWork(x.tasks, outs, s.nChannels) - 1
  {
    hide BlockKept, MainKept, Deinterleaved, Output, Finished, Peak, Position, TasksWork, Max, NextChannel, Converted;
    var outs := Outputs(s, m, block);
    assert ChannelKept(s, l.ch, m.channels[l.ch], x.inputs[l.ch], x.tasks[l.ch], x.memory.channels[l.ch]);
    assert |outs[l.ch]| == |Converted(s, m.channels[l.ch], x.inputs[l.ch])|;
    TasksWorkUpdate(x.tasks, outs, s.nChannels, l.ch, Next(s, blocks, x, l).tasks[l.ch]);
    assert l.Convert? ==> x.memory.channels[l.ch] == m.channels[l.ch];
  }

  /** So does a step of the main thread within a block. */
  lemma MainStepWork<D>(s: Setup<D>, m: Memory<D>, block: seq<real>, blocks: seq<seq<real>>, x: Machine<D>, l: Step)
    requires Shape(s, x) && |m.channels| == s.nChannels && Enabled(s, blocks, x, l) && InBlock(s, m, block, x)
    requires l == PushTask || (l == Collect && x.main.next + 1 < s.nChannels)
    ensures var y, outs := Next(s, blocks, x, l), Outputs(s, m, block);
      && y.main != BetweenBlocks && y.done == x.done
      && TasksWork(y.tasks, outs, s.nChannels) + ToCollect(y.main, s.nChannels)
         == TasksWork(x.tasks, outs, s.nChannels) + ToCollect(x.main, s.nChannels) - 1
  {
    hide BlockKept, TasksKept, Outputs, TasksWork, Max, PeakAfter, Position;
    if l == PushTask {
      TasksWorkUpdate(x.tasks, Outputs(s, m, block), s.nChannels, x.main.next, Queued);
    }
  }

  lemma LastCollect<D>(s: Setup<D>, m: Memory<D>, block: seq<real>, blocks: seq<seq<real>>, x: Machine<D>)
    requires Shape(s, x) && |m.channels| == s.nChannels && Enabled(s, blocks, x, Collect) && InBlock(s, m, block, x)
    requires x.main.next + 1 == s.nChannels
    ensures TasksWork(x.tasks, Outputs(s, m, block), s.nChannels) == 0 && ToCollect(x.main, s.nChannels) == 1
  {
    hide BlockKept, TasksKept, Outputs, TasksWork;
    AllReturned(s, m, block, blocks, x);
    TasksWorkDone(x.tasks, Outputs(s, m, block), s.nChannels);
  }

  /** Every step, whoever takes it, leaves exactly one step less. */
  lemma StepWork<D>(s: Setup<D>, m0: Memory<D>, blocks: seq<seq<real>>, x: Machine<D>, l: Step)
    requires Shape(s, x) && |m0.channels| == s.nChannels && Enabled(s, blocks, x, l)
    requires Inv(s, m0, blocks, x) && Inv(s, m0, blocks, Next(s, blocks, x, l))
    ensures Work(s, m0, blocks, Next(s, blocks, x, l)) == Work(s, m0, blocks, x) - 1
  {
    hide AllBlocks, InBlock, Outputs, TasksWork, OneBlock;
    StepPlace(s, blocks, x, l);
    if x.main == BetweenBlocks {
      assert Next(s, blocks, x, l).tasks == Fresh(s.nChannels);
    } else {
      var m, block := AllBlocks(s, m0, blocks[..x.done]), blocks[x.done];
      if l == Collect && x.main.next + 1 == s.nChannels {
        LastCollect(s, m, block, blocks, x);
      } else if l == Collect || l == PushTask {
        MainStepWork(s, m, block, blocks, x, l);
      } else {
        ChannelStep(s, m, block, blocks, x, l);
      }
    }
  }

  lemma {:induction false} ScheduleWork<D>(s: Setup<D>, m0: Memory<D>, blocks: seq<seq<real>>, x: Machine<D>,
    ls: seq<Step>)
    requires Shape(s, x) && |m0.channels| == s.nChannels && IsSchedule(s, blocks, x, ls) && Inv(s, m0, blocks, x)
    ensures Inv(s, m0, blocks, After(s, blocks, x, ls))
    ensures |ls| + Work(s, m0, blocks, After(s, blocks, x, ls)) == Work(s, m0, blocks, x)
    decreases ls
  {
    hide Next, Enabled, Work, InBlock, AllBlocks;
    if ls != [] {
      InvKept(s, m0, blocks, x, ls[0]);
      StepWork(s, m0, blocks, x, ls[0]);
      ScheduleWork(s, m0, blocks, Next(s, blocks, x, ls[0]), ls[1..]);
    }
  }

  /** The work that is left is never negative. */
  lemma {:induction false} TasksWorkAtLeast(tasks: seq<Task>, outs: seq<seq<real>>, n: nat)
    requires n <= |tasks| == |outs|
    requires forall ch :: 0 <= ch < n && tasks[ch].Looping? ==> tasks[ch].f <= |tasks[ch].oBuf|
    ensures TasksWork(tasks, outs, n) >= 0
  {
    if n > 0 { TasksWorkAtLeast(tasks, outs, n - 1); }
  }

  lemma {:induction false} LaterWorkAtLeast<D>(s: Setup<D>, m0: Memory<D>, blocks: seq<seq<real>>, j: nat)
    requires s.WellFormed() && |m0.channels| == s.nChannels && j <= |blocks|
    ensures LaterWork(s, m0, blocks, j) >= 0
    decreases |blocks| - j
  {
    hide TasksWork, Outputs, AllBlocks;
    if j < |blocks| {
      LaterWorkAtLeast(s, m0, blocks, j + 1);
      TasksWorkAtLeast(Fresh(s.nChannels), Outputs(s, AllBlocks(s, m0, blocks[..j]), blocks[j]), s.nChannels);
    }
  }

  lemma WorkAtLeast<D>(s: Setup<D>, m0: Memory<D>, blocks: seq<seq<real>>, x: Machine<D>)
    requires Shape(s, x) && |m0.channels| == s.nChannels && Inv(s, m0, blocks, x)
    ensures Work(s, m0, blocks, x) >= 0
  {
    hide TasksWork, Outputs, AllBlocks, BlockKept, Deinterleaved, Output, Finished, Peak, Position, NextChannel,
      Converted, PeakAfter;
    if x.main == BetweenBlocks {
      LaterWorkAtLeast(s, m0, blocks, x.done);
    } else {
      var m := AllBlocks(s, m0, blocks[..x.done]);
      forall ch | 0 <= ch < s.nChannels && x.tasks[ch].Looping? ensures x.tasks[ch].f <= |x.tasks[ch].oBuf| {
        assert ChannelKept(s, ch, m.channels[ch], x.inputs[ch], x.tasks[ch], x.memory.channels[ch]);
      }
      TasksWorkAtLeast(x.tasks, Outputs(s, m, blocks[x.done]), s.nChannels);
      LaterWorkAtLeast(s, m0, blocks, x.done + 1);
    }
  }

  /**
   * No schedule takes more steps than the blocks have, and one that cannot be continued has done all blocks and left
   * the memory of the single-threaded path.
   */
  lemma EveryScheduleCompletes<D>(s: Setup<D>, m0: Memory<D>, blocks: seq<seq<real>>, ls: seq<Step>)
    requires s.WellFormed() && |m0.channels| == s.nChannels && IsSchedule(s, blocks, Start(s, m0), ls)
    requires forall i :: 0 <= i < |blocks| ==> Channels.Fits(s, AllBlocks(s, m0, blocks[..i]), blocks[i])
    ensures |ls| <= LaterWork(s, m0, blocks, 0)
    ensures var x := After(s, blocks, Start(s, m0), ls);
      (forall l :: !Enabled(s, blocks, x, l)) ==> x.done == |blocks| && x.memory == AllBlocks(s, m0, blocks)
  {
    hide Inv, After, IsSchedule, Next, Channels.Fits, LaterWork, AllBlocks;
    var x := After(s, blocks, Start(s, m0), ls);
    StartInv(s, m0, blocks);
    ScheduleWork(s, m0, blocks, Start(s, m0), ls);
    WorkAtLeast(s, m0, blocks, x);
    NeverStuck(s, m0, blocks, ls);
    ThreadedEqualsSequential(s, m0, blocks, ls);
    assert blocks[..|blocks|] == blocks;
  }
}
