# ReSampler: verified models

Dafny models of the parts of ReSampler, a sample-rate converter, that carry state from call to call or transform data in
place, with proofs of what they compute. Samples are `real`, counts and indices are unbounded integers.

- **Resampling engine.** `Signals`, `FirFilter` and `FilterTheorems` model the FIR filter with its double-length buffer:
  the ghost history of all samples ever put is what the scalar, the vector and the zero-skipping sums are measured
  against. `Stage`, `StageTheorems`, `Converter` and `ConverterTheorems` put the four convert loops and the pipeline of
  stages on top of it, with one specification by streams: outputs, their number, streaming and reset.
- **Channel loop.** `ChannelLoop` is the single-threaded path over the real converters; `Channels` is the specification
  of a block and the state machine of all schedules of the channel tasks, which end each block in the same memory;
  `ChannelsProgress` shows that every schedule comes to its end, and `ChannelDither` puts the ditherers into the loop.
- **Thread pool.** `ThreadPool` and `ThreadPoolProgress` model workers, pushers and one stop(true) as interleaved atomic
  steps, with an inductive invariant, exactly-once execution, no lost wakeup, no deadlock and a decreasing measure.
- **Conversion planner.** `Fractions`, `FactorGroups` and `Planner`: greatest common divisor, factorization, the
  backtracking search over a shared array, candidates, fallback, presets and the stage rates.
- **Fourier transforms.** `Complex`, `Dft`, `Views`, `CooleyTukey`, `Bluestein`, `Rader` and `Plans`: plan trees built of
  the Cooley-Tukey, Bluestein and Rader solvers of the bundled FFTW run on strided views of arrays, and every tree
  computes the naive transform. Roots of unity are a function constrained by the laws in `Dft.RootLaws`.
- **Ditherer.** `Ditherer` models quantization with noise and error feedback, and the running error of whole runs.
- **Bitstream readers.** `Bitstreams` models the DSDIFF and DSF readers against an indexed ideal sample sequence.

`dafny verify dfyconfig.toml` checks everything.

Where the code does something else than its callers might expect, the model follows the code:

- Tap 0 of a filter meets the oldest sample, of age length - 1, and `lazyGet` leaves that term out while L < length.
  Which taps must be zero for a convert path to meet the sum without tap 0 is said by `StageTheorems.PathsAgreeIff`, in
  every build, and as a test that ends by `StageTheorems.PathsDecided`; for the paths over get() that is tap 0, and in
  vector builds the taps lost to a kernel phase at some output (`StageTheorems.GetPathsAgreeIff`).
- Each kernel phase but the first has lost its last taps, so the vector build agrees with the scalar build exactly when
  those taps are zero (`FilterTheorems.VectorEqualsScalarIff`, with a case where they differ in
  `FilterTheorems.VectorCanDiffer`).
- The first block of a factorization is limited to size - numFactors - 1 primes, so only splits with three primes or
  more in the last block are found (`FactorGroups.FoundIffSplit`), and some are missed (`FactorGroups.SplitMissed`).
- The padding with ones stops at the number of stages, so a ratio with three primes or fewer on one side, such as any
  pure interpolation or decimation, has no candidates of several stages and falls back to a single stage
  (`Planner.FewPrimesNoCandidates`). The number of primes is not the whole condition: there are candidates exactly when
  some pair of groupings passes the test of the ratios (`Planner.CandidatesExistIff`, `Planner.FallbackIff`, and
  `Planner.TwoStagesIff` for two stages), and `Planner.EnoughPrimesRejected` is a ratio with enough primes and no pair.
- Presets can have more stages than asked for: `Planner.ExceedsIff` says exactly when, and `Planner.PresetExceeds` is a
  case.
- A DSF file is read in whole groups of blocks, so beyond the end of its data unless they fill the last group
  (`DsfReader.DsfFile.EndsWithDataIff`, with a case in `DsfReader.ReadsBeyondData`), whatever number of samples its
  header announces (`DsfReader.DsfFile.TestRead`).
- The bit table of a DSF file is built before its header is read, so the bit order it uses is a parameter of the model.

## Model

| member | source | states |
|---|---|---|
| FirFilter.FIRFilter.constructor | FIRFilter.h:74-98 | from the taps, a valid filter with an empty history: phase 0 of the kernel holds the taps, and phase p holds them moved up by p and cut to the filter length |
| FirFilter.FIRFilter.Copy | FIRFilter.h:107-114 | the copy has the same taps, history and lane count, on buffers of its own |
| FirFilter.PopulatePhases | FIRFilter.h:94-97 | each phase copies only length - 1 elements of the one before, so phase p has lost the last p taps |
| FirFilter.FIRFilter.Reset | FIRFilter.h:181-192 | the history is empty again, whatever was in both halves of the buffer |
| FirFilter.FIRFilter.Write | FIRFilter.h:197-213 | one more sample in the history; the window invariant (newest samples backwards from the write position, upper half equal to the lower one below it) survives both the plain step and the wrap with its copy |
| FirFilter.FIRFilter.Put | FIRFilter.h:194-214 | the sample joins the history and becomes the last real one |
| FirFilter.FIRFilter.PutZero | FIRFilter.h:216-234 | a zero joins the history, one sample further from the last real one |
| FirFilter.NextIndexMod | FIRFilter.h:204-213 | the write position is length - 1 - n mod length after n samples |
| FirFilter.WindowWrap | FIRFilter.h:204-210 | copying the lower half at the wrap alone is enough: the double buffer then shows the whole window at the new position |
| FirFilter.FIRFilter.GetScalar | FIRFilter.h:310-316 | tap 0 meets the sample of age length - 1, and tap i the sample of age i - 1, summed over all taps |
| FirFilter.VectorDot | FIRFilter.h:292-307 | the lanes accumulated side by side and summed at the end give the dot product of the aligned window with the kernel phase |
| FirFilter.ShiftedDot | FIRFilter.h:282-297 | a window read from p positions early against the kernel moved up by p is the tap sum cut to length - p taps |
| FirFilter.FIRFilter.PhaseInside | FIRFilter.h:249-298 | the vector loop stays inside the signal buffer and the phase table for every write position |
| FirFilter.FIRFilter.GetVector | FIRFilter.h:249-307 | the vector form is the scalar sum cut to its first length - p taps, p the write position modulo the lane count |
| FirFilter.FIRFilter.Get | FIRFilter.h:236-322 | get() in any build is GetValue of the history |
| FirFilter.FIRFilter.LazyGet | FIRFilter.h:325-337 | every L-th tap from the last real sample on, for any L; on a zero-stuffed history within L samples of it, the sum over all taps but tap 0 if L < length (that sum plus kernel[0]·signal[currentIndex] is what the scalar get() gives), and what the scalar get() gives if L >= length |
| FirFilter.LazyOffset | FIRFilter.h:328-331 | the offset, its wrap undone, is the age of the last real sample modulo the length |
| FirFilter.StrideSumIsLazyValue | FIRFilter.h:325-337 | on a zero-stuffed stream the skipped taps meet only zeros |
| FirFilter.StrideSumIsWhole | FIRFilter.h:325-337 | with L >= length the one tap that is counted is the one that meets a real sample, tap 0 included |
| FilterTheorems.TapsUsedByPhase | FIRFilter.h:282-285 | how many taps each write position leaves in use |
| FilterTheorems.LostTapMatters | FIRFilter.h:94-97 | for each tap that some phase can lose there is an input on which the two builds differ by exactly that tap |
| FilterTheorems.VectorEqualsScalarIff | FIRFilter.h:249-316 | the vector build agrees with the scalar build on every input if and only if the taps a phase can lose are zero |
| FilterTheorems.VectorCanDiffer | FIRFilter.h:249-316 | an input on which they differ: two lanes, a last tap of 1 |
| Stage.ResamplingStage.constructor | srconvert.h:67-71 | a stage over a fresh filter has been fed nothing |
| Stage.ResamplingStage.Reset | srconvert.h:82-85 | the stage has been fed nothing again, and its counter is back at 0 |
| Stage.ResamplingStage.Convert | srconvert.h:73-75 | whatever path is chosen, the output is what the stage gives beyond its output so far, the rest of the buffer is unchanged, and the input joins what it has been fed; in bypass the output is the input |
| Stage.ResamplingStage.PassThrough | srconvert.h:100-104 | as many samples come out as go in, and they are the same |
| Stage.ResamplingStage.FilterOnly | srconvert.h:107-115 | L = M = 1 meets the stage specification |
| Stage.ResamplingStage.Interpolate | srconvert.h:118-134 | M = 1 meets it, with L outputs for each input |
| Stage.ResamplingStage.Decimate | srconvert.h:137-153 | L = 1 meets it, with the counter carried from call to call |
| Stage.ResamplingStage.InterpolateAndDecimate | srconvert.h:156-181 | both factors: lazyGet is called only when the counter is at 0, and the outputs are still those of the specification |
| Stage.ResamplingStage.StuffOne | srconvert.h:161-177 | one stuffed sample: put or putZero, an output when the counter is at 0, and the counter moved on |
| Stage.StageOutPrefix | srconvert.h:82-181 | what a stage has given does not depend on what it is fed later |
| StageTheorems.OutCountCeil | srconvert.h:147-149 | the counter lets ceil(n / M) of n stuffed samples through |
| StageTheorems.OutputCount | srconvert.h:118-181 | after N inputs a stage has given ceil(N·L / M) outputs |
| StageTheorems.OutputIsStreamSum | srconvert.h:107-181 | whole runs: output j is the filter sum over the zero-stuffed input at time j·M, by the sum the path in use leaves in place |
| StageTheorems.PathsAgreeIff | srconvert.h:107-181 | all four paths, in every build: every output is the sum of taps 1 to length - 1 over the zero-stuffed input, if and only if each tap that the path counts or loses against that sum, at an output where it meets an input sample, is zero |
| StageTheorems.StrayTapShows | srconvert.h:107-181 | for each such tap there is an impulse that makes one output differ by exactly that tap |
| StageTheorems.GetPathsAgreeIff | srconvert.h:107-153 | for the paths over get(), in every build, those taps are tap 0 and the ones lost to the kernel phase |
| StageTheorems.ScalarPathsAgreeIff | srconvert.h:107-153 | in the scalar build kernel[0] == 0 alone decides |
| StageTheorems.LazyPathAgrees | srconvert.h:156-181 | the path over lazyGet meets that sum whatever its taps, if L < length |
| StageTheorems.PathsDecided | srconvert.h:107-181 | the condition as a test that ends, on taps, factors and lane count alone: which taps have to be zero is found from the first length outputs or inputs, or for lazyGet with L >= length from the first L outputs |
| StageTheorems.UniformTapsAgree | srconvert.h:107-181 | a first tap of zero, and zeros in all taps that some phase loses, are enough for every path and every pair of factors |
| Converters.Converter.constructor | srconvert.h:203-218 | stages and buffers that are all different objects make a converter that has been fed nothing |
| Converters.Converter.Convert | srconvert.h:220-236 | the output is what the chain of stages gives beyond its output so far, for any number of stages; with all stages in bypass it is the input |
| Converters.Converter.ConvertStages | srconvert.h:222-232 | the loop over the stages, each reading what the one before wrote, the last writing straight to the output |
| Converters.Converter.ConvertStage | srconvert.h:227-230 | one round: the next stage turns the new samples of the chain so far into those of the longer chain |
| Converters.Converter.Reset | srconvert.h:248-256 | every stage has been fed nothing again, so the outputs that follow are those of a new converter |
| Converters.ChainOutPrefix | srconvert.h:220-236 | what a chain has given does not depend on what it is fed later |
| ConverterTheorems.ChainIsCascade | srconvert.h:220-236 | a chain gives the last of the streams that its stages, in their order, make one of the other |
| ConverterTheorems.FeedIsOneCall | srconvert.h:220-236 | streaming: however the input is cut into calls, the outputs join to those of one call |
| ConverterTheorems.NextConcat | srconvert.h:220-236 | two calls give what one call on both inputs gives |
| ConverterTheorems.ChainOutCount | srconvert.h:220-236 | the number of outputs is the nested ceilings f_i = ceil(f_(i-1)·L_i / M_i) |
| ConverterTheorems.ChainCountBounds | srconvert.h:220-236 | they exceed N times the product of the ratios by at least 0 and less than the sum, over the stages, of the products of the ratios after them |
| ConverterTheorems.SlackInFigures | srconvert.h:220-236 | that bound for one stage and for two: 1, and 1 more than the second ratio |
| ConverterTheorems.DecimationCount | srconvert.h:137-153 | for decimations alone they collapse to ceil(N / product of M_i) |
| ChannelLoop.Deinterleave | ReSampler.cpp:798-805 | each channel buffer starts with the samples of its lane of the block |
| ChannelLoop.ConversionLoop.constructor | ReSampler.cpp:583-596 | converters and buffers that are all different objects make a valid loop |
| ChannelLoop.ConversionLoop.Interleave | ReSampler.cpp:816-825 | gain and dither sample by sample, written at the lane of the channel and nowhere else, with the largest magnitude on the way |
| ChannelLoop.ConversionLoop.Process | ReSampler.cpp:811-830 | one channel: its converter, its ditherer and its lane move on as specified, and the other channels are left alone |
| ChannelLoop.ConversionLoop.ConvertBlock | ReSampler.cpp:798-838 | the single-threaded path of a block leaves converters, ditherers, output block, index and peak as OneBlock says |
| Channels.DeinterleavedAt | ReSampler.cpp:798-805 | in figures: sample f of channel ch is the one at f·nChannels + ch |
| Channels.InvKept | ReSampler.cpp:798-847 | every step of the main thread or of a worker, in any order, keeps the invariant: each channel is as far as its task says, each position of the output block holds its own sample or what was there before |
| Channels.ThreadedEqualsSequential | ReSampler.cpp:798-847 | for every sequence of blocks and every schedule, after each block output block, index, peak, converters and ditherers are those of the single-threaded path |
| Channels.OwnLaneOnly | ReSampler.cpp:816-825 | under every schedule a channel writes only positions congruent to its number modulo the channel count, at the frame it has reached |
| Channels.NeverStuck | ReSampler.cpp:798-847 | no schedule gets stuck before all blocks are done, if the output block is large enough |
| Channels.CountByLength | ReSampler.cpp:817-817 | how many samples a converter gives depends only on how many it has been fed |
| Channels.BlockInterleaves | ReSampler.cpp:807-847 | channels in step stay in step: all give the same number of frames, the index is that number times the channel count whichever channel reported last, and de-interleaving the output block gives each channel its samples back |
| Channels.StreamOfChannel | ReSampler.cpp:783-871 | over all blocks a channel writes its whole input converted at once and dithered at once: the cut into blocks does not show |
| Channels.PeakAfterIsMax | ReSampler.cpp:821-844 | the peak bounds every sample of every channel on both sides, and is reached by one of them or its negative unless it was there before |
| ChannelsProgress.StepWork | ReSampler.cpp:798-847 | every step of any thread leaves exactly one step less to take |
| ChannelsProgress.EveryScheduleCompletes | ReSampler.cpp:798-847 | every schedule is bounded by the work of its blocks, and one that cannot go on has done all blocks and left the memory of the single-threaded path |
| ThreadPool.InvInit | ctpl/ctpl_stl.h:71-76 | the invariant holds for a new pool of at least one thread |
| ThreadPool.OrderKept | ctpl/ctpl_stl.h:47-60 | the queue hands out in the order of the pushes |
| ThreadPool.MutexKept | ctpl/ctpl_stl.h:157-227 | the pool mutex has one owner, and only those past their lock are inside |
| ThreadPool.StopKept | ctpl/ctpl_stl.h:153-167 | isDone is set only when all pushes have returned; from notify_all on nobody waits; joined workers have left; nothing is discarded |
| ThreadPool.WakeupKept | ctpl/ctpl_stl.h:180-227 | a task in the queue always has somebody who must still test the queue, or notify |
| ThreadPool.CheckersKept | ctpl/ctpl_stl.h:227-227 | a worker whose pop failed can block only while the notification for a later task is still due |
| ThreadPool.LeaversKept | ctpl/ctpl_stl.h:227-230 | workers leave only when isDone is set and the queue is empty |
| ThreadPool.HeldKept | ctpl/ctpl_stl.h:209-227 | no two workers have the same task |
| ThreadPool.RunOnceKept | ctpl/ctpl_stl.h:216-222 | a task that has been run is in nobody's hands and is not run again |
| ThreadPool.NoneLostKept | ctpl/ctpl_stl.h:53-60 | every task handed out is with a worker or has been run |
| ThreadPool.InvKept | ctpl/ctpl_stl.h:142-234 | each step of each thread keeps the whole invariant |
| ThreadPool.AtMostOnce | ctpl/ctpl_stl.h:187-234 | at every moment of every run no task has been called twice, and none still queued or in hand has been called |
| ThreadPool.ExactlyOnce | ctpl/ctpl_stl.h:142-170 | when all workers have left, every pushed task has been called exactly once, the queue is empty, and the clearing after the joins discards nothing |
| ThreadPool.OneTask | ctpl/ctpl_stl.h:187-234 | a case: one task is pushed to a pool of one, taken and called |
| ThreadPool.HandedOutInOrder | ctpl/ctpl_stl.h:53-60 | in every run the next task handed out is the next one pushed |
| ThreadPool.NoWakeupIsLost | ctpl/ctpl_stl.h:155-231 | in every reachable state a queued task has a worker that must test the queue before blocking or a pusher that must still notify, and likewise for isDone and notify_all |
| ThreadPoolProgress.NoDeadlock | ctpl/ctpl_stl.h:142-234 | until stop(true) has returned, some thread can go on without a spurious wakeup |
| ThreadPoolProgress.StepDecreases | ctpl/ctpl_stl.h:142-234 | every step but a spurious wakeup decreases a measure |
| ThreadPoolProgress.WakeupsCounted | ctpl/ctpl_stl.h:227-227 | each spurious wakeup of a run counts once |
| ThreadPoolProgress.RunsAreFinite | ctpl/ctpl_stl.h:142-234 | so a run is bounded in length by the measure it starts with and five steps for each spurious wakeup in it |
| ThreadPoolProgress.EveryRunCompletes | ctpl/ctpl_stl.h:142-234 | that bound for every run of a new pool; and a run after which nothing but a spurious wakeup is possible has ended with stop(true) returned, all workers gone and every task of every pusher called exactly once |
| Fractions.Gcd | fraction.h:39-49 | the loop with two remainders a round, and negative arguments, is the Euclidean algorithm |
| Fractions.EuclidIsGcd | fraction.h:39-49 | a number divides both arguments if and only if it divides the result |
| Fractions.GetFractionFromSamplerates | fraction.h:55-61 | both rates divided by their greatest common divisor |
| Fractions.FractionIsExact | fraction.h:55-61 | both divisions are exact |
| Fractions.FractionInLowestTerms | fraction.h:55-61 | only 1 and -1 divide numerator and denominator |
| Fractions.CofactorIsPrime | fraction.h:68-80 | what has no divisor up to the square root of the number is prime |
| Fractions.Factorize | fraction.h:65-81 | ascending primes with product n for n >= 2, each without a divisor between 1 and itself, and [n] below |
| Fractions.AscendingPrimesUnique | fraction.h:65-81 | and there is only one such list |
| FactorGroups.Search | fraction.h:91-108 | the recursion over one shared array adds exactly the factorizations that the pure recursion finds with the given later entries, and leaves those entries as they were |
| FactorGroups.GetnFactors | fraction.h:86-113 | the set, in its order and without duplicates, of exactly those factorizations, each with maxFactors numbers |
| FactorGroups.FoundIffSplit | fraction.h:91-108 | they are the sorted block products of the splits into maxFactors consecutive non-empty blocks of which the last holds three primes at least, unless it is the only one |
| FactorGroups.FoundAnyIff | fraction.h:91-108 | there are any if and only if maxFactors is 1 or the list holds maxFactors + 2 primes at least |
| FactorGroups.SplitMissed | fraction.h:91-108 | a split that is missed: of 3, 7, 7 in two factors nothing is found, although 3 and 7·7 is a split |
| FactorGroups.FoundKeepsProduct | fraction.h:91-108 | each has maxFactors entries, ascending, with the product of the input |
| FactorGroups.SortIntsSorts | fraction.h:95-96 | sorting gives the same numbers in order |
| FactorGroups.LexLessIff | fraction.h:97-97 | the order of the set is that of the first difference, the smaller number first |
| FactorGroups.OrderOfLists | fraction.h:97-97 | cases of that order |
| FactorGroups.SetInsertKeepsOrder | fraction.h:97-97 | insertion keeps the set in lexicographic order and adds just the one list |
| Planner.TableIff | fraction.h:149-168 | the two loops collect exactly the accepted pairs |
| Planner.CandidateIff | fraction.h:128-171 | a plan is a candidate if and only if it pairs a grouping of the padded numerator primes with one of the padded denominator primes and passes the test of the ratios |
| Planner.CandidatesInOrder | fraction.h:128-171 | each candidate comes once, ordered by numerators and then by denominators |
| Planner.CandidatesExistIff | fraction.h:128-171 | the list is non-empty if and only if some pair passes |
| Planner.TwoStagesIff | fraction.h:128-171 | for two stages: if and only if the primes can be cut, one or more in front and three or more behind, such that the smaller products make a first ratio of min(1, f) at least |
| Planner.UpFirst | fraction.h:176-196 | a case: 50 kHz to 44.1 kHz in three stages at most gives 3/2 and 147/250, as 3/4 first would fall below both ends |
| Planner.PadInFigures | fraction.h:135-141 | the primes stand at the end, with ones in front |
| Planner.EnoughPrimesRejected | fraction.h:128-196 | a case: 88/81 has four primes on each side, and still no candidate in two stages, so it falls back to one |
| Planner.BestStages | fraction.h:176-196 | the fallback has the largest number of stages, up to the limit, for which some pair passes |
| Planner.FallbackIff | fraction.h:176-196 | it is [f] if and only if no number of stages from 2 up to the limit has a pair that passes |
| Planner.BestIsLastPair | fraction.h:176-196 | of the pairs that pass for its number of stages it is the last in order |
| Planner.TryPair | fraction.h:151-161 | a pair is rejected exactly when some prefix but the whole has a ratio below both 1 and f, by cross-multiplication of the products, and fills the group otherwise |
| Planner.PairUp | fraction.h:149-168 | the candidates are the accepted pairs, in order |
| Planner.GetConversionStageCandidates | fraction.h:128-171 | the accepted pairs of the factorizations of numerator and denominator, padded with ones to the number of stages |
| Planner.CandidateListUnique | fraction.h:128-171 | a ratio and a limit on the stages have just one candidate list |
| Planner.FewPrimesNoCandidates | fraction.h:128-171 | for two stages or more the list is empty unless numerator and denominator both have two primes more than there are stages, since ones are padded only up to the number of stages |
| Planner.CandidatesMeet | fraction.h:128-171 | every candidate multiplies to f exactly, with every prefix ratio at least min(1, f), in at most maxStages stages; with one stage there is just the candidate [f] |
| Planner.GetBestConversionStagesCandidate | fraction.h:176-196 | the fallback ends with the last candidate for the largest number of stages that has any; with three primes or fewer on one side that is [f] |
| Planner.BestNeedsPrimes | fraction.h:176-196 | a fallback to several stages has two stages fewer than either list has primes, and one to a single stage is [f] |
| Planner.PresetRates | fraction.h:224-230 | in figures: the rates on the way through each of the seven presets, from its denominator to its numerator, without a remainder |
| Planner.PresetMeets | fraction.h:222-231 | every preset multiplies back to its master ratio, with every prefix ratio at least min(1, f) |
| Planner.GetConversionStages | fraction.h:201-242 | path by path the single stage, the preset or the best candidate, under all policies; each a non-empty plan whose numerators and denominators multiply to those of f with no prefix ratio below both 1 and f, by cross-multiplication |
| Planner.ExceedsIff | fraction.h:201-242 | the plan has more stages than maxStages if and only if maxStages is 0 or less, or maxStages is 2 and f has a preset of three, under all policies |
| Planner.PresetExceeds | fraction.h:201-242 | a case: 147/160 in at most two stages gives three |
| Planner.WholeRatio | fraction.h:154-157 | the running ratio over the whole plan is f exactly |
| Planner.NextRate | srconvert.h:298-298 | the integer division of a stage rate leaves no remainder |
| Planner.RatesAlong | srconvert.h:291-397 | so the rates follow the stage ratios exactly to the end |
| Planner.StageRates | srconvert.h:281-298 | from any input rate and any limit on the stages, the rates end at the requested output rate |
| Dft.CooleyTukey | android/src/fftw-3.3.8/dft/ct.c:34-58 | for n = r·m the r-point transforms of the twiddled m-point transforms are the n-point transform |
| Dft.TransformOfUnit | android/src/fftw-3.3.8/dft/ct.c:34-58 | the sign: a unit at place p becomes the roots at -p·k |
| Dft.Inversion | android/src/fftw-3.3.8/dft/bluestein.c:113-117 | undoing a transform gives back n times the element |
| Dft.ConvolutionTheorem | android/src/fftw-3.3.8/dft/bluestein.c:99-117 | the inverse of a product of transforms is n times the cyclic convolution |
| CooleyTukeySteps.DitIsTransform | android/src/fftw-3.3.8/dft/ct.c:34-45 | columns to rows, twiddle, columns in place: the naive transform |
| CooleyTukeySteps.DifIsTransform | android/src/fftw-3.3.8/dft/ct.c:47-58 | columns in place, twiddle, rows to columns: the naive transform |
| Views.ColumnSteps | android/src/fftw-3.3.8/dft/ct.c:145-209 | the offset and stride given to a child select exactly its column of the r by m table |
| Views.SegmentSteps | android/src/fftw-3.3.8/dft/ct.c:145-209 | the offset and stride given to a child select exactly its row of the table |
| Views.ColumnsApart | android/src/fftw-3.3.8/dft/ct.c:145-209 | different columns share no element |
| Views.SegmentsApart | android/src/fftw-3.3.8/dft/ct.c:145-209 | different rows share no element |
| Plans.MkTwiddle | android/src/fftw-3.3.8/dft/dftw-generic.c:41-49 | row p, column k - 1 of the table is the root at p·k |
| Plans.ByTwiddle | android/src/fftw-3.3.8/dft/dftw-generic.c:51-76 | in each transform of a vector and in the columns from mb to me, element k of row p is multiplied by the conjugate root at p·k, though row 0 and column 0 are skipped; the other columns are unchanged |
| Plans.TransformColumns | android/src/fftw-3.3.8/dft/dftw-generic.c:133-160 | the child: from column mb on, me - mb columns of each transform of the vector are replaced by their r-point transforms, the others are left alone |
| Plans.ApplyDftw | android/src/fftw-3.3.8/dft/dftw-generic.c:88-110 | the whole step, twiddles first or last, on the columns from mb to me |
| Plans.Apply | android/src/fftw-3.3.8/dft/ct.c:34-58 | every plan tree of these solvers writes exactly the naive transform of its input, in place or not, and touches nothing outside its two views |
| Plans.GatherAt | android/src/fftw-3.3.8/dft/ct.c:34-58 | in figures: element t of a strided vector stands at offset + t·stride |
| Plans.SomeTrees | android/src/fftw-3.3.8/dft/ct.c:34-58 | there are plan trees of every kind, of any radix over any rest |
| Plans.ApplyStrided | android/src/fftw-3.3.8/dft/ct.c:34-58 | the same from pointers, offsets and strides: the strided elements of the output are the naive transform of those of the input, and no others change |
| Plans.PlannedSteps | android/src/fftw-3.3.8/dft/ct.c:143-213 | the plans of ct.c, with one step for all columns, and those of the threaded planner, with one for each range, are well formed |
| Plans.ApplyDit | android/src/fftw-3.3.8/dft/ct.c:34-45 | decimation in time, on arrays, in place or not: the naive transform |
| Plans.ApplyDif | android/src/fftw-3.3.8/dft/ct.c:47-58 | decimation in frequency, on arrays, in place or not: the naive transform, the input being used up |
| Plans.ApplyParts | android/src/fftw-3.3.8/threads/ct.c:47-80 | the steps of all ranges of columns, in any order, do what one step for all columns does |
| CooleyTukeySteps.ThreadRangesDivide | android/src/fftw-3.3.8/threads/ct.c:142-160 | the blocks given to the threads share no column, lie inside the table, and leave no column out |
| CooleyTukeySteps.NextRange | android/src/fftw-3.3.8/threads/ct.c:47-80 | a range finds its columns as they were, whichever ranges have been done before |
| Plans.BluesteinSequence | android/src/fftw-3.3.8/dft/bluestein.c:37-50 | element k is the 2n-th root at k squared, though ksq is kept reduced |
| Plans.FillKernel | android/src/fftw-3.3.8/dft/bluestein.c:64-73 | the chirp and its mirror image, scaled, with zeros between |
| Plans.AwakeBluestein | android/src/fftw-3.3.8/dft/bluestein.c:52-80 | the chirp, and the transform of the kernel |
| Plans.ChirpInput | android/src/fftw-3.3.8/dft/bluestein.c:89-97 | the input times the conjugate chirp, padded with zeros |
| Plans.MultiplySwapped | android/src/fftw-3.3.8/dft/bluestein.c:105-111 | the pointwise product with its parts exchanged |
| Plans.Convolve | android/src/fftw-3.3.8/dft/bluestein.c:99-117 | transform, product with the kernel, and inverse transform by exchanged parts, in place on the buffer |
| Plans.ApplyBluestein | android/src/fftw-3.3.8/dft/bluestein.c:82-128 | the naive transform for every n, whenever nb is at least 2n - 1 |
| BluesteinSteps.KernelAt | android/src/fftw-3.3.8/dft/bluestein.c:67-73 | at the wrapped distance between two of the first n points the kernel is the chirp at their difference |
| BluesteinSteps.SwappedTransform | android/src/fftw-3.3.8/dft/bluestein.c:113-117 | a forward transform of swapped data is the swapped inverse transform |
| BluesteinSteps.BluesteinOutput | android/src/fftw-3.3.8/dft/bluestein.c:82-125 | so output k is the naive transform at k |
| Plans.MkOmega | android/src/fftw-3.3.8/dft/rader.c:45-74 | the transform of the conjugate roots at the powers of ginv, scaled |
| Plans.PermuteInput | android/src/fftw-3.3.8/dft/rader.c:107-112 | entry k is the input at g^k |
| Plans.RaderForward | android/src/fftw-3.3.8/dft/rader.c:106-144 | the transform of the permuted input, the DC output, and the product with omega that also adds input 0 |
| Plans.UnpermuteOutput | android/src/fftw-3.3.8/dft/rader.c:152-161 | output ginv^k is entry k, conjugated, and output 0 is left alone |
| Plans.ApplyRader | android/src/fftw-3.3.8/dft/rader.c:95-165 | the naive transform |
| RaderSteps.PowDistinct | android/src/fftw-3.3.8/dft/rader.c:107-112 | the powers below n - 1 of a generator are all different |
| RaderSteps.PowerOrderIsPermutation | android/src/fftw-3.3.8/dft/rader.c:107-112 | so the loop reads each index from 1 to n - 1 exactly once |
| RaderSteps.InverseIsGenerator | android/src/fftw-3.3.8/dft/rader.c:152-161 | ginv is a generator too, so the output loop writes each index once and its power returns to 1 |
| RaderSteps.InverseByPower | android/src/fftw-3.3.8/dft/rader.c:183-185 | g^(n - 2) is the inverse of g |
| RaderSteps.RaderDC | android/src/fftw-3.3.8/dft/rader.c:122-126 | the DC output is the sum of the input |
| RaderSteps.RaderOutput | android/src/fftw-3.3.8/dft/rader.c:128-161 | output ginv^k of the naive transform is entry k of the last transform, conjugated |
| Dither.Ditherer.constructor | ditherer.h:111-217 | a ditherer with no errors yet, silent when auto-blanking is on |
| Dither.Ditherer.Reset | ditherer.h:225-246 | the state of a new ditherer at the present dither level |
| Dither.ShapeError | ditherer.h:417-435 | the filter sum over the stored errors, coefficient k meeting the error k + 1 samples back, and the history moved on |
| Dither.Ditherer.GenerateNoise | ditherer.h:345-370 | the difference of two draws, of a draw and the last one, or 2^23 less a draw, never beyond randMax |
| Dither.Ditherer.AutoBlank | ditherer.h:272-288 | a sample strictly between the thresholds is silent and moves the count on; after 30000 of them the level decays by 0.9995, below the cutoff it and the volume become 0, and any other sample restores all three |
| Dither.SilenceMutes | ditherer.h:272-288 | after n silent samples: the level unchanged up to the time threshold, then decayed by one factor for each sample, and the output muted exactly when the level has fallen below the cutoff |
| Dither.SoundRestores | ditherer.h:272-288 | over any run, whatever the state before: after a sample that is not silent the state depends only on the silence since the last such sample |
| Dither.MutedIff | ditherer.h:272-288 | over any run with sound in it, the output is muted if and only if the silence since has outlasted the threshold and the decayed level is below the cutoff |
| Dither.Ditherer.Quantize | ditherer.h:292-294 | a whole number of steps: at full volume the number nearest to the sum of input and noise, and of two equally near ones the one further from 0 |
| Dither.RoundToGrid | ditherer.h:294-294 | the same for the rounding alone |
| Dither.NoneNearer | ditherer.h:294-294 | no other point of the target format is nearer, and one as near has the smaller magnitude |
| Dither.Ditherer.DitherSample | ditherer.h:270-297 | one call on the mutable ditherer is one step of a function of its errors, level, volume and last draw; out - in is the new error, less the last one or the filtered earlier ones if there is feedback; the output is a whole number of steps, at full volume the nearest to what has been made of the input, and the error is bounded |
| Dither.FeedbackOfOne | ditherer.h:417-435 | an error alone, k + 1 samples back, comes back times coefficient k |
| Dither.QuantizationError | ditherer.h:294-294 | rounding moves a value by at most half a step |
| Dither.ErrorTelescopes | ditherer.h:290-297 | for the flat profiles with feedback the running sum of out - in is the last error |
| Dither.NoDrift | ditherer.h:290-297 | so it never exceeds the bound on one error |
| Dither.DitherBlock | ditherer.h:270-297 | over whole runs from a fresh ditherer: the feedback equation at each sample and, without auto-blanking, the bound of half a step plus randMax·ditherScaleFactor on the running sum |
| ChannelDither.FinishSample | ReSampler.cpp:820-820 | without dither the output is gain·x; with it, gain·x and the new error less the feedback of the earlier ones; both are the function of state and sample that the channel loop applies |
| ChannelDither.ChannelDoesNotDrift | ReSampler.cpp:783-871 | under every schedule: what a channel has written after a block obeys the feedback equation of its ditherer over its whole input converted at once; with a flat profile with error correction the running sum is off by the last error alone, and without auto-blanking by no more than half a step plus randMax·maxDitherScaleFactor |
| Bitstreams.SamplesOfByte | dff.h:594-602 | a byte is the sum of the weights of its bits whose sample is 1 |
| Bitstreams.MakeTbl | dff.h:594-602 | for both bit orders: every sample is 1 or -1, and a byte is the sum of the weights 128 to 1, or 1 to 128, of its samples that are 1, in playing order |
| DsdiffReader.IdealSampleAt | dff.h:239-276 | the ideal sequence holds the bit of each byte group, turn and channel at the place of that triple |
| DsdiffReader.DffFile.constructor | dff.h:158-190 | a reader at the start of the data, with an empty buffer, for a file that may be cut short |
| DsdiffReader.DffFile.ReadBlocks | dff.h:580-592 | the next bytes of the data, up to a buffer full, none at the end, and an exception exactly where a file that is cut short no longer fills the buffer |
| DsdiffReader.DffFile.Read | dff.h:239-276 | the next slice of the ideal sequence, with the rest of the buffer unchanged; short only at the end of what can be read, and with an exception exactly there in a file cut short, once |
| DsdiffReader.DffFile.TestRead | dff.h:283-293 | reading until nothing comes gives all that was left, in order: 8·totalSoundDataBytes samples in all, as many as the header announces, or those of the whole buffers of a file cut short, within 4096 bytes a channel of its end |
| DsdiffReader.DffFile.Rewind | dff.h:295-309 | a seek to 0 starts the sequence again, after an exception too |
| DsfReader.IdealSampleAt | dsf.h:187-206 | the ideal sequence holds the bit of each byte, turn and channel, found in that channel's block |
| DsfReader.DsfFile.constructor | dsf.h:99-134 | a reader at the start of the data, with empty channel buffers, for data of any length in a file that may be cut short |
| DsfReader.DsfFile.ReadBlocks | dsf.h:385-394 | the next block into each channel buffer, nothing from the end of the data on, and an exception exactly where the file does not hold the whole group of blocks |
| DsfReader.DsfFile.Read | dsf.h:183-233 | the next slice of the ideal sequence, with the rest of the buffer unchanged; short only at the end of what can be read, the last group being read whole, and with an exception exactly there in a file cut short |
| DsfReader.DsfFile.TestRead | dsf.h:238-252 | reading until nothing comes gives all that was left, in order, and an exception exactly in a file cut short; from the start on, the total is the number expected if and only if the frames of the header fill the last group of blocks |
| DsfReader.DsfFile.EndsWithDataIff | dsf.h:183-233 | what is read ends with the data if and only if the data fill the last group of blocks |
| DsfReader.ReadsBeyondData | dsf.h:183-233 | a case where it does not |
| DsfReader.DsfFile.Rewind | dsf.h:254-266 | a seek to 0 starts the sequence again, after an exception too |

## Left out

- Floating point: rounding, NaN and infinity; the doubles of the prefix test and of the square root in the planner are exact here.
- SIMD instructions as such: lanes are a short sequence, added and multiplied element by element.
- Integer widths: the `unsigned` product of a stage rate, the `int` factors, FFTW's `INT` and its modular multiplication can overflow in the source.
- `setBypassMode`: a stage keeps the path it was built with, as nothing calls it.
- Stage.ResamplingStage.constructor: the filter has had no samples, as the source builds it just before the stage.
- Stage.ResamplingStage.Convert: the room in the output buffer is a precondition, because the source sizes it elsewhere.
- Converters.Converter.Convert: the room in the intermediate buffers is a precondition, as they are sized by one ceiling of the cumulative ratio while the counts are nested ceilings.
- Converters.Converter.constructor: filter design (low-pass, Kaiser window, minimum phase), gain and group delay are not modelled; stages come ready made.
- The move constructor of the filter, buffer alignment and allocation.
- Channels.ThreadedEqualsSequential: a call of convert on a channel is one step, as it touches only that channel's objects; the ditherer of a channel is any function of its own state, which `ChannelDither.FinishSample` shows the modelled ditherer to be.
- Channels.NeverStuck: a task that has been pushed may start at any moment, which allows every order in which the thread pool starts its tasks; the pool's own steps are in `ThreadPool`.
- The rest of `convert()`: file I/O, temporary files, metadata, effects, group delay trimming, progress, clipping retries.
- Thread pool: resize, user calls to pop, stop(false) and the flags, the waiting count, exceptions, futures, the Boost variant; the lock of the queue makes its push and pop one step each.
- Planner.GetConversionStages: the two compile-time policies are parameters, so that all paths are covered.
- Fractions.GetFractionFromSamplerates: two zero rates are excluded, as the source then divides by zero.
- FFTW: planner, wisdom, codelets, registration and API; `find_generator` and the trigonometric tables are contracts (`RaderSteps.IsGenerator`, `Dft.RootLaws`); `choose_transform_size` only as nb >= 2n - 1.
- Plans.Apply: real and imaginary pointers are one array of complex numbers, a child whose input and output share an array runs from a copy of its input, and the cache of omega tables is not modelled.
- Plans.ApplyParts: the threads run one after the other, in any order, as they share no element.
- Plans.ApplyDit: one transform; the vector loop of a problem with several is modelled in the twiddle step only.
- FFTW's DECDIF+TRANSPOSE (ct.c:167-188): only the solver of the generated square codelets plans it (dftw-directsq.c:161); dftw-generic.c plans the other two.
- Dither.Ditherer.constructor: the legacy profile (ten coefficients declared over a table of one), the biquad filters, Gaussian and impulse noise and adjustGain are not modelled; random draws are parameters.
- Dither.Ditherer.Reset: the biquad filters and the re-seeding of the random number generator, as random draws are parameters.
- Dither.Ditherer.GenerateNoise: the Gaussian, impulse and legacy generators.
- ChannelLoop.ConversionLoop.constructor: converters, ditherers and buffers are handed in ready made.
- DsdiffReader.DffFile.constructor: headers and chunks are not parsed; the sound data is a multiple of the channel count, as the header reader asserts.
- DsfReader.DsfFile.constructor: headers are not parsed; the block size and up to six channels are parameters.
- Seeks to other places than the start, and failures of file streams other than reads past the end of the file.
- IQ and MPX demodulation, the phase-locked loop, command line, CSV output, alignment helpers.
