# Verified model of UHD host algorithms

A Dafny 4.11 model of the self-contained algorithms in the UHD host tree, with proofs of what they
keep, undo and compute. `dafny verify dfyconfig.toml` checks everything.

| modules | what they model |
|---|---|
| `FsPath`, `Dict`, `TreeSpec`, `PropertyTree`, `TreeLaws` | the property tree: path strings, the heap trie shared by any number of views, its flat meaning, and laws over views and whole runs |
| `PrintTree` | the recursive tree walk of `uhd_usrp_probe` |
| `CalibrationSearch`, `CalibrationLaws`, `Calibration` | the shrinking grid search of the three self-calibration programs, and their frequency loops |
| `RxGain`, `TxBuffer`, `TxTone` | the receive-gain sweep of `usrp_cal_utils.hpp`, its wrap-around transmit buffer, and the length it gives that buffer |
| `Complex`, `Fft`, `DftPlot` | the recursive transform, the reordering and the column binning of `ascii_art_dft.hpp` |
| `DeviceHash`, `DeviceFind`, `DeviceCache` | address hashing, discovery filtering, and the weak-pointer device cache |
| `Eeprom` | the two EEPROM layouts of a B2xx device and the in-place migration |
| `FindDevices`, `Waveform`, `HopQueue` | grouping by serial with erasure, the phase accumulator, and the bounded command queue of the TwinRX hopping example |
| `CounterSet`, `SideLog` | the nested counters and the log reader of the B2xx side channel |
| `Paths`, `Arithmetic`, `Modular`, `Wrappers` | chains of names, small facts about numbers, remainders, and an option type |

## How it is built

The property tree is a heap of `Node` objects that are changed in place. A ghost map names every
reachable node by its path, so the tree's meaning is a flat map from paths to a property and an
ordered list of children. Each method is proved to turn that flat map into exactly what a
specification function says; `TreeLaws` proves the laws about those functions.

Loops of the source are loops here. Where a source function nests several loops, each loop is a
method of its own with a contract.

Numbers that are `double` in the source are exact reals here, so loop counts are those of exact
arithmetic. Measurements, transmit errors, serial matching, `boost::hash_combine`, device makers
and the roots of unity are arbitrary parameters, constrained only where a law says so.

## Where the code differs from what its comments, messages or names suggest

- `remove` and `pop` look up the last string component, not the last token. A path written with a
  trailing slash, and the empty path of a view, exist but can never be removed (`RemoveEffect`,
  `PopEffect`, `ViewRootNotRemovable`).
- `branch_path` of a path without a slash is the path itself, so branch and leaf then repeat the
  name (`BranchAndLeafSplit`).
- The IQ searches start from zero suppression, not from the uncorrected value. With a negative
  uncorrected suppression, and only then, a result is kept even when nothing measured beats it
  (`IqKeepsWithoutImprovement`), and its value then need not come from any capture
  (`IqKeepsTheHighestAboveZero`, `IqKeepsNoCorrection`).
- `tx_thread` aligns its buffer to a complete wave to send without discontinuity. Up to the sample
  rate the length is a period exactly when its two truncations lose the same fraction of a sample
  (`BufferIsPeriodIff`), as they do for a whole rate and frequency (`IntegersArePeriodic`).
  `StreamSeamlessIff` says exactly when the stream sent has no seam. At 1.5 Hz and a rate of 1000 it
  has one for every frame length but the multiples of 1334000 (`FractionalToneHasSeam`). Below one hertz the length is zero,
  and the loop divides by it (`BuffSizePositive`).
- `dft_to_plot` says it puts DC in the centre. DC lands one position to the right of it
  (`DcIsRightOfCentre`), and for an even bin count the last bin is dropped (`KeptBins`).
- The power-of-two test of `log_pwr_dft` lets an empty input through (`PowerTestAdmits`).
- Loading a bootloader keeps the identity record even when it stops after any byte
  (`LoadKeepsRecord`, `MigrationInterrupted`); unloading does not (`UnloadInterrupted`). A device with
  neither signature is not migrated and can lose its record (`LoadKeepsRecordIff`, `LoadLosesRecord`).
- `init-device` is offered from any state. On a device with a bootloader it loses the data bytes it
  does not set, unless both data locations agree on them (`InitialisedKeepsData`,
  `InitialisedLosesData`).
- The serial number message of `init-device` promises up to 8 characters; 7 is the limit
  (`InitialisedRecord` covers the accepted ones).
- A hint with a name, serial or type makes discovery throw when an address that fits as far as it
  is compared lacks that key (`FilterFails`), as a lookup in a constant dictionary does.
- The device hash maps one to one with addresses only up to the blacklisted keys, and only as far
  as the combining function does not collide along the two addresses' entries (`HashIsIdentity`).
- A counter set reports a failed update for a buffer of exactly the right length exactly when its
  description ends in an empty set, although every counter has then taken its value (`CompletesIff`,
  `Counters.Update`).

## Model

| member | source | states |
|---|---|---|
| `FsPath.RFind` | host/lib/property_tree.cpp:32 | the last slash, with none after it |
| `FsPath.Tokens` | host/lib/property_tree.cpp:21-22 | every token is a non-empty slash-free name |
| `FsPath.TokensGlue` | host/lib/property_tree.cpp:21-22 | tokenising is a homomorphism over gluing with a slash |
| `FsPath.TokensJoin` | host/lib/property_tree.cpp:48-61 | a joined path tokenises to the left tokens followed by the right ones |
| `FsPath.JoinTrims` | host/lib/property_tree.cpp:48-61 | the recursive join strips all slashes at the seam and leaves exactly one |
| `FsPath.TrimRightExact` | host/lib/property_tree.cpp:50-53 | trimming on the right takes away slashes only, and all there are |
| `FsPath.TrimLeftExact` | host/lib/property_tree.cpp:54-57 | trimming on the left takes away slashes only, and all there are |
| `FsPath.JoinAssociative` | host/lib/property_tree.cpp:48-61 | nested joins give the same string either way round |
| `FsPath.JoinEndsWithSlash` | host/lib/property_tree.cpp:48-61 | a joined path ends in a slash exactly when the right argument is empty or ends in one |
| `FsPath.LeafIsLastToken` | host/lib/property_tree.cpp:30-37 | the leaf is the last token exactly when the path does not end in a slash |
| `FsPath.BranchAndLeafSplit` | host/lib/property_tree.cpp:39-46 | branch and leaf together carry the path's tokens exactly when there is a slash to split at, or nothing |
| `FsPath.LeafAndBranchExact` | host/lib/property_tree.cpp:30-46 | the leaf is what follows the last slash, the branch what precedes it |
| `FsPath.TokensRender` | host/lib/property_tree.cpp:21-22 | every name sequence is denoted by a path: writing it out and tokenising gives it back |
| `Dict.WithoutSplit` | host/lib/property_tree.cpp:107 | taking one child out closes the gap and keeps the order of the others |
| `TreeSpec.EnsurePathAdds` | host/lib/property_tree.cpp:173-179 | the creating walk adds exactly the path and its missing prefixes, without properties, lists them last, and changes nothing when the path is there |
| `TreeSpec.EnsureChildKeeps` | host/lib/property_tree.cpp:175-177 | adding one missing child keeps existence, listing and names consistent |
| `PropertyTree.CoherentAdd` | host/lib/property_tree.cpp:175-178 | hooking a new node under a missing key keeps the pointer structure coherent |
| `PropertyTree.CoherentPop` | host/lib/property_tree.cpp:107 | popping a key keeps the structure of all remaining nodes coherent |
| `PropertyTree.FlattenAdd` | host/lib/property_tree.cpp:175-178 | hooking a new node adds exactly one path to the flat map |
| `PropertyTree.FlattenPop` | host/lib/property_tree.cpp:107 | popping a key removes exactly that path and everything below it from the flat map |
| `PropertyTree.PrefixPresent` | host/lib/property_tree.cpp:116-121 | the reachable paths are closed under prefixes |
| `PropertyTree.TreeGuts.constructor` | host/lib/property_tree.cpp:218-222 | a new tree is coherent and holds only an empty root |
| `PropertyTree.TreeGuts.Walk` | host/lib/property_tree.cpp:94-103 | the pointer walk finds a path exactly when it exists, and ends at its node with its parent |
| `PropertyTree.TreeGuts.AddChild` | host/lib/property_tree.cpp:175-177 | in place: one new path, all other nodes kept |
| `PropertyTree.TreeGuts.PopChild` | host/lib/property_tree.cpp:107 | in place: the path and its extensions go, everything else stays |
| `PropertyTree.TreeGuts.PutProp` | host/lib/property_tree.cpp:184 | in place: one property changes |
| `PropertyTree.TreeGuts.ContentsWellFormed` | host/lib/property_tree.cpp:211-222 | a coherent heap has a prefix-closed flat map in which listings and existence agree |
| `PropertyTree.PropertyTree.constructor` | host/lib/property_tree.cpp:75-78 | a new tree seen through the root view |
| `PropertyTree.PropertyTree.Subtree` | host/lib/property_tree.cpp:80-88 | a view shares the nodes and is rooted at the joined path |
| `PropertyTree.PropertyTree.Remove` | host/lib/property_tree.cpp:90-108 | refines the flat removal, with its three errors, at root/path |
| `PropertyTree.PropertyTree.Exists` | host/lib/property_tree.cpp:110-123 | true exactly when the flat map has root/path |
| `PropertyTree.PropertyTree.List` | host/lib/property_tree.cpp:125-139 | the child names of root/path in creation order, or not found |
| `PropertyTree.PropertyTree.Pop` | host/lib/property_tree.cpp:141-165 | refines the flat pop, with its four errors, at root/path |
| `PropertyTree.PropertyTree.PopLeaf` | host/lib/property_tree.cpp:107 | popping by string leaf hits the walked path or nothing at all |
| `PropertyTree.PropertyTree.Create` | host/lib/property_tree.cpp:167-185 | refines the flat creation at root/path; an existing property is an error that changes nothing |
| `PropertyTree.PropertyTree.EnsureNode` | host/lib/property_tree.cpp:173-179 | the creating loop ends at the path's node with exactly the missing prefixes added |
| `PropertyTree.PropertyTree.Access` | host/lib/property_tree.cpp:187-203 | the property object stored at root/path, or which of two errors |
| `TreeLaws.StepKeeps` | host/lib/property_tree.cpp:80-203 | every call keeps the tree well formed, and every call that throws or only looks changes nothing |
| `TreeLaws.RemoveEffect` | host/lib/property_tree.cpp:90-108 | exactly when a removal succeeds, that it then deletes exactly the path and its extensions, takes its name out of the parent's listing in order, and leaves every other listing alone |
| `TreeLaws.ViewRootNotRemovable` | host/lib/property_tree.cpp:90-108 | no view can remove its own root |
| `TreeLaws.PopEffect` | host/lib/property_tree.cpp:141-165 | exactly when a pop succeeds, that it returns the stored property and deletes what a removal would |
| `TreeLaws.CreateEffect` | host/lib/property_tree.cpp:167-185 | exactly when a creation succeeds, which paths it adds, and that no other property and no listing order changes |
| `TreeLaws.PrefixesPresent` | host/lib/property_tree.cpp:116-121 | an existing path has all its prefixes |
| `TreeLaws.ListEffect` | host/lib/property_tree.cpp:125-139 | a listing names each existing next token once, and nothing else, in the tree's order |
| `TreeLaws.RemovalErrorsExact` | host/lib/property_tree.cpp:93-165 | which error `remove` and `pop` report, each exactly when |
| `TreeLaws.OtherErrorsExact` | host/lib/property_tree.cpp:110-203 | which error `access`, `list` and `create` report, each exactly when, and what `exists` answers |
| `TreeLaws.ViewsAgree` | host/lib/property_tree.cpp:80-88 | any call through a nested view equals the call through the outer view at the joined path |
| `TreeLaws.SpellingsAgree` | host/lib/property_tree.cpp:82-193 | calls through any two views at paths with the same tokens are the same call |
| `TreeLaws.CreateThenRemove` | host/lib/property_tree.cpp:90-185 | removing what was just created leaves exactly the added parents, so it undoes the creation exactly when the parent existed |
| `TreeLaws.RunWellFormed` | host/lib/property_tree.cpp:75-203 | every run from a new tree, through any views, stays well formed |
| `TreeLaws.PropAfterStep` | host/lib/property_tree.cpp:90-185 | a call changes the property at a path only by creating it there or removing the path or one above it |
| `TreeLaws.PropertyIsLastPut` | host/lib/property_tree.cpp:80-203 | after every run a path holds a property exactly when a successful create put it there and nothing has removed it since |
| `TreeLaws.AccessSeesLastPut` | host/lib/property_tree.cpp:187-203 | after every run, access through any view returns exactly that property |
| `TreeLaws.CreationOrder` | host/lib/property_tree.cpp:90-185 | after every run, through any views, siblings are listed in the order in which they were created, a child created again counting as new |
| `PrintTree.PrintTree` | host/utils/uhd_usrp_probe.cpp:328-334 | terminates and prints, for an existing path, the preorder walk of the shared tree in listing order, each line spelled as the start path with the names joined on; a missing path is printed and then fails |
| `PrintTree.PrintsEachOnce` | host/utils/uhd_usrp_probe.cpp:328-334 | the walk visits every path at or below the start exactly once, parents before children |
| `PrintTree.PrintsWholeTree` | host/utils/uhd_usrp_probe.cpp:328-334 | from the root the walk visits every path of the tree exactly once |
| `PrintTree.WalkOrdered` | host/utils/uhd_usrp_probe.cpp:330-333 | depth first in listing order: all that is below a child is printed before anything below a child listed later |
| `PrintTree.DenotesChild` | host/utils/uhd_usrp_probe.cpp:332 | the joined child path denotes exactly that child |
| `CalibrationSearch.CoordGuard` | host/utils/uhd_cal_tx_dc_offset.cpp:207-212 | the loop guard admits exactly five grid lines |
| `CalibrationSearch.TryPoint` | host/utils/uhd_cal_tx_dc_offset.cpp:213-238 | one capture either counts an error and accepts nothing, or is accepted and compared with the best |
| `CalibrationSearch.SearchLine` | host/utils/uhd_cal_tx_dc_offset.cpp:210-239 | the rewinding inner loop ends with five accepted captures on the line, or with exactly the error budget used up |
| `CalibrationSearch.SearchRound` | host/utils/uhd_cal_tx_dc_offset.cpp:207-240 | a completed round accepts exactly 25 captures around the best of the rounds before |
| `CalibrationSearch.StepVanishes` | host/utils/uhd_cal_tx_dc_offset.cpp:206 | the shrinking step falls below every positive precision |
| `CalibrationSearch.IsRoundCountUnique` | host/utils/uhd_cal_tx_dc_offset.cpp:206 | the precision fixes the number of rounds |
| `CalibrationSearch.Search` | host/utils/uhd_cal_tx_dc_offset.cpp:196-248 | the search ends for all measurements and error patterns, runs the number of rounds the precision fixes, tracks the best of all accepted captures, and throws exactly at the tenth error, with no capture after it |
| `CalibrationLaws.FoldIsOptimum` | host/utils/uhd_cal_tx_dc_offset.cpp:234-238 | the best is the optimum of its start value and all accepted captures, moves exactly when one beats the start, and is then one of them |
| `CalibrationLaws.FoldIsFirst` | host/utils/uhd_cal_tx_dc_offset.cpp:234-238 | of equally good captures the first one is kept |
| `CalibrationLaws.WindowsNest` | host/utils/uhd_cal_rx_iq_balance.cpp:252-258 | each round's search window lies inside the one before |
| `CalibrationLaws.WindowInside` | host/utils/uhd_cal_rx_iq_balance.cpp:200-259 | the best plus three steps never leaves [-1, 1] |
| `CalibrationLaws.AppliedInside` | host/utils/uhd_cal_rx_iq_balance.cpp:211-219 | every correction ever set, in any run, also at errors, lies strictly inside (-1, 1) on both axes |
| `CalibrationLaws.ErrorRepeatsPoint` | host/utils/uhd_cal_rx_iq_balance.cpp:224-237 | after a transmit error the same correction is set again |
| `CalibrationLaws.RoundPointsDiffer` | host/utils/uhd_cal_tx_iq_balance.cpp:209-245 | no correction is accepted twice in a round |
| `CalibrationLaws.StepsShrinkByThree` | host/utils/uhd_cal_tx_dc_offset.cpp:242-247 | the first step is a third, and the next window reaches exactly the neighbouring lines |
| `CalibrationLaws.GridWalk` | host/utils/uhd_cal_tx_dc_offset.cpp:207-212 | in plain numbers, where each accepted capture of a round is taken: inner axis first, two steps to either side of the centre |
| `CalibrationLaws.CapturesShrinkByThree` | host/utils/uhd_cal_tx_dc_offset.cpp:242-247 | neighbouring captures lie a third apart in the first round, and a third as far in each later round as in the one before |
| `CalibrationLaws.DefaultRounds` | host/utils/uhd_cal_tx_dc_offset.cpp:206 | the default precision gives exactly eight rounds |
| `CalibrationLaws.StepAtPrecisionRuns` | host/utils/uhd_cal_tx_dc_offset.cpp:206 | a round whose step equals the precision is still run, and is the last |
| `Calibration.CalibrateAt` | host/utils/uhd_cal_tx_iq_balance.cpp:197-270 | one frequency: the search from this program's start value, fewer than ten errors unless it throws, and the kept result with the axes in this program's order |
| `Calibration.DcKeepsTheLowest` | host/utils/uhd_cal_tx_dc_offset.cpp:250-266 | a DC result is kept exactly when a capture beat the uncorrected one; it is the lowest capture, stored with the frequency and the correction it was measured at |
| `Calibration.IqKeepsTheHighestAboveZero` | host/utils/uhd_cal_rx_iq_balance.cpp:261-277 | exactly when an IQ result is kept, and that it comes from a capture exactly when some suppression was positive |
| `Calibration.IqKeepsWithoutImprovement` | host/utils/uhd_cal_rx_iq_balance.cpp:208-261 | that every IQ result kept improves on the uncorrected one holds, over all runs with any number of accepted captures, exactly when the uncorrected suppression is not negative |
| `Calibration.GridRunIsRun` | host/utils/uhd_cal_rx_iq_balance.cpp:199-259 | the run in which nothing beats the start value: the grid around no correction, round after round |
| `Calibration.IqKeepsNoCorrection` | host/utils/uhd_cal_rx_iq_balance.cpp:208-277 | what is kept when no capture improves on a negative uncorrected suppression: no correction, at a claimed suppression of zero |
| `Calibration.Sweep` | host/utils/uhd_cal_tx_dc_offset.cpp:178-270 | every frequency of the range in order, each with its own error budget; results are those kept; it aborts exactly when the captures at some frequency end in the tenth error, and then stores nothing |
| `Calibration.FreqIsLinear` | host/utils/uhd_cal_tx_dc_offset.cpp:179-180 | the k-th frequency tuned lies k steps above the first |
| `Calibration.ResultsInOrder` | host/utils/uhd_cal_tx_dc_offset.cpp:250-266 | results are stored in the order of the frequencies, one or none for each |
| `RxGain.GainExceeds` | host/utils/usrp_cal_utils.hpp:307-337 | the gain sweep runs out of range for every positive step |
| `RxGain.RisesExactly` | host/utils/usrp_cal_utils.hpp:314-316 | a rise is one of at least half the gain step |
| `RxGain.NoiseMeans` | host/utils/usrp_cal_utils.hpp:307-322 | the first phase in plain numbers |
| `RxGain.RiseMeans` | host/utils/usrp_cal_utils.hpp:324-337 | the second phase in plain numbers |
| `RxGain.SweepMeans` | host/utils/usrp_cal_utils.hpp:300-337 | how the phases meet, and why a sweep ends |
| `RxGain.RiseAboveNoise` | host/utils/usrp_cal_utils.hpp:300-322 | the first phase captures only noise, and stops at the first rise, at power zero or beyond the range |
| `RxGain.FindCompression` | host/utils/usrp_cal_utils.hpp:324-337 | the second phase rises at every gain until one fails to or the range ends |
| `RxGain.SetOptimalRxGain` | host/utils/usrp_cal_utils.hpp:266-350 | only gains inside the range are set, and the final one is the lattice gain two steps below the end of the sweep, at most stop minus one step, untouched by the clip |
| `TxBuffer.PeriodicMod` | host/utils/usrp_cal_utils.hpp:384-392 | a waveform with the wrap length as a period may be read at the wrapped index |
| `TxBuffer.NextIndex` | host/utils/usrp_cal_utils.hpp:416-421 | advancing and wrapping gives the index after one send more |
| `TxBuffer.FrameMatches` | host/utils/usrp_cal_utils.hpp:393-413 | every frame lies inside the buffer and, if the wrap length is a period, equals the frame of the unbounded waveform, across the wrap |
| `TxBuffer.Transmit` | host/utils/usrp_cal_utils.hpp:395-422 | for any wave and lengths, the sends are the frames at the wrapped positions |
| `TxBuffer.SentSample` | host/utils/usrp_cal_utils.hpp:409-422 | each sample sent is the wave at the wrapped start of its frame plus its place in the frame |
| `TxBuffer.SentIsWave` | host/utils/usrp_cal_utils.hpp:409-422 | if the wrap length is a period, the concatenated sends are the unbounded waveform sample for sample |
| `TxTone.BuffSizePositive` | host/utils/usrp_cal_utils.hpp:384-389 | the buffer length is positive exactly from one hertz and one sample a second on |
| `TxTone.HoldsCompleteWaves` | host/utils/usrp_cal_utils.hpp:382-389 | at a whole rate the length is the least number of samples that holds all complete waves of a second |
| `TxTone.PhasePeriodic` | host/utils/usrp_cal_utils.hpp:400-403 | the phase repeats after n samples exactly when n samples are whole turns |
| `TxTone.BufferIsPeriodIff` | host/utils/usrp_cal_utils.hpp:382-389 | the computed length is a period exactly when what its truncations lose differs by whole turns; up to the sample rate, exactly when they lose the same |
| `TxTone.IntegersArePeriodic` | host/utils/usrp_cal_utils.hpp:382-389 | a whole rate and a whole frequency always give a period |
| `TxTone.SentIsTone` | host/utils/usrp_cal_utils.hpp:395-422 | when the wrap length is whole turns a tone of any shape is sent without a seam |
| `TxTone.SeamlessIff` | host/utils/usrp_cal_utils.hpp:393-422 | for all lengths, the stream has no seam exactly when the wrap length is whole turns, or frames always start at the wrap and are whole turns |
| `TxTone.StreamSeamlessIff` | host/utils/usrp_cal_utils.hpp:382-422 | at the length the code computes, the stream has no seam exactly when the truncations' difference is whole turns, or frames always start at the wrap and are whole turns |
| `TxTone.FractionalToneHasSeam` | host/utils/usrp_cal_utils.hpp:382-422 | a frequency and rate whose stream has a seam for every frame length but the multiples of 1334000 |
| `TxTone.CleanStream` | host/utils/usrp_cal_utils.hpp:382-422 | under that condition, and for a constant, a tone of any shape is sent without a seam |
| `TxTone.SendTone` | host/utils/usrp_cal_utils.hpp:378-422 | sends the tone through a buffer of the computed length, and sends exactly the tone when the condition for no seam holds |
| `Complex.MulAssociates` | host/examples/ascii_art_dft.hpp:104 | complex multiplication is associative |
| `Complex.PowSquare` | host/examples/ascii_art_dft.hpp:113-115 | even powers of a factor are powers of the next factor |
| `Complex.PairsAreComplex` | host/examples/ascii_art_dft.hpp:104 | the reals are embedded, i squares to minus one, and a pair is its real part plus i times its imaginary part |
| `Fft.PowerTestAdmits` | host/examples/ascii_art_dft.hpp:191 | the bit test on 64-bit words passes exactly zero and the powers of two |
| `Fft.BitAndBits` | host/examples/ascii_art_dft.hpp:191 | each bit of the conjunction is the conjunction of the bits |
| `Fft.HalvesInBounds` | host/examples/ascii_art_dft.hpp:101-103 | both strided halves stay within the samples |
| `Fft.EvenOdd` | host/examples/ascii_art_dft.hpp:101-104 | a direct sum is its even half plus the factor times its odd half at the squared factor |
| `Fft.CtFftFIsDirectSum` | host/examples/ascii_art_dft.hpp:93-105 | the strided recursion equals the direct sum at its first factor |
| `Fft.FactorTableSquares` | host/examples/ascii_art_dft.hpp:111-115 | the table built by halving has enough entries, each the square of the one before |
| `Fft.CtFftK` | host/examples/ascii_art_dft.hpp:108-117 | the bin computed is that of the discrete Fourier transform |
| `Fft.DftOfImpulse` | host/examples/ascii_art_dft.hpp:93-117 | the bin of a single sample is the sample times the power of the root that its position gives |
| `Fft.DftIsAdditive` | host/examples/ascii_art_dft.hpp:93-117 | the transform of a sum is the sum of the transforms, which with the impulse fixes every bin of every signal |
| `Fft.DftBins` | host/examples/ascii_art_dft.hpp:189-219 | all bins of the transform, or an error exactly for other sample counts |
| `DftPlot.Reorder` | host/examples/ascii_art_dft.hpp:242-247 | each position of the reordered plot holds its source bin: the upper half of the bins, then the lower half, both rising |
| `DftPlot.ReorderIsBijection` | host/examples/ascii_art_dft.hpp:243-246 | every kept bin lands at exactly one position |
| `DftPlot.NeighboursStay` | host/examples/ascii_art_dft.hpp:243-246 | neighbouring positions hold neighbouring bins in rising order |
| `DftPlot.DcIsRightOfCentre` | host/examples/ascii_art_dft.hpp:242-246 | where DC really lands |
| `DftPlot.KeptBins` | host/examples/ascii_art_dft.hpp:243 | exactly which bins the odd count keeps |
| `DftPlot.IRoundIsNearest` | host/examples/ascii_art_dft.hpp:67-72 | rounding goes to a nearest integer, and from halfway away from zero |
| `DftPlot.ColumnsAbut` | host/examples/ascii_art_dft.hpp:250-259 | column ranges start at zero, abut and never index outside the bins |
| `DftPlot.ColumnsDisjoint` | host/examples/ascii_art_dft.hpp:250-261 | no bin is in two column ranges |
| `DftPlot.ColumnsPartitionIff` | host/examples/ascii_art_dft.hpp:250-261 | the ranges cover all bins exactly when there are at least as many bins as columns |
| `DftPlot.EveryBinContributes` | host/examples/ascii_art_dft.hpp:258-261 | every bin contributes to some column's value, also with fewer bins than columns |
| `DftPlot.ColumnsInPlace` | host/examples/ascii_art_dft.hpp:250-261 | what a column shows lies within half a bin and half a column of the column's place on the common scale |
| `DftPlot.ColumnMax` | host/examples/ascii_art_dft.hpp:252-261 | a column shows the maximum of exactly its contributing bins |
| `DftPlot.PlotColumns` | host/examples/ascii_art_dft.hpp:250-261 | every column shows its maximum |
| `DftPlot.NoPeakLost` | host/examples/ascii_art_dft.hpp:250-261 | every bin is at or below some column's value |
| `DeviceHash.SortedIsSorted` | host/lib/device.cpp:50 | sorting keys orders them and loses none |
| `DeviceHash.SortedUnique` | host/lib/device.cpp:50 | a sorted key sequence is fixed by its set of keys |
| `DeviceHash.LeqAtFirstDifference` | host/lib/device.cpp:50 | keys are in dictionary order: the first difference decides, and a string precedes its extensions |
| `DeviceHash.HashDeviceAddr` | host/lib/device.cpp:36-59 | the loop computes the canonical hash |
| `DeviceHash.HashIsCanonical` | host/lib/device.cpp:41-57 | addresses of the same device hash alike: key order, blacklisted keys, and all but the resource when there is one, make no difference |
| `DeviceHash.ServiceKeysIgnored` | host/lib/device.cpp:30-34 | setting a service key never changes the hash |
| `DeviceHash.HashOfOneEntry` | host/lib/device.cpp:48-57 | of an entry the key is hashed first, then the value |
| `DeviceHash.TrailAt` | host/lib/device.cpp:48-57 | what is hashed is every key in order, followed by its value |
| `DeviceHash.HashIsIdentity` | host/lib/device.cpp:30-59 | for every combining function, addresses of different devices hash alike only if the function concretely collides along their entries |
| `DeviceFind.JudgeMatches` | host/lib/device.cpp:130-138 | exactly when an address matches a hint, and exactly when the comparison throws, in terms of the keys |
| `DeviceFind.Filter` | host/lib/device.cpp:126-146 | the filter loop computes the specified selection or throws |
| `DeviceFind.FilterFails` | host/lib/device.cpp:131-138 | filtering throws exactly when some address, fitting as far as it is compared, lacks a name, serial or type the hint has |
| `DeviceFind.FilterKeeps` | host/lib/device.cpp:126-146 | filtering keeps exactly the matching pairs, in order |
| `DeviceFind.Dedup` | host/lib/device.cpp:148-160 | the one-pass removal computes the specified de-duplication |
| `DeviceFind.DedupKeepsFirsts` | host/lib/device.cpp:148-160 | a pair survives exactly when it is the first of its hash |
| `DeviceFind.DedupHashes` | host/lib/device.cpp:148-160 | no two survivors share a hash and no hash disappears |
| `DeviceFind.FindFiltered` | host/lib/device.cpp:118-163 | filtering followed by de-duplication |
| `DeviceFind.FindReturns` | host/lib/device.cpp:118-163 | a find returns, in discovery order, exactly the first pair of each hash among the matching pairs, and loses no matching hash |
| `DeviceFind.FilterPositions` | host/lib/device.cpp:126-146 | filtering takes exactly the positions that match, in order, repeated pairs included |
| `DeviceFind.DedupPositions` | host/lib/device.cpp:148-160 | de-duplication takes exactly the positions that come first for their hash |
| `DeviceFind.FindPositions` | host/lib/device.cpp:118-163 | which positions a find returns |
| `DeviceCache.Merge` | host/lib/device.cpp:219-224 | the loop fills the gaps of the address from the hint |
| `DeviceCache.MergeLookup` | host/lib/device.cpp:219-224 | merging never overrides the address and adds every other hint key |
| `DeviceCache.MergeAppends` | host/lib/device.cpp:213-220 | merging leaves the address in front and appends the missing hint entries in their order |
| `DeviceCache.OneLiveDevicePerHash` | host/lib/device.cpp:226-241 | after every sequence of makes, failed makes and releases at most one live device exists per hash |
| `DeviceCache.MakeReturnsLiveDevice` | host/lib/device.cpp:229-241 | a make returns the live device of its hash when there is one, and otherwise calls the maker |
| `DeviceCache.MakeKeepsAlive` | host/lib/device.cpp:229-242 | a device just made is live under its hash, and the next make of that hash returns it |
| `DeviceCache.ReleaseEndsLife` | host/lib/device.cpp:229-242 | a release ends the life of that device and of no other; the next make of its hash calls the maker |
| `DeviceCache.PickExact` | host/lib/device.cpp:185-207 | which pair is picked, and each error exactly when |
| `DeviceCache.Registry.constructor` | host/lib/device.cpp:227 | the cache starts empty |
| `DeviceCache.Registry.ReleaseDevice` | host/lib/device.cpp:227 | that device and no other stops being live |
| `DeviceCache.Registry.MakeDevice` | host/lib/device.cpp:185-242 | refines the cache step for the picked pair's hash, which hint keys cannot change; a new device is made by that pair's maker from the merged address, and every error leaves the cache as it was |
| `DeviceCache.ExtraKeysPickTheSame` | host/lib/device.cpp:185-212 | hints that agree on name, serial, type and product pick the same discovered pair, so further hint keys never split a device |
| `Eeprom.ReadBack` | host/utils/b2xx_fx3_utils.cpp:261-271 | a range read after a write is the data inside it and untouched clear of it |
| `Eeprom.MigratedHoldsBoth` | host/utils/b2xx_fx3_utils.cpp:811-829 | after the upgrade writes both layouts hold the record and nothing below 0x7F00 moved |
| `Eeprom.LoadedBytes` | host/utils/b2xx_fx3_utils.cpp:811-845 | every byte of an old device after an upgrade and a load: image, header, VID and PID, data, and nothing else changed |
| `Eeprom.LoadedBytesNotOld` | host/utils/b2xx_fx3_utils.cpp:811-845 | every byte of any other device after a load |
| `Eeprom.UnloadedAllBytes` | host/utils/b2xx_fx3_utils.cpp:868-882 | every byte after an unload |
| `Eeprom.LoadKeepsRecord` | host/utils/b2xx_fx3_utils.cpp:807-845 | loading keeps the record from either layout, however many image bytes get written |
| `Eeprom.MigrationInterrupted` | host/utils/b2xx_fx3_utils.cpp:821-828 | an upgrade stopped after any number of bytes of its three writes keeps an old device's record |
| `Eeprom.LoadWithoutSignature` | host/utils/b2xx_fx3_utils.cpp:811-812 | without a signature the record read after any part of a load is whatever the new location held, once the new signature is complete |
| `Eeprom.LoadKeepsRecordIff` | host/utils/b2xx_fx3_utils.cpp:807-845 | for every memory and every part of an image written, exactly when the record is kept |
| `Eeprom.LoadLosesRecord` | host/utils/b2xx_fx3_utils.cpp:811-812 | a device without a signature whose first data byte changes |
| `Eeprom.RunKeepsRecord` | host/utils/b2xx_fx3_utils.cpp:791-882 | over every run of loads, each stopped after any number of bytes, and of complete unloads, a device that starts with either signature keeps its record |
| `Eeprom.AfterWholeLoad` | host/utils/b2xx_fx3_utils.cpp:811-845 | a load attempt that writes everything is a whole load |
| `Eeprom.UnloadKeepsRecord` | host/utils/b2xx_fx3_utils.cpp:863-882 | unloading keeps the record and leaves an old-layout head |
| `Eeprom.LoadThenUnload` | host/utils/b2xx_fx3_utils.cpp:811-882 | loading and unloading restores the original head and data region |
| `Eeprom.UnloadInterrupted` | host/utils/b2xx_fx3_utils.cpp:879-882 | for every number of bytes after which an unload stops, inside the head or the data, exactly when it keeps the record |
| `Eeprom.UnloadedWhole` | host/utils/b2xx_fx3_utils.cpp:874-882 | stopped after its last byte, an unload is a whole one |
| `Eeprom.InitialisedRecord` | host/utils/b2xx_fx3_utils.cpp:57-84 | initialising stores 16-bit identifiers and a terminated serial inside the 36 bytes; every other data byte is what the old location held |
| `Eeprom.InitialisedBytes` | host/utils/b2xx_fx3_utils.cpp:57-84 | every byte after initialising |
| `Eeprom.InitialisedKeepsData` | host/utils/b2xx_fx3_utils.cpp:713-735 | every other data byte is kept exactly when the device has no bootloader, or both locations agree on those bytes |
| `Eeprom.InitialisedLosesData` | host/utils/b2xx_fx3_utils.cpp:713-735 | a device with a bootloader whose first data byte is lost |
| `Eeprom.Device.WriteEeprom` | host/utils/b2xx_fx3_utils.cpp:370-390 | the byte range is overwritten in place and nothing else |
| `Eeprom.Device.VerifyHead` | host/utils/b2xx_fx3_utils.cpp:273-300 | verification passes exactly when the data are the first eight bytes |
| `Eeprom.Device.WriteAndVerifyHead` | host/utils/b2xx_fx3_utils.cpp:302-310 | a head written is a head verified |
| `Eeprom.Device.DataAddress` | host/utils/b2xx_fx3_utils.cpp:318-329 | the address returned is where the record's data are |
| `Eeprom.Device.LoadBootloader` | host/utils/b2xx_fx3_utils.cpp:791-845 | the in-place writes of an upgrade and load |
| `Eeprom.Device.UnloadBootloader` | host/utils/b2xx_fx3_utils.cpp:863-882 | the in-place writes of an unload, refused without the new signature |
| `Eeprom.Device.InitDevice` | host/utils/b2xx_fx3_utils.cpp:694-735 | exactly the accepted serial numbers initialise the device; others change nothing |
| `Eeprom.Device.Blank` | host/utils/b2xx_fx3_utils.cpp:607-620 | the page loops overwrite every byte |
| `Eeprom.Device.Dump` | host/utils/b2xx_fx3_utils.cpp:591-597 | the pages read make up the whole memory in order |
| `FindDevices.ValuesExact` | host/utils/uhd_find_devices.cpp:64-75 | a group's values are exactly those some address of that serial has for the key |
| `FindDevices.NoSerialGroup` | host/utils/uhd_find_devices.cpp:60-62 | addresses without a serial share the group of the empty one |
| `FindDevices.AddAddress` | host/utils/uhd_find_devices.cpp:64-68 | an address adds exactly its own values, except its serial |
| `FindDevices.Absorb` | host/utils/uhd_find_devices.cpp:69-80 | erasing while iterating collects every later address of the serial, leaves none behind and keeps all others |
| `FindDevices.GroupBySerial` | host/utils/uhd_find_devices.cpp:58-81 | terminates with exactly one group per serial, holding exactly the values of each key over all original addresses |
| `CounterSet.EntryPosition` | host/utils/b2xx_side_channel.py:398-406 | each entry's counters stand in the flat list right after those of the entries before it |
| `CounterSet.LeavesAdd` | host/utils/b2xx_side_channel.py:384-392 | counters are counted additively, nested ones with the rest |
| `CounterSet.ValuesAdd` | host/utils/b2xx_side_channel.py:398-406 | values are read in the order of the description |
| `CounterSet.ValuesOfOne` | host/utils/b2xx_side_channel.py:398-406 | a counter reads its own attribute, a nested set the attributes below its name |
| `CounterSet.CompletesIff` | host/utils/b2xx_side_channel.py:394-407 | for every description, an update gets through exactly when values are left over, or when there is one for every counter and the description ends in a counter |
| `CounterSet.NoEmptySetEnds` | host/utils/b2xx_side_channel.py:394-407 | a description without empty sets always ends in a counter, so it takes every exact buffer |
| `CounterSet.SameNameReadsSame` | host/utils/b2xx_side_channel.py:363-382 | two counters of one name in a set always read the same value, so names must be distinct for values to be read back |
| `CounterSet.EmptySetFails` | host/utils/b2xx_side_channel.py:395-396 | an empty set at the end makes an exact update fail; before a counter it does no harm |
| `CounterSet.Counters.constructor` | host/utils/b2xx_side_channel.py:363-382 | every counter starts at zero |
| `CounterSet.Counters.GetStructFormat` | host/utils/b2xx_side_channel.py:384-392 | the format has one letter for each counter |
| `CounterSet.Counters.UpdateFrom` | host/utils/b2xx_side_channel.py:394-407 | counters take the front of the list in depth-first order, whenever it is long enough, the remainder is returned, nothing outside the set changes, and it fails exactly when values run out |
| `CounterSet.Counters.Update` | host/utils/b2xx_side_channel.py:409-414 | a buffer of the wrong length changes nothing; the right one is always stored whole, and is reported as a success exactly when the description ends in a counter |
| `Waveform.WrapInvisible` | host/examples/wavetable.hpp:69-72 | wrapping the 64-bit index never changes the table position |
| `Waveform.Fill` | host/examples/tx_waveforms.cpp:434-436 | a buffer fill continues the waveform from any sample number, also with a wrapped negative step |
| `Waveform.Stream` | host/examples/tx_waveforms.cpp:230-436 | sample n of everything sent is the table entry at phase (n + 1) times the step |
| `HopQueue.Receive` | host/examples/twinrx_freq_hopping.cpp:68-87 | for every stream on which the loop ends, the buffer starts with what the calls before the first error delivered, in order; it is full exactly when there was no error, and never overrun |
| `HopQueue.DeliveryEnds` | host/examples/twinrx_freq_hopping.cpp:74-86 | the loop ends on every stream that delivers a sample or an error whenever asked |
| `HopQueue.QueueBounded` | host/examples/twinrx_freq_hopping.cpp:223-262 | in every orderly run the commands waiting stay between none and the queue's depth, at every moment |
| `HopQueue.Fill` | host/examples/twinrx_freq_hopping.cpp:223-231 | the queue is filled to its depth or to the number of hops, with nothing received yet |
| `HopQueue.IssueNext` | host/examples/twinrx_freq_hopping.cpp:229-230 | the next command fits the queue and is for one interval later |
| `HopQueue.Sweep` | host/examples/twinrx_freq_hopping.cpp:238-262 | one burst per hop in order, each with a command waiting, and commands issued ahead as far as allowed |
| `HopQueue.HopFrequencies` | host/examples/twinrx_freq_hopping.cpp:223-276 | the whole run is orderly; without repeat every hop gets one burst and the queue ends empty, with repeat it ends as full as after the fill |
| `HopQueue.TimeIsProduct` | host/examples/twinrx_freq_hopping.cpp:218-230 | the n-th command is for n intervals |
| `SideLog.SplitOfEncode` | host/utils/b2xx_side_channel.py:527-543 | terminated lines read back as they were written, whatever stops the reader behind them |
| `SideLog.SplitAccounts` | host/utils/b2xx_side_channel.py:519-543 | the lines read are non-empty and account for the buffer up to an empty line, a missing terminator or the end |
| `SideLog.EntriesConcat` | host/utils/b2xx_side_channel.py:534-540 | reads in a row number their lines as one read of all of them would |
| `SideLog.EntryAt` | host/utils/b2xx_side_channel.py:534-540 | each entry carries its line and, when numbered, the number after those before it |
| `SideLog.EncodeConcat` | host/utils/b2xx_side_channel.py:527-543 | lines follow one another, each closed by a NUL |
| `SideLog.SideChannel.GetLog` | host/utils/b2xx_side_channel.py:517-547 | the entries are those lines, numbered on from the last index, and the read counter counts reads that had a line to try |

## Left out

- Floating-point rounding, logarithms, windows, trigonometry and every `double` comparison at the edge of a grid: real arithmetic is exact here.
- Locks, threads, waiting and logging: each tree, cache or device operation is one atomic step.
- `property_iface` and what properties do when set or read: only which object is stored where is modelled.
- Nodes are objects here where the source nests them by value in dictionaries; node copies made by the dictionary class, which is not part of this model, are not captured.
- `uhd::dict` is taken to be an insertion-ordered list searched from the front; boost's tokenizer is taken to drop empty tokens.
- Device registration and the asynchronous discovery tasks: the discovered pairs are an input.
- The loader that writes a bootloader image is taken to write a leading part of it that carries the new signature and stays below 0x7F00; USB errors and read failures of the EEPROM are not modelled, and every write is taken to proceed byte by byte upwards, so that an interrupted one leaves a leading part.
- The amplitude scaling, symbols and labels of the plot, and column counts below two, where the source divides by zero.
- Each send of the transmit thread is taken to consume its whole frame. A tone is any function of its phase; negative frequencies, for which the source's casts are undefined, are left out.
- CounterSet.Counters.constructor: two entries of the same name in one set are excluded, as in UpdateFrom and Update; in the source the later one takes over the attribute, and what was stored for the earlier one cannot be read back (`SameNameReadsSame`).
- CounterSet.Counters.Update: nested Python objects are one store keyed by the chain of attribute names, so sharing one nested object between two sets is not captured.
- Calibration.Sweep: precision and frequency step are taken to be positive, as the loops of the source never end otherwise.
- HopQueue.HopFrequencies: a repeated sweep runs until it is interrupted in the source; here for any number of sweeps. The list of frequencies, tuning and files are left out.
- HopQueue.Receive: streams on which the source's loop never ends are excluded.
- HopQueue.HopFrequencies: a hop whose receive breaks off on an error counts as having used up its command, as a finished one does; what the device does with the rest of that burst is not modelled.
- Option parsing, file storage of results, Python bindings and the remaining example programs.
