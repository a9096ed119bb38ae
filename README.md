# hdnet `Spikes`: a verified model of the spike container

hdnet holds multi-neuron spike recordings as a tensor of T trials × N
neurons × M time bins. The `Spikes` class in `hdnet/spikes.py` builds that
tensor in one of two ways. It can take an array as given, or it can bin
per-neuron lists of microsecond spike times into an occupancy grid. Shape
normalisation then gives every array a trial axis. Preprocessing binarizes
the cells. The class also ranks neurons by mean activity to keep the most
active ones, and derives two views:

- windowed feature vectors, either as a new container or reshaped into one
  row per sample;
- a raster of chosen trials and bins.

This project models that core in Dafny and proves what each step promises.

Layout, one module per file:

- `tensors.dfy` (`Tensors`): the dense array value `NdArray`. It carries an
  explicit shape, either an N × M grid or a T × N × M tensor. The module also
  has `Flatten`, the row-major concatenation behind numpy's `ravel` and
  `reshape`, with its index lemma, and views of Dafny arrays as sequences.
- `binning.dfy` (`Binning`): `load_from_spikes_times`.
  - Specification functions `MaxLast`, `BinOf`, `BinWidth` and `BinGrid`.
  - The loops as methods proved against them: `MaxLastMillis`, `Bin` and
    `MarkRow`.
- `binarizer.dfy` (`Binarizer`): `preprocess`, the `(sign(x)+1)//2` element
  map.
- `trial_shape.dfy` (`TrialShape`): the 2-D to 1 × N × M promotion in the
  constructor.
- `ranking.dfy` (`Ranking`): mean activity, an `argsort` by insertion sort,
  and the selection of the most active neurons.
- `windowing.dfy` (`Windowing`): `to_windowed`.
  - The windowed tensor `Windowed` and the sample matrix `Samples`.
  - Their filling loops `FillWindows` and `SampleRows`.
- `raster.dfy` (`Rasters`): the array that `rasterize` returns.
- `spikes.dfy` (`SpikeTrains`): `class Spikes`.
  - It has the fields `_spikes_arr`, `_T`, `_N`, `_M`, `idx`,
    `mean_activities`, `max_millisec` and `bin_size`.
  - Its constructors and methods update those fields as the source does.

Values are modelled as follows:

- Array cells are `real`, since numpy holds them as doubles.
- Spike times are `nat` microseconds.
- Python 2 division is explicit. `np.int(max_millisec) / bin_size` is a floor
  division of the truncated milliseconds (`WidthOf`). `int(t / (1000. * b))` is
  the floor of `t / (1000 b)` (`BinOf`).
- Lemmas show the two roundings agree: `FloorMillis` and `NestedDivision`.

## Model

| member | source | states |
|---|---|---|
| Binning.MaxLast | hdnet/spikes.py:184-187 | the horizon is the largest LAST spike time: no list's last time exceeds it, and some list's last time equals it |
| Binning.MaxLastMillis | hdnet/spikes.py:184-187 | the running-maximum loop yields the horizon in milliseconds, at least every list's last time |
| Binning.Bin | hdnet/spikes.py:184-193 | the loops yield that horizon and an `N × BinWidth` grid equal cell for cell to `BinGrid` |
| Binning.BinGridCell | hdnet/spikes.py:188-193 | every cell is 0 or 1; cell (c, a) is 1 exactly when some spike time of neuron c falls in bin `a`; the grid has one row per list and `BinOf(MaxLast) + 1` columns |
| Binning.OccupiedIff | hdnet/spikes.py:190-193 | the inner loop's accumulated mark for bin `a` holds exactly when some spike time of the list has bin `a` |
| Binning.SortedListsLoseNoSpike | hdnet/spikes.py:186-193 | when every list is in time order, every spike's bin lies inside the grid and is set |
| Binning.UnsortedListDropsSpike | hdnet/spikes.py:186-193 | an out-of-order list (5000 µs then 1000 µs) gives a width-2 grid: its spike in bin 5 is silently dropped |
| Binning.TwoNeuronExample | hdnet/spikes.py:184-193 | lists `[1000, 2000]` and `[1500]` with 1 ms bins bin to `[[0,1,1],[0,1,0]]` |
| Binning.FloorMillis | hdnet/spikes.py:186-188 | truncating the millisecond value is whole-millisecond division of the microseconds |
| Binning.NestedDivision | hdnet/spikes.py:188-191 | the width's two floor divisions agree with the per-spike bin division, so the horizon spike lands in the last column |
| Binning.Millis | hdnet/spikes.py:186 | the millisecond value is non-negative and 1000 times it is the microsecond time |
| Binning.BinOfBounds | hdnet/spikes.py:191 | spike time `t` lies in the `1000·bin_size` microseconds that start at its bin index times that width |
| Binning.BinWidth | hdnet/spikes.py:188 | the grid has at least one bin |
| Binning.LastSpikesFit | hdnet/spikes.py:185-191 | every neuron's last spike falls inside the grid, and the horizon spike falls in its final bin |
| Binning.BinGrid | hdnet/spikes.py:188-193 | the grid has one row per neuron and `BinWidth` bins in each row |
| Binning.MarkRow | hdnet/spikes.py:190-193 | the inner loop sets exactly the occupied bins of its neuron's zeroed row and leaves every other row as it was |
| Binning.MaxLastStep | hdnet/spikes.py:185-187 | one more list raises the horizon to the larger of the old horizon and the new last time |
| Binning.WidthOf | hdnet/spikes.py:188 | the width computed from the milliseconds is at least 1 |
| Binarizer.Sign | hdnet/spikes.py:197 | `sign` gives -1, 0 or 1, positive exactly for positive input and negative exactly for negative input |
| Binarizer.Binarize | hdnet/spikes.py:197 | the cell map gives 1 exactly for positive input and 0 exactly for zero or negative input |
| Binarizer.BinarizeNd | hdnet/spikes.py:195-197 | preprocessing keeps rank and shape, yields only 0/1 cells, and each cell is 1 iff the input cell is positive |
| Binarizer.BinarizeKeepsBinary | hdnet/spikes.py:195-197 | a 0/1 array passes through preprocessing unchanged |
| Binarizer.BinarizeIdempotent | hdnet/spikes.py:195-197 | preprocessing twice equals preprocessing once |
| TrialShape.Normalize | hdnet/spikes.py:118-121 | a grid becomes a 1 × N × M tensor with `[0][i][j]` the grid's `[i][j]`; a tensor is unchanged |
| TrialShape.Squeeze | hdnet/spikes.py:119-120 | dropping the trial axis of a one-trial tensor gives a well-formed grid |
| TrialShape.SqueezeAfterNormalize | hdnet/spikes.py:119-120 | squeezing a promoted grid gives the grid back |
| TrialShape.NormalizeIdempotent | hdnet/spikes.py:118-121 | normalising an already normalised array changes nothing |
| Ranking.Activity | hdnet/spikes.py:148 | one mean activity per neuron; on a 0/1 tensor each lies between 0 and 1 |
| Ranking.NeuronRates | hdnet/spikes.py:148 | on a 0/1 tensor every neuron's total over T·M is a rate between 0 and 1 |
| Ranking.RowSumBounds | hdnet/spikes.py:148 | a 0/1 row sums to between 0 and its length |
| Ranking.NeuronTotalBounds | hdnet/spikes.py:148 | a neuron's total over a 0/1 T × N × M tensor is between 0 and T·M |
| Ranking.ArgSort | hdnet/spikes.py:149 | the ordering lists every neuron index exactly once and the keys never decrease along it (ties in either order) |
| Ranking.InsertKeepsOrder | hdnet/spikes.py:149 | inserting the next index at its place keeps the ordering ascending and a permutation |
| Ranking.InsertIsPermutation | hdnet/spikes.py:149 | inserting the next index anywhere in a permutation gives a permutation of one more |
| Ranking.MostActive | hdnet/spikes.py:150 | `idx[-K:]` of an ascending ordering holds K distinct valid neurons, still ascending; no neuron left out is more active than one kept; with K = N it is every neuron |
| Ranking.MostActiveAreTop | hdnet/spikes.py:150 | the tail of an ascending permutation is distinct, ascending, dominates every index left out, and is a permutation at full length |
| Ranking.TailDominates | hdnet/spikes.py:150 | an index missing from the tail of an ascending ordering has a key no larger than any key in the tail |
| Ranking.SelectMostActive | hdnet/spikes.py:148-151 | the kept `k` neurons are distinct valid ids, ascending in activity, at least as active as every neuron left out, all neurons when `k = N`; their activities are listed in the same, non-decreasing order |
| Ranking.SelectNeurons | hdnet/spikes.py:152 | neuron `j` of the result is neuron `sel[j]` of the input, over every trial and bin |
| Windowing.Windowed | hdnet/spikes.py:161-165 | the windowed tensor has shape `len(trials) × (ws·N) × (M − ws + 1)` |
| Windowing.WindowedAt | hdnet/spikes.py:162-165 | feature `j·ws + k` at position `i` of windowed trial `c` is neuron `j` of trial `trials[c]` at bin `i + k` (neuron-major, time-minor) |
| Windowing.WindowSizeOneSelects | hdnet/spikes.py:161-165 | with `ws = 1`, windowed trial `c` equals trial `trials[c]` |
| Windowing.WindowSizeOneIsIdentity | hdnet/spikes.py:161-165 | with `ws = 1` over all trials, the windowed tensor is the input |
| Windowing.FillWindows | hdnet/spikes.py:162-165 | the zero-initialised double loop leaves every cell equal to the windowed tensor |
| Windowing.FillColumn | hdnet/spikes.py:165 | the slice assignment `X[c, :, i] = …` writes the column at trial `c`, position `i`, and leaves every other cell as it was |
| Windowing.Samples | hdnet/spikes.py:168-174 | the sample matrix has `len(trials)·(M − ws + 1)` rows of `ws·N` features |
| Windowing.SamplesAt | hdnet/spikes.py:170-173 | row `c·w + j` of the sample matrix is column `j` of windowed trial `c` (trial-major, position-minor) |
| Windowing.SamplesBlock | hdnet/spikes.py:170-173 | the rows a trial contributes start at `c·w`, hold its positions in order, and lie inside the matrix |
| Windowing.CopyBlock | hdnet/spikes.py:171-173 | the inner loop copies trial `c`'s positions into rows `tot` onward, one row per position, advances the counter by the position count, and leaves every other row as it was |
| Windowing.SampleRows | hdnet/spikes.py:168-174 | the running-counter loop fills every row of the sample matrix |
| Windowing.WindowedSampleAt | hdnet/spikes.py:161-174 | sample row `c·w + i`, feature `j·ws + k` is neuron `j` of trial `trials[c]` at bin `i + k` |
| Windowing.FlattenElements | hdnet/spikes.py:168 | reshaping equally long columns yields rows of the column length |
| Rasters.Raster | hdnet/spikes.py:206-212 | the raster has `len(trials)·N` rows |
| Rasters.EmptyRaster | hdnet/spikes.py:206-212 | an empty bin range leaves every row of the raster empty |
| Rasters.RasterAt | hdnet/spikes.py:206-212 | row `c·N + j` of the raster is `arr[trials[c]][j][start:stop]` |
| Tensors.EffectiveTrials | hdnet/spikes.py:161 | an empty trial list stands for every trial in order; a given list is used as it is; valid trial ids stay valid |
| Tensors.Flatten | hdnet/spikes.py:165 | flattening `k` pieces of length `w` gives `k·w` elements |
| Tensors.FlattenConstant | hdnet/spikes.py:212 | pieces holding only one value flatten to that value everywhere |
| Tensors.FlattenAt | hdnet/spikes.py:165 | element `q` of piece `p` lands at position `p·w + q` |
| SpikeTrains.Spikes.FromArray | hdnet/spikes.py:69-127 | given an array: the held array is the normalised input, binarized when asked; the counts are its shape; the object is valid |
| SpikeTrains.Spikes.FromSpikeTimes | hdnet/spikes.py:84-127 | given spike times: a bin size of 0 becomes 1; the held array is the one-trial tensor of the binned grid, kept unchanged by binarizing; T = 1, N = number of lists, M = grid width |
| SpikeTrains.Spikes.NormalizeShape | hdnet/spikes.py:118-124 | the held array gets a trial axis if it has none, and the counts are its three axis lengths; nothing else changes |
| SpikeTrains.Spikes.LoadFromSpikeTimes | hdnet/spikes.py:177-193 | no lists: nothing changes; otherwise the held array is the binned N × W grid and `max_millisec` the horizon; the counts stay stale |
| SpikeTrains.Spikes.Preprocess | hdnet/spikes.py:195-197 | the held array is replaced by its binarization; counts and other fields stay; validity is kept |
| SpikeTrains.Spikes.RestrictToMostActiveNeurons | hdnet/spikes.py:144-152 | N becomes `top or N`; reading only the held array, `idx` is the last `N` (all when N is 0 or beyond the neuron axis) of an ascending activity ordering: distinct valid neurons, ascending, none left out more active than one kept, every neuron when all are kept; `mean_activities` are their activities in that order; neuron `j` of the new array is old neuron `idx[j]`; from a consistent state the counts stay consistent exactly when `top ≤ N` |
| SpikeTrains.Spikes.ToWindowed | hdnet/spikes.py:155-175 | a fresh container over the binarized windowed tensor of the chosen trials, with T = number of trials, N = ws·N and M = M − ws + 1 |
| SpikeTrains.Spikes.ToWindowedSamples | hdnet/spikes.py:155-174 | with `reshape`: the unbinarized sample matrix of the windowed tensor, `len(trials)·(M − ws + 1)` × `ws·N` |
| SpikeTrains.Spikes.Rasterize | hdnet/spikes.py:204-212 | the raster of the held tensor over `trials or range(T)` and bins `start` to `stop or M`, with `len(trials)·N` rows; a start past the stop gives that many empty rows; with no rows, a stop past M is accepted and gives no rows |

## Left out

- The file loaders (npz, mat, `.spk` decoding, folder scanning) are left out. They are I/O and foreign libraries (numpy, scipy, bitstring).
- `neuron_to_file` and `filename` are left out. They only record file names.
- The folder loader rebins inside its loop. This is not modelled. The last pass bins every list collected, so the result equals one binning at the end, which `FromSpikeTimes` models.
- `covariance` is left out. It is floating-point `np.cov` scaled by a global maximum.
- PNG output is left out: `save_png_name` writes an image through an external sink.
- Saving and loading through `Restoreable`, logging, the property getters, the factory class methods and `__repr__` are left out.
- A constructor with no input returns without an array. This is not modelled.
- Arrays of rank 1 and of rank 4 or more are not modelled. `NdArray` has only the two ranks the container holds.
  - A 1-D input fails at `shape[1]` in the source.
  - A 4-D input is not rejected: its first three axes become T, N and M.
- Binning.BinOf: the bin size is a whole number of milliseconds (`binSize: nat`). The source computes `1000. * bin_size` in floating point, so a fractional bin size is not modelled.
- The container holds values, not references. With `preprocess=False` the source keeps the caller's array, or a reshaped view of it, so later changes the caller makes show through; the model does not capture this aliasing.
- Arithmetic is exact, not floating point.
  - Cells are exact reals. NaN and infinity are not modelled.
  - Spike times are unbounded naturals, not 64-bit integers.
  - Millisecond values and activities are exact, not rounded doubles.
- Negative numpy indices are not modelled, and neither are wrap-around slices.
  - Trial ids are naturals below T (`TrialsOk`).
  - `start` and `stop` are naturals.
- SpikeTrains.Spikes.FromSpikeTimes: requires at least one list, and every list nonempty.
  - An empty list of lists leaves the source's array unset, and reading its shape then fails.
  - An empty spike list fails at `spike_times[-1]`.
- SpikeTrains.Spikes.LoadFromSpikeTimes: requires nonempty lists, and a positive bin size when there are lists. The source fails on these with IndexError or ZeroDivisionError.
- Ranking.Activity: defined directly as each neuron's total over T·M. That equals the source's mean over trials of the mean over bins, because every neuron has the same count of cells. The equality itself is not proved.
- SpikeTrains.Spikes.RestrictToMostActiveNeurons: requires the held array to be a tensor with at least one trial and one bin.
  - Otherwise the source takes the mean of an empty axis, which gives NaN.
  - The counts are not required to match the array; only the array's own axes are read.
  - The tie order among equal activities is left open: numpy's default argsort is not stable, and `ArgSort` promises only an ascending permutation.
- SpikeTrains.Spikes.ToWindowed: requires `ws ≤ M + 1`. A larger window makes numpy reject a negative dimension.
- SpikeTrains.Spikes.ToWindowedSamples: requires `ws ≤ M + 1`, as `ToWindowed` does.
- SpikeTrains.Spikes.ToWindowed: the trial ids need to be valid only when some window position exists. The same holds for ToWindowedSamples. This mirrors the source, whose loop body is the only place that indexes trials.
- SpikeTrains.Spikes.Rasterize: requires `stop or M ≤ M` when `start` does not pass it and the result has rows.
  - A larger stop is clipped by the slice but not by the reshape width, so with `len(trials)·N > 0` numpy rejects the size mismatch.
  - With `len(trials)·N = 0` the empty slice reshapes to no rows whatever the stop, and the model returns no rows.
  - A start past the stop gives a negative width. numpy's reshape treats any negative entry as the one inferred axis, so the empty slice yields `len(trials)·N` empty rows. The model returns exactly that, with any stop, and requires `len(trials)·N > 0` there, since numpy cannot infer a width for an empty array with no rows.
- SpikeTrains.Spikes.ToWindowed: requires the counts to match the held array, and so does ToWindowedSamples. After a restrict that left N above the neuron axis, the source allocates `ws·N` rows per window, and assigning the shorter `ravel` fails unless the loops write nothing (no trial, no window position, or `ws = 0`) or the ravel has one element (`ws` and the neuron axis both 1), which numpy broadcasts over the whole column. Those cases, which the source answers, are excluded: a one-neuron recording restricted to 3 and windowed with `ws = 1` gives the source a T × 3 × M container repeating that neuron, which the model does not cover.
- SpikeTrains.Spikes.Rasterize: requires the counts to match the held array. After a restrict that left N above the neuron axis, the source's reshape to `len(trials)·N` rows fails unless the slice is empty.
- SpikeTrains.Spikes.Rasterize: its contract names the raster value. `Rasters.RasterAt` states what each row of that value is.

One case where the model keeps the code's own behaviour: a window size of 0 is accepted. The result has no features and M + 1 positions.
