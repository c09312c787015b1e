# Codec frame geometry and table interpolation, in Dafny

This project models two self-contained parts of the AFF3CT toolbox:

- **The `Codec` base class** (`src/Module/Codec/Codec.hpp`). The constructor validates the code dimensions `K`, `N` and `N_cw`. The noise parameter `sigma` starts at `-1` and `set_sigma` accepts only positive values. The collaborator pointers (interleaver core, encoder, puncturer) are set by setters; their getters throw `runtime_error` while a pointer is null. The three `extract_sys_llr` / `extract_sys_bit` / `extract_sys_par` entry points check buffer sizes against `K`, `N_cw`, `n_frames` and `tail_length / 2`. They then cut the multi-frame input into per-frame slices and hand each slice to a per-frame hook `_extract_*`.
- **Piecewise-linear interpolation** (`src/Tools/Math/interpolation.hxx`). `std::lower_bound` finds the first sample whose abscissa is not below the query. Below the table the result is clamped to the first ordinate, above it to the last. Between two samples the result is read off the line through them. Three batch overloads fill an output buffer element by element.

Files:

- `wrappers.dfy`: `Option` and `Result`, which stand in for null pointers and thrown exceptions.
- `frames.dfy` (module `Frames`): a buffer of `n` frames of `stride` values. `Split` cuts it into frames and `Flatten` lays frames end to end. The module proves the two round trips and the slice bounds and disjointness. It also holds the loop step that writes one frame.
- `codec.dfy` (module `CodecBase`): class `Codec<B, Q>`, whose fields are the ones the C++ class has. The pure size checks are module-level functions.
- `interpolation.dfy` (module `Interpolation`): the bisection `std::lower_bound` performs, the two scalar overloads as functions, and the three batch overloads as methods over arrays.

Exceptions become `Failure` values: `InvalidArgument`, `RuntimeError`, `LengthError` or `UnimplementedError`, each carrying the `Reason` the message names. A call that throws leaves its output buffers unchanged, and the contracts say so.

A per-frame hook is a `Hook`. `Unimplemented` is the base class's own hook, which throws `unimplemented_error`. `Override(run)` is a subclass's hook: a function from the frame's input slice and frame index to the values it writes into the frame's output slice.

Under exact comparison, the test `comp_equal(x_val, *x_below)` in `linear_interpolation` never holds. The reason is that `lower_bound` always leaves `x_below < x_val`. The model keeps the test, as written, and reads `y_below` before it, as the source does.

## Model

| member | source | states |
|---|---|---|
| `CodecBase.DimensionCheck` | src/Module/Codec/Codec.hpp:51-84 | the constructor's checks pass exactly when `0 < K <= N <= N_cw`; otherwise the result is the `invalid_argument` of the first violated check, in the order `K > 0`, `N > 0`, `N_cw > 0`, `K <= N`, `N <= N_cw` |
| `CodecBase.Codec.constructor` | src/Module/Codec/Codec.hpp:41-50 | dimensions that pass the checks give a valid object with `sigma = -1` and every collaborator pointer null |
| `CodecBase.Codec.Create` | src/Module/Codec/Codec.hpp:41-84 | failing dimensions produce the first `invalid_argument` and no object; passing ones produce a fresh codec with those dimensions, `sigma = -1` and no collaborators |
| `CodecBase.HalfTail` | src/Module/Codec/Codec.hpp:248 | `tail_length / 2` truncates toward zero: the remainder is 0 or 1 for a non-negative tail and 0 or -1 for a negative one |
| `CodecBase.Codec.DeclaredSockets` | src/Module/Codec/Codec.hpp:86-112 | the seven sockets, each named with its process: every `Y_N` holds `N_cw * n_frames` values, `Y_K` and `V_K` hold `K * n_frames`, `sys` and `par` hold their strides times `n_frames`, and `sys` and `par` together are as long as `extract_sys_par`'s `Y_N` |
| `CodecBase.Codec.DeclaredSocketsPassChecks` | src/Module/Codec/Codec.hpp:86-112 | buffers of the lengths the constructor gives the sockets pass the size checks of their process |
| `CodecBase.Codec.GetSigma` | src/Module/Codec/Codec.hpp:168-171 | sigma is either unset (`-1`) or positive |
| `CodecBase.Codec.SetSigma` | src/Module/Codec/Codec.hpp:173-183 | a value `<= 0` is an `invalid_argument` and leaves sigma unchanged; a positive value is stored and `get_sigma` returns it |
| `CodecBase.Codec.GetInterleaver` | src/Module/Codec/Codec.hpp:132-142 | `runtime_error` exactly when no core is stored, else the stored core |
| `CodecBase.Codec.GetEncoder` | src/Module/Codec/Codec.hpp:144-154 | `runtime_error` exactly when no encoder is stored, else the stored encoder |
| `CodecBase.Codec.GetPuncturer` | src/Module/Codec/Codec.hpp:156-166 | `runtime_error` exactly when no puncturer is stored, else the stored puncturer |
| `CodecBase.Codec.SetInterleaver` | src/Module/Codec/Codec.hpp:305-310 | after the call, `get_interleaver` returns the core, and the bit and soft-value interleavers are the ones built over it |
| `CodecBase.Codec.SetEncoder` | src/Module/Codec/Codec.hpp:312-315 | `get_encoder` then returns what was stored; a null pointer makes it throw again |
| `CodecBase.Codec.SetPuncturer` | src/Module/Codec/Codec.hpp:317-320 | `get_puncturer` then returns what was stored; a null pointer makes it throw again |
| `CodecBase.Codec.GetInterleaverBit` | src/Module/Codec/Codec.hpp:322-325 | once a core is set, the bit interleaver is built over that core |
| `CodecBase.Codec.GetInterleaverLlr` | src/Module/Codec/Codec.hpp:327-330 | once a core is set, the soft-value interleaver is built over that core |
| `CodecBase.FrameSizeCheck` | src/Module/Codec/Codec.hpp:188-202 | no `length_error` exactly when the input holds `N_cw * n_frames` values and the output `K * n_frames`; a wrong input size is reported first |
| `CodecBase.CheckedFrameInBounds` | src/Module/Codec/Codec.hpp:207-213 | once the sizes pass, each frame's input slice `[f * N_cw, (f + 1) * N_cw)` and output slice `[f * K, (f + 1) * K)` lie inside their buffers, for every `f < n_frames` |
| `CodecBase.CheckedFramesDisjoint` | src/Module/Codec/Codec.hpp:207-213 | once the sizes pass, a later frame starts no earlier than an earlier one ends, in both buffers |
| `CodecBase.Codec.ExtractSysLlrFrames` | src/Module/Codec/Codec.hpp:207-213 | the output's first `K * n_frames` values are the hook's per-frame outputs laid end to end, the rest unchanged; the base class's hook throws before writing |
| `CodecBase.Codec.ExtractSysLlrChecked` | src/Module/Codec/Codec.hpp:185-205 | a size mismatch is a `length_error` with `Y_K` untouched; otherwise `Y_K` holds the per-frame extraction of `Y_N` |
| `CodecBase.Codec.ExtractSysBitFrames` | src/Module/Codec/Codec.hpp:237-243 | as for soft values, with the hook producing `K` hard bits per frame |
| `CodecBase.Codec.ExtractSysBitChecked` | src/Module/Codec/Codec.hpp:215-235 | a size mismatch is a `length_error` with `V_K` untouched; otherwise `V_K` holds the per-frame extraction of `Y_N` |
| `CodecBase.SysParSizeCheck` | src/Module/Codec/Codec.hpp:248-273 | no `length_error` exactly when the sizes are `N_cw`, `K + tb_2` and `N_cw - K - tb_2` per frame; the input is reported first, then `sys`, then `par` |
| `CodecBase.CheckedSysParInBounds` | src/Module/Codec/Codec.hpp:280-286 | once the sizes pass, each frame's input, systematic and parity slices lie inside their buffers |
| `CodecBase.CheckedSysParDisjoint` | src/Module/Codec/Codec.hpp:280-286 | once the sizes pass, a later frame starts no earlier than an earlier one ends, in each of the three buffers |
| `CodecBase.NegativeStrideRejectsEveryBuffer` | src/Module/Codec/Codec.hpp:248-273 | with a negative systematic or parity stride and at least one frame, every choice of buffer sizes fails the checks |
| `CodecBase.TailLongerThanParity` | src/Module/Codec/Codec.hpp:51-84 | the constructor accepts `K = N = N_cw = 1` with a tail of 2, which gives the `par` socket a negative length, and then `extract_sys_par` rejects every buffer |
| `CodecBase.SysParSizesCoverInput` | src/Module/Codec/Codec.hpp:258-273 | once the sizes pass, the systematic and parity buffers together are as long as the input, and with at least one frame both per-frame lengths are non-negative and sum to `N_cw` |
| `CodecBase.Codec.ExtractSysParFrames` | src/Module/Codec/Codec.hpp:278-287 | the systematic and parity buffers hold the hook's per-frame parts laid end to end at strides `K + tb_2` and `N_cw - K - tb_2`; the base class's hook throws before writing; the base class's hook is accepted for every tail length, and only a subclass hook needs non-negative strides |
| `CodecBase.Codec.SysParLoop` | src/Module/Codec/Codec.hpp:282-286 | the frame loop leaves each output buffer equal to the flattened per-frame outputs followed by its untouched tail |
| `CodecBase.Codec.ExtractSysParChecked` | src/Module/Codec/Codec.hpp:245-276 | a size mismatch is a `length_error` with both outputs untouched; otherwise both hold the per-frame extraction of `Y_N` |
| `Frames.Split` | src/Module/Codec/Codec.hpp:209-212 | frame `f` of a multi-frame buffer is the slice `[f * stride, (f + 1) * stride)` |
| `Frames.StrideBelow` | src/Module/Codec/Codec.hpp:209-212 | a frame before the `n`-th ends no later than `n * stride` |
| `Frames.SlicesDisjoint` | src/Module/Codec/Codec.hpp:282-286 | frame `f < g` ends no later than frame `g` starts |
| `Frames.FlattenSplit` | src/Module/Codec/Codec.hpp:209-212 | cutting a buffer into frames and laying them end to end gives back its first `n * stride` values |
| `Frames.SplitFlatten` | src/Module/Codec/Codec.hpp:209-212 | laying uniform frames end to end and cutting at the same stride gives back the frames |
| `Frames.FlattenSlice` | src/Module/Codec/Codec.hpp:209-212 | frame `f` of a flattened buffer sits at `[f * stride, (f + 1) * stride)` |
| `Frames.ExtractedFrame` | src/Module/Codec/Codec.hpp:207-213 | in the extracted buffer, output slice `[f * K, (f + 1) * K)` is the hook's result on input slice `[f * N_cw, (f + 1) * N_cw)` and frame index `f` |
| `Frames.StoreFrame` | src/Module/Codec/Codec.hpp:210-212 | writing frame `f` at offset `f * stride` extends the finished part of the buffer by exactly that frame |
| `Interpolation.LowerBoundIn` | src/Tools/Math/interpolation.hxx:18 | the bisection keeps everything left of its window below the query and everything right of it not below, so it returns the split point |
| `Interpolation.LowerBound` | src/Tools/Math/interpolation.hxx:18 | on a sorted table, every sample before the result is below the query and every sample from it on is not |
| `Interpolation.LowerBoundIsFirstNotBelow` | src/Tools/Math/interpolation.hxx:18 | the bisection returns the same index as a left-to-right scan for the first sample not below the query |
| `Interpolation.SplitPointUnique` | src/Tools/Math/interpolation.hxx:18 | at most one index splits a table into "below the query" and "not below" |
| `Interpolation.Lerp` | src/Tools/Math/interpolation.hxx:30-33 | the line passes through both samples and, between them, stays between their ordinates |
| `Interpolation.Interpolate` | src/Tools/Math/interpolation.hxx:15-34 | a query at or below the first abscissa gives the first ordinate; one past the last abscissa gives the last ordinate |
| `Interpolation.InterpolateBracketed` | src/Tools/Math/interpolation.hxx:23-33 | inside the range, the search brackets the query by `x_below < x_val <= x_above`, so the denominator is positive; the result is on the line through the two samples and between their ordinates |
| `Interpolation.InterpolateAtSample` | src/Tools/Math/interpolation.hxx:18-33 | a query equal to a sample's abscissa (its first occurrence) returns that sample's ordinate |
| `Interpolation.InterpolatePoints` | src/Tools/Math/interpolation.hxx:36-53 | the `Point` overload clamps a query at or below the first abscissa to the first ordinate, and one past the last abscissa to the last ordinate |
| `Interpolation.InterpolatePointsAgrees` | src/Tools/Math/interpolation.hxx:36-53 | the `Point` overload returns what the parallel-array overload returns on the same samples |
| `Interpolation.InterpolateBatch` | src/Tools/Math/interpolation.hxx:55-61 | each of the first `l_vals` results is the interpolation of its query, the other cells are unchanged, and the output may be the query buffer itself |
| `Interpolation.InterpolateVectors` | src/Tools/Math/interpolation.hxx:63-72 | with equal table lengths and equal query and result lengths, every result is the interpolation of its query |
| `Interpolation.InterpolateInPlace` | src/Tools/Math/interpolation.hxx:74-80 | every point keeps its abscissa and receives the interpolated ordinate |

## Left out

- The module, process, socket and codelet plumbing of the `Codec` constructor (`create_process`, `create_socket_in/out`, `create_codelet`) is left out; it is runtime pipeline wiring. Only the socket lengths are kept, in `DeclaredSockets`.
- The destructor's `delete`s are left out: memory management. So is the leak when `set_interleaver` is called twice.
- `factory::Interleaver::build` is not part of this model. A built interleaver is the value `Interleaver(core, domain)`.
- `Module.hpp` is not part of this model. `n_frames` is a `nat` given at construction, and whatever `Module` checks about it is not modelled.
- A subclass's `_extract_*` hook is a pure function of its input slice and frame index. It writes exactly its own output slice. Hooks that keep state, read or write outside their slices, or throw on a later frame are not modelled. Because hooks are pure, the order in which frames are visited (0 up to `n_frames - 1`) cannot be observed in the model.
- `CodecBase.Codec.ExtractSysLlrFrames`, `ExtractSysBitFrames`, `ExtractSysParFrames`: the base class's hook throws on frame 0, so the model checks for it once before the loop instead of in the first iteration. Both give the same result: the exception, with nothing written.
- `CodecBase.Codec.DeclaredSocketsPassChecks` holds only for tail lengths that keep both `K + tail_length / 2` and `N_cw - K - tail_length / 2` non-negative. The constructor does not check the tail length. For a larger or more negative tail it declares a `sys` or `par` socket of negative length, and with at least one frame, `extract_sys_par` then rejects every buffer (`NegativeStrideRejectsEveryBuffer`, `TailLongerThanParity`).
- The C++ dimensions and sizes are 32-bit `int`. The model uses unbounded integers, so an overflow of `N_cw * n_frames` or a similar product is not modelled.
- `sigma` is a `float` in C++ and a `real` here. In C++, `set_sigma(NaN)` is accepted because `NaN <= 0.f` is false, so the source does not keep sigma "unset or positive". The invariant that `Valid` and `GetSigma` state holds only because a `real` cannot be NaN.
- The input buffers are values (`seq`), so an output buffer that aliases the input is not modelled. `sys` and `par` must be distinct buffers.
- The pointer overloads of `extract_sys_*` require buffers at least as long as the frames they cover. The source does not check this; an overrun is undefined behaviour.
- `comp_equal` is a tolerant float comparison in C++ and exact equality here. The `mipp` include is left out. Values are `real`, so rounding is not modelled.
- `Interpolation.Interpolate` requires a non-empty table: with `l_data = 0` the source reads `y_data[0]` past the end of the table. It also requires the abscissas sorted ascending. `std::lower_bound` itself only needs the table partitioned by `element < x_val`, and a sorted table is partitioned in that way for every query. A table that is partitioned for some queries but not sorted is not modelled.
- `Interpolation.InterpolateBatch` and `InterpolateVectors`: the result buffer must not be one of the tables, and `InterpolateInPlace`: `vals` must not be `data`. The source takes the tables as `const`, and a caller that aliases them changes the table during the loop.
- The two `assert`s of the vector batch overload are preconditions here. In a build with `NDEBUG` they are not checked.
- The BCJR decoder (`Decoder_RSC_BCJR_inter_std.hpp`) and `Modulator_PAM.hpp` are declarations only; their algorithm bodies are not part of this model. `Codec_BCH.cpp` and `Simulation_BFERI_polar.cpp` are factory and simulation wiring over collaborators that are not part of this model.
