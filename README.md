# Model Predictive Control bridge: discrete core

The program is the bridge between a driving simulator and a model-predictive
controller. On every Socket.IO telemetry frame it extracts the JSON payload,
fits a cubic through the waypoints in the vehicle's frame, evaluates the
cross-track error, calls the optimiser, and sends back the command, the
predicted trajectory and the reference line.

This project models the exact, discrete parts of that handler (all in
`src/main.cpp`) and proves their contracts:

- `Frames` covers the `"42"` event-frame gate and `hasData`, the routine that cuts the
  payload out of a frame. `std::string::find`, `find_first_of` and `rfind` are modelled
  with contracts that say which index each returns. `substr` is modelled
  with its clamping of the length to the end of the string.
  The unsigned `size_t` length arithmetic is written out modulo 2^64.
- `Polynomial` covers `polyeval` as a loop over exact reals. It is proved equal to the
  power sum `Σ c[i]·x^i` and to Horner's scheme. Its value at 0 is `c[0]`,
  which is how the handler obtains the cross-track error.
- `Fitting` covers the Vandermonde design matrix `polyfit` builds in place, with
  `A[j,i] == x_j^i`. It also proves that row `j` times a coefficient vector is
  the polynomial at `x_j`, so samples lying on a polynomial solve `A c = y`.
- `Telemetry` covers splitting the optimiser's flat result into the x and y trajectory
  lists, and the order-preserving copy of the reference line.

Doubles are modelled as exact `real`s throughout.

## Model

| member | source | states |
|---|---|---|
| `Frames.Find` | src/main.cpp:24 | returns None exactly when the text does not occur, otherwise the lowest index where it occurs |
| `Frames.FindFirstOf` | src/main.cpp:25 | returns the lowest index holding one of the given characters, or None when no character of the set occurs |
| `Frames.RFind` | src/main.cpp:26 | returns None exactly when the text does not occur, otherwise the start of its last occurrence |
| `Frames.HasData` | src/main.cpp:23-33 | a frame containing `null` yields `""`; a non-empty result starts with `[`, is a contiguous substring of the frame, and the frame has no `null` |
| `Frames.HasDataMissingMarker` | src/main.cpp:25-32 | with no `[` or no `}]` in the frame, `hasData` yields `""` |
| `Frames.HasDataBetween` | src/main.cpp:29-30 | with no `null` and the last `}]` after the first `[`, the result is exactly `s[b1 .. b2+2)`, so it begins with `[` and ends with `}]` |
| `Frames.HasDataReversed` | src/main.cpp:29-30 | with the last `}]` before the first `[`, the wrapped length gives `""` when the `}]` sits right before the `[`, and otherwise the whole tail from the `[` |
| `Frames.HasDataTailCounterexample` | src/main.cpp:29-30 | on the frame `42}]x[1]` `hasData` returns `[1]`, while the intended extraction returns `""` |
| `Frames.ExtractPayload` | src/main.cpp:20-33 | the corrected extraction: `""` whenever `null` occurs; a non-empty result starts with `[`, ends with `}]` and is a substring of the frame |
| `Frames.ExtractPayloadSpec` | src/main.cpp:20-33 | the payload is non-empty exactly when there is no `null` and the last `}]` follows the first `[`, and it is then the text between them |
| `Frames.ExtractPayloadAgrees` | src/main.cpp:23-33 | outside the reversed-marker case the corrected extraction equals `hasData` as written |
| `Frames.DispatchAsWritten` | src/main.cpp:81-86 | no reply exactly for frames not longer than 2 or not starting `4`,`2`; the manual reply exactly for event frames where `hasData` gives `""`; otherwise `hasData`'s result, starting with `[`, goes to the parser |
| `Frames.Dispatch` | src/main.cpp:81-86 | the same gate with the corrected extraction: no reply exactly for non-event frames; the manual reply exactly for event frames without a payload; otherwise the payload goes to the parser |
| `Frames.DispatchAgrees` | src/main.cpp:81-86 | the corrected handler decides every frame as the handler as written does, unless the frame's last `}]` precedes its first `[` |
| `Frames.DispatchTailCounterexample` | src/main.cpp:81-84 | on `42}]x[1]` the handler as written hands `[1]` to the parser, while the corrected handler sends the manual reply |
| `Polynomial.PolySumShift` | src/main.cpp:36-42 | `c(x) == c[0] + x·c'(x)`, where `c'` holds the coefficients shifted down one power |
| `Polynomial.PolySumIsHorner` | src/main.cpp:36-42 | the power sum `Σ c[i]·x^i` equals Horner's evaluation for every coefficient sequence |
| `Polynomial.PolyEval` | src/main.cpp:36-42 | the loop's result is `Σ_{i<|c|} c[i]·x^i`, and equals Horner's evaluation |
| `Polynomial.PolySumAtZero` | src/main.cpp:120 | a non-empty polynomial evaluated at 0 is its constant coefficient |
| `Polynomial.CrossTrackError` | src/main.cpp:119-120 | the cross-track error `polyeval(coeffs, 0)` is `coeffs[0]` |
| `Fitting.DesignMatrix` | src/main.cpp:47-61 | requires equal sample counts and `1 <= order <= n-1`; builds a fresh `n × (order+1)` matrix with `A[j,i] == xvals[j]^i`, column 0 all ones, so row `j` is `VandermondeRow(xvals[j], order + 1)` |
| `Fitting.RowTimesCoefficients` | src/main.cpp:51-61 | a design-matrix row times a coefficient vector is the polynomial evaluated at that row's sample |
| `Fitting.ExactSamplesSolveDesignSystem` | src/main.cpp:51-64 | when every sample lies on polynomial `c`, each Vandermonde row of length `|c|` times `c` gives the sample's y value; with `|c| == order + 1` these are the rows of `DesignMatrix`, so `c` solves `A c = y` with zero residual |
| `Telemetry.SplitTrajectory` | src/main.cpp:149-155 | both lists have length `N = (|solution|-2)/2`, with `mpc_x[i] == solution[i+2]` and `mpc_y[i] == solution[i+2+N]`; command, x block and y block reassemble the solution's prefix, and at most one trailing element, present only when the length is odd, is ignored |
| `Telemetry.SplitPackedSolution` | src/main.cpp:151-155 | splitting a solution laid out as command, x block, y block recovers exactly those x and y blocks |
| `Telemetry.CopyReferenceLine` | src/main.cpp:158-164 | the output lists have the length of the x list and equal the inputs element by element, in order; with equal-length inputs they are the inputs |

## Findings

| source | as written | input that shows it | evidently intended | confidence | as-written member | corrected member |
|---|---|---|---|---|---|---|
| src/main.cpp:29-30 | `substr(b1, b2 - b1 + 2)` is computed in unsigned `size_t`. When the last `}]` precedes the first `[`, the length wraps. If the `}]` sits right before the `[`, the length is 0 and `""` is returned. Otherwise it is huge, `substr` clamps it, and the tail from `[` is returned. That tail does not end in `}]`, and it is handed to the JSON parser | the frame `42}]x[1]`: `hasData` returns `[1]` | no data (`""`), so the handler sends the manual-driving reply | medium, not executed | `Frames.HasDataTailCounterexample` | `Frames.ExtractPayload` |
| src/main.cpp:81-84 | the handler passes `hasData`'s result to the parser, so the wrapped tail reaches `json::parse` | the frame `42}]x[1]`: `[1]` is parsed | the manual-driving reply | medium, not executed | `Frames.DispatchTailCounterexample` | `Frames.Dispatch` |

`Frames.DispatchAsWritten` is the handler as written, on `hasData`. `Frames.Dispatch` uses the
corrected `Frames.ExtractPayload`. `Frames.ExtractPayloadAgrees` and `Frames.DispatchAgrees` show
the two agree except in the reversed-marker case.

## Left out

- The websocket hub, the HTTP handler, the connect and disconnect callbacks,
  `ws.send` and console logging (src/main.cpp:69-80, 180-220) are I/O plumbing.
  The copy of the raw frame into a string (line 79) is part of this I/O.
- JSON parsing and serialisation (src/main.cpp:84-95, 142-168) use the
  nlohmann library. `Frames.Dispatch` stops where the payload is handed to the
  parser. The `"telemetry"` event check after parsing is not modelled.
- `MPC::Solve` (src/main.cpp:129) is the external optimiser. `MPC.h` and `MPC.cpp` are not part of this model. The
  optimiser's result is a parameter of `Telemetry.SplitTrajectory`.
- The Householder QR solve (src/main.cpp:63-65) is Eigen's floating-point linear
  algebra. The model stops at the design matrix. Uniqueness of the least-squares
  solution is not modelled.
- Latency prediction, the frame rotation, the heading error `-atan(coeffs[1])`,
  the mph-to-m/s factor, `deg2rad` and the steering rescale `-solution[0]/deg2rad(25)`
  (src/main.cpp:16-18, 96-115, 122, 134) are trigonometry and
  floating-point scaling. Dafny has no trigonometry.
- The 100 ms `sleep_for` (src/main.cpp:179) is a timing delay with no logic.
- Floating-point rounding: every `double` is an exact `real`. `pow(x, i)` is
  exact `Pow`.
- `Fitting.DesignMatrix` models `polyfit`'s `assert`s as preconditions. The code aborts
  rather than returning an error, so there is no "underdetermined fit" result.
- `Telemetry.SplitTrajectory` requires at least two elements because the handler reads
  `solution[0]` and `solution[1]` (lines 134-135) before splitting. The `int`
  truncation of `N` and `int` overflow of indices past 2^31 are not modelled.
- `Telemetry.CopyReferenceLine` requires the y list to be at least as long as the x list,
  because the loop reads it at every x index. The earlier `polyfit` assertion
  already makes them equal.
- `Frames.HasDataBetween`, `Frames.HasDataReversed` and `Frames.ExtractPayloadAgrees` assume frame lengths
  below 2^64, which is the bound of `std::string` sizes on a 64-bit platform.
- The code has no path for an optimiser that fails to converge, so this model
  has no "no feasible plan" result either.
- `Frames.Dispatch` differs from the handler as written on frames whose last `}]`
  precedes their first `[`. `Frames.DispatchAsWritten` models those frames as written.
- `std::string` holds bytes, and the model holds characters. Every marker searched for
  (`[`, `}]`, `null`) is ASCII, and UTF-8 never uses ASCII bytes inside a multi-byte
  character, so the searches find the same markers. Byte offsets and character
  indices differ on non-ASCII frames, and the model does not capture that difference.
