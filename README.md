# Rain particle pool of the ocean scene

This project models the rain particle system of a browser ocean scene written
with three.js (`main.js`). The pool holds `rainCount = 10000` drops. Their
positions sit in one flat buffer with three slots per drop: drop `i` has `x` at
index `3i`, `y` at `3i+1` and `z` at `3i+2`. Beside it is a list with one fall
velocity per drop.

- **Construction** (`main.js:116-130`). Each drop takes four random draws in
  `[0, 1)`, in the order x, y, z, velocity. It gets `x, z = (r - 0.5) * 100`,
  `y = r * 50` and velocity `-0.2 - r * 0.5`. The positions are pushed onto a
  list, which is then copied into the geometry's typed position buffer.
- **Per-frame update** (`main.js:152-160`). For each drop, its velocity is added
  to its `y` slot in place. If the result is below `0`, the slot is overwritten
  with exactly `50`.

Everything is in module `Rain` (`rain.dfy`):

- pure specification functions: `SpawnPositions`/`SpawnVelocities` for what
  construction pushes; `NextY`, `Frame` and `Frames` for one frame and for `k`
  frames;
- lemmas about those functions;
- class `RainPool`. It holds the position buffer as an `array<real>` and the
  velocities as a `seq<real>` fixed at construction. Its constructor and its
  `Step` method are proved equal to the specification functions.

`Math.random()` is replaced by a sequence of draws passed to the constructor.
Its only requirement is that every draw lies in `[0, 1)`. JavaScript numbers
are modelled as `real`.

The fall speed `0.2 + 0.5r` (main.js:127) lies in `[0.2, 0.7)`: it can equal
`0.2` but never reaches `0.7`, so velocities are in `(-0.7, -0.2]`.

## Model

| member | source | states |
|---|---|---|
| `Rain.Horizontal` | main.js:123-125 | a draw in [0,1) gives an x or z coordinate in [-50, 50) |
| `Rain.SpawnY` | main.js:124 | a draw in [0,1) gives a spawn height in [0, 50) |
| `Rain.FallVelocity` | main.js:127 | a draw in [0,1) gives a velocity in (-0.7, -0.2], so it is always strictly negative |
| `Rain.SpawnPositions` | main.js:119-126 | pushing three coordinates per drop gives a buffer of length 3 * (number of drops) |
| `Rain.SpawnVelocities` | main.js:120-127 | pushing one velocity per drop gives a list of length (number of drops) |
| `Rain.SpawnAt` | main.js:122-128 | drop i is built from draws 4i..4i+3 and sits at buffer slots 3i, 3i+1, 3i+2, with velocity i at index i |
| `Rain.SpawnInvariant` | main.js:122-128 | with all draws in [0,1), every spawned drop has x, z in [-50,50), y in [0,50) and velocity in (-0.7,-0.2] |
| `Rain.NextY` | main.js:155-157 | the new height is never below the floor 0; it is exactly 50 when y + v < 0 (the overshoot is not carried over), and y + v otherwise |
| `Rain.Frame` | main.js:154-159 | a frame keeps the buffer's length |
| `Rain.FrameAt` | main.js:154-158 | a frame keeps each drop's x and z, and its new y is NextY of its own old y and velocity only |
| `Rain.FrameSlot` | main.js:153-158 | a frame changes only slots with index 3i+1; every other slot keeps its value |
| `Rain.FrameKeepsInvariant` | main.js:154-159 | if all heights are in [0,50] and velocities in (-0.7,-0.2] before a frame, the same holds after it |
| `Rain.FallOrReset` | main.js:155-157 | each frame, a drop either falls strictly (no reset) or, having passed the floor, is at exactly 50 |
| `Rain.WorkedCase` | main.js:155-157 | a drop at y = 0.3 with velocity -0.5 is at exactly 50 after one frame, with x and z unchanged |
| `Rain.Frames` | main.js:186 | repeated frames keep the buffer's length |
| `Rain.FramesSucc` | main.js:186 | k + 1 frames are one more frame applied to the result of k frames, so k calls of Step give Frames of k |
| `Rain.LifetimeInvariant` | main.js:154-159 | after any number of frames the pool invariant still holds and every drop's x and z are as spawned |
| `Rain.RainPool.constructor` | main.js:116-130 | from 4 * 10000 draws in [0,1), the buffer equals SpawnPositions and the velocities equal SpawnVelocities; the pool invariant holds |
| `Rain.RainPool.Step` | main.js:152-160 | the buffer after the in-place loop equals Frame of the old buffer; the velocities are unchanged and the pool invariant is kept |

## Left out

- Scene, renderer, camera, fog, orbit controls, the rain material and adding the points to the scene (main.js:1-28, 95-96, 133-142): these are calls into three.js, which is not part of this model.
- The ocean shaders (main.js:45-89), the buoy bobbing and tilt (main.js:170-182) and the light orbit (main.js:163-167): floating-point trigonometry with nothing discrete to prove.
- The asynchronous model load (main.js:99-114), the clock, frame scheduling (main.js:145-147, 185-189) and the resize handler (main.js:192-196): browser and network I/O. Repeated frames are modelled only as `Frames`.
- `Math.random()`: replaced by the `draws` parameter of the constructor.
- The `needsUpdate` flag (main.js:160): this is only a signal to the renderer to upload the buffer again; the renderer is not modelled.
- Rain.RainPool.Step: the heights are exact `real` sums. The source stores them in a Float32 buffer, so each `y + v` is rounded to single precision before the comparison with 0. The model does not capture this rounding.
- Rain.RainPool.constructor: the single-precision rounding of positions when they are copied into the Float32 buffer (main.js:130) is not modelled. So the half-open upper bounds `X, Z < 50` in `PoolInvariant` and `Y < 50` in `SpawnInvariant` hold only for exact reals: at the largest draw below 1 (1 - 2^-53) both `(r - 0.5) * 100` and `r * 50` are doubles just below 50, which round to exactly 50.0 in the Float32 buffer.
