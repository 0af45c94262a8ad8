# Stereo reconstruction host: a Dafny model

This project models the sequential logic of the host program `Scan/host.cpp`
of a stereo reconstruction pipeline. The host converts a stereo pair to
grayscale, has GPU kernels compute a disparity map, sums the per-pixel
squared errors against a reference label with a tree reduction, and writes
a coloured PLY point cloud. The GPU kernels themselves are not part of this
model. What the host does around them is modelled:

- **Reduction schedule** (`reduction.dfy`, module `Reduction`).
  `round_up_div` is modelled as the real quotient rounded up. It is proved
  to be the least `q` with `q*b >= a`, which is `(a + b - 1) / b`. The round
  loop of `main` is the method `Reduce`. It shrinks `size` by ceiling
  division by the group size 128. Each round launches one of two kernel
  objects, chosen by round parity and bound to swapped buffers. After the
  loop the host reads the buffer chosen by the parity of the round count.
  Proved: the schedule terminates at one value, and a size of at most one
  runs no round. The number of rounds is the ceiling of log base 128 of the
  size. Every launch covers the live values with whole work-groups. The
  buffer read at the end is the one the last round wrote, or the untouched
  input when no round ran.
- **Reduce kernel semantics.** The kernel body is not visible, so what one
  round computes is an explicit assumption, `Reduction.AssumedGroupSums`:
  each group of 128 live values becomes its sum. Under that assumption the
  value the host reads is the total of the squared errors.
- **Over-read by the padded launches.** Each launch is rounded up to whole
  groups of 128, and the kernel is given no size. For the 1390x1110 image,
  round 0 launches 12 work-items past the end of individualMSE. Round 1
  launches 106 past its live values, and those slots of result_buffer were
  never written. Round 2 launches 33 past its live values, and those slots
  of individualMSE still hold the squared errors of pixels 95 to 127. The
  model's result does not depend on that stale content only because the
  assumed kernel ignores every slot beyond the live values.
- **Grayscale conversion** (`grayscale.dfy`). The nested loop of
  `convertToGrayscale` fills an array row by row. It is proved equal to the
  per-pixel luminance field, with every entry in [0, 255].
- **PLY writer in `main`** (`ply.dfy`). The disparity bands, the emitted
  vertex line per record, the fixed header, and the nested writer loop.
- **`convertToPLY`** (`backprojection.dfy`). Back-projection
  `Z = F*B/d`, `X = -B(2j+d)/(2d)`, `Y = B*i/d`, with the three colour values
  equal to `d`. The commented-out `d <= 0` guard is a `requires d != 0`.
- `config.dfy` holds the host's constants. `grid.dfy` holds the row-major
  index arithmetic shared by the three nested loops.

Modelling choices:

- Floats are modelled as mathematical reals. Grayscale levels are
  integers, because the source truncates them through an unsigned byte.
  The squared errors are also integers in the model. That is an
  assumption: the pointMSE kernel that computes them is not part of this
  model.
- Text output is structured data: a `Header` value and one `Vertex` per
  line.
- Image size, focal length and baseline are parameters of the writer
  methods. The host uses its global constants for them.
- Behaviour of the code that the model keeps as written:
  - The colour ramps are not clamped. The model proves instead
    that every colour value stays in [0, 255] for every disparity.
  - The ramps are not continuous at `d = 100` (`Ply.RampEdges`).
  - The host uses the reduced total directly as the MSE. There is no
    division by the pixel count.
- The host passes no size argument to the Reduce kernel. Whether the kernel
  treats the slots of a partial last group as zero cannot be seen from the
  host. `AssumedGroupSums` states the zero-padding behaviour as an
  assumption.
- `Reduce` requires at least one input value. The host allocates its
  buffers with `width*height` floats, and OpenCL refuses a buffer of size
  zero before the loop is reached.

## Model

| member | source | states |
|---|---|---|
| Reduction.Ceil | Scan/host.cpp:36 | the result is the least integer not below the quotient |
| Reduction.RoundUpDiv | Scan/host.cpp:35-37 | for b > 0 the result q satisfies (q-1)*b < a <= q*b, so q is the ceiling of a/b, and q equals (a + b - 1) / b |
| Reduction.RoundUpDivIsLeast | Scan/host.cpp:35-37 | no smaller q covers a with groups of b |
| Reduction.RoundUpDivShrinks | Scan/host.cpp:166 | for a size above one and a group size above one, the next size is at least one and strictly smaller |
| Reduction.NoRoundsForTrivialSizes | Scan/host.cpp:166 | a starting size of at most one runs zero rounds |
| Reduction.ScheduleShape | Scan/host.cpp:166 | every round's size is above one; each next size is the previous one divided by 128 rounded up, and strictly smaller; the first size is N; after the last round one value is left |
| Reduction.RoundCountIsCeilLog | Scan/host.cpp:165-171 | for N >= 1 the round count r satisfies 128^(r-1) < N <= 128^r |
| Reduction.DispatchCoversRound | Scan/host.cpp:169-170 | each launch has local size 128 and a global size t1 that is a multiple of 128, with size <= t1 < size + 128 |
| Reduction.ScheduledDispatchesCover | Scan/host.cpp:166-170 | over the whole schedule, launch k uses the kernel of round k's parity, local size 128, and a global size that is a multiple of 128 covering round k's size with less than one spare group |
| Reduction.PingPong | Scan/host.cpp:156-173 | round 0 reads individualMSE; each round reads what the previous round wrote; no round reads the buffer it writes; the buffer read after the loop is the last round's output, or individualMSE when no round ran |
| Reduction.GroupSumsKeepTotal | Scan/host.cpp:170 | under the assumed kernel semantics one round leaves ceil(size/128) values with the same total |
| Reduction.LaunchRound | Scan/host.cpp:156-162 | under the assumed kernel semantics a launch writes the partial sums to the front of its output buffer, keeps the rest of it, and keeps the total of the live values |
| Reduction.DefaultScheduleOverreach | Scan/host.cpp:166-170 | for the 1390x1110 image the three launches have 12, 106 and 33 more work-items than live values |
| Reduction.DefaultScheduleStaleTails | Scan/host.cpp:156-170 | for the 1390x1110 image, after round 0 the slots 12054 to 12159 of result_buffer still hold their uninitialised content, and after round 1 the slots 95 to 127 of individualMSE still hold the input squared errors |
| Reduction.RunRound | Scan/host.cpp:168-170 | one loop body: the launch of the round's parity kernel over whole groups; the buffer it reads is unchanged, the other becomes that launch's output, and the total of the live values is kept |
| Reduction.Reduce | Scan/host.cpp:165-173 | the loop issues exactly the scheduled launches, with kernels alternating by parity; it runs as many rounds as the schedule; it reads the parity-selected buffer, which the last round wrote; under the assumed kernel semantics the value read is the sum of all squared errors |
| Reduction.DefaultImageSchedule | Scan/host.cpp:165-173 | for the 1390x1110 image the rounds run over 1542900, 12054 and 95 values, and result_buffer is read |
| Grayscale.Luma | Scan/host.cpp:379-381 | the truncated luminance lies in [0, 255], is within one step of the exact weighted sum, and leaves a grey pixel's level unchanged |
| Grayscale.LumaMonotone | Scan/host.cpp:379-381 | raising any channel never lowers the luminance |
| Grayscale.GrayFieldIsPointwise | Scan/host.cpp:376-381 | the field has one entry per pixel; entry k lies in [0, 255] and depends only on pixel k |
| Grayscale.ConvertToGrayscale | Scan/host.cpp:371-386 | the nested loop returns exactly width*height entries; entry k is the luminance of pixel k, in [0, 255] |
| Grid.RowMajorInBounds | Scan/host.cpp:203 | index i*width + j of a cell lies inside the grid |
| Grid.RowMajorIndex | Scan/host.cpp:203 | index i*width + j lies inside the grid and has row i and column j, so distinct cells get distinct indices |
| Grid.RowMajorCovers | Scan/host.cpp:203 | every index k below width*height is the index of cell (k / width, k % width), which lies inside the grid; with RowMajorIndex, row-major indexing is a bijection between cells and indices |
| Ply.BandOf | Scan/host.cpp:210-225 | each band holds exactly the disparities of its interval, and only those: invalid for d <= 0 or d >= 200, then (0,100), [100,150) and [150,200) |
| Ply.EmitVertex | Scan/host.cpp:210-225 | an invalid band emits six zeros and discards X, Y, Z; otherwise X, Y, Z pass through unchanged; every colour value is in [0, 255]; blue is 255 below 100, green is 255 in [100,150), red is 255 from 150 |
| Ply.RampEdges | Scan/host.cpp:215-225 | the colour jumps at d = 100 (red from 0 to 154, blue from 255 to 101); at 150 every channel is within 3 of its value just below |
| Ply.VertexOfPixel | Scan/host.cpp:201-207 | the vertex line of pixel (i, j) is line i*width + j, made from floats 4k .. 4k+3 with k = i*width + j |
| Ply.WritePointCloud | Scan/host.cpp:195-229 | the header announces width*height vertices with the six properties; the file holds exactly that many lines; line k is the banded emission of record k, in row-major order |
| BackProjection.BackProject | Scan/host.cpp:420-424 | for d != 0: Z*d == F*B, Y*d == B*i, X == -B/2 - B*j/d, and all three colour values equal d |
| BackProjection.DepthDecreasesWithDisparity | Scan/host.cpp:420 | with positive F and B, a larger positive disparity gives a smaller depth |
| BackProjection.PointOfPixel | Scan/host.cpp:413-417 | the line for pixel (i, j) is line i*width + j and back-projects disparity[i*width + j] |
| BackProjection.ConvertToPly | Scan/host.cpp:398-431 | the header announces width*height vertices and the file holds exactly that many lines; line k back-projects entry k at row k / width and column k % width; every entry read must be non-zero |

## Left out

- OpenCL context, program build, kernel creation, buffer allocation, transfers and profiling (Scan/host.cpp:48-87, 102-127): backend plumbing, not sequential logic.
- The kernels `templateMatching`, `pointMSE`, `Reduce` and `pointCloud`: their bodies are not part of this model.
  - The disparity search is therefore not modelled.
  - The point-cloud records read by the writer are opaque inputs.
  - The point-cloud kernel is given label_buffer, the reference disparity, not the computed disparity (Scan/host.cpp:184). The model does not capture which buffer the records come from.
  - The reduction's per-round result is an assumption (`AssumedGroupSums`).
- Reduction.Reduce: the MSE it returns equals the sum of squared errors only under the assumed kernel semantics. The padded launches over-read: 12 slots past the end of individualMSE in round 0, 106 never-written slots of result_buffer in round 1, and 33 stale squared errors of individualMSE in round 2 (`DefaultScheduleOverreach`, `DefaultScheduleStaleTails`). The kernel may add that content into the sums; the model assumes it does not. It also works over integers, not floats, so float rounding in the device sums is not captured.
- Reduction.Reduce: `size` and `t1` are 32-bit `int`s in the source (Scan/host.cpp:166, 169), while the model's sizes are unbounded. Every size the schedule produces is at most the pixel count, so for the host's image nothing overflows. An image of more than about 2^31 pixels would overflow and is not modelled.
- Reduction.RoundUpDiv: takes the floating-point quotient as exact. This holds for sizes far below 2^53, which is every size the host uses.
- Grayscale.Luma: the float weights 0.299f, 0.587f and 0.114f are replaced by exact thousandths, and every guarantee of `Luma` belongs to that abstraction. In float32, rounding each product and partial sum can leave the total just below an integer. So a grey pixel of level 37, 61, 74, 93, 111, 122, 148, 186, 215, 222, 233, 244 or 253 is truncated to one level lower. The model keeps the level, so the statement that a grey pixel keeps its level does not hold for the float code. Unsigned-byte truncation of out-of-range values is not needed, because the sum never exceeds 255.
- Ply.EmitVertex: works over reals. Float rounding of `2*(d+27)` and the other ramps, and NaN disparities, are not captured.
- BackProjection.BackProject: works over reals rather than the source's float and double mix, so rounding is not captured.
- PSNR through `log10` (Scan/host.cpp:176): floating point; a zero MSE divides by zero there.
- Image load and save through stb, and `saveDisparityMap`'s float-to-byte cast and PNG write (Scan/host.cpp:357-370, 387-397): I/O. The cast is undefined for out-of-range values.
- Decimal formatting of the PLY text: the model keeps each line's six numbers and the header as structured data.
- The commented-out dynamic-programming disparity code (Scan/host.cpp:236-341): not compiled.
- The `catch` handler and the final `std::cin.get()`: console handling.
