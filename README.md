# PreIntegratedSSS core in Dafny

PreIntegratedSSS renders a mesh with pre-integrated subsurface scattering
in three GPU passes:

- pass 0 bakes a 256 x 256 look-up table (LUT) of diffusion responses;
- pass 1 writes positions and normals into a G-buffer;
- pass 2 shades the image from the G-buffer, the LUT and the scene's point
  and direction lights.

This project models the host-side logic around those GPU calls and proves
its properties:

- `mesh.dfy` (module `Mesh`) holds the two numba kernels that prepare the
  mesh.
  - `normal_array_kernel` collapses per-corner normals into one normal per
    vertex. A later corner overwrites an earlier one.
  - `ccw_check_kernel` walks the triangle list in place. It swaps the first
    two indices of every triangle that winds clockwise with respect to its
    first vertex's normal.
  - Both are methods over arrays, proved against specification functions.
    Coordinates are integers, so the orientation test is exact.
  - Negative indices count from the end, as they do in numpy and numba.
- `light_buffer.dfy` (module `LightBuffer`) packs the light uniform
  buffers.
  - Each light becomes a 32-byte `"=3f4x3f4x"` record. That is the std140
    layout of two vec3 members, from section 7.6.2.2 of the OpenGL 4.5 Core
    Profile specification.
  - The records are written one by one into a zeroed byte array that holds
    at least one record.
- `readback.dfy` (module `Readback`) models the final readback. The 1024 x
  1024 float image is read back, reshaped to rows x columns x channels, and
  reversed along both image axes.
- `shader_text.dfy` (module `ShaderText`) models `str.replace`. Every pass
  builds its two shader stages from one source text with it. The module also
  holds the pass 1 and pass 2 programs.
- `lut.dfy` (module `Lut`) models the selection logic of `generate_lut`:
  - the case-insensitive choice of diffusion profile, with exit status 1 for
    an unknown one;
  - the profile's shader variant;
  - which uniforms the profile gets;
  - the scene's `max-curvature` replacing the module default;
  - the layout of the LUT readback.
- `float32.dfy` (module `Float32`) holds single-precision values as IEEE-754
  bit patterns, with their 4-byte little-endian encoding and decoding.
  `common.dfy` holds `Option`.

Inputs the program gets from I/O or from the GPU are parameters of the
model:

- the scene settings;
- the mesh arrays;
- the shader source texts;
- the scattering parameters;
- the bytes read back from a render target.

## Model

| member | source | states |
|---|---|---|
| `Mesh.Wrap` | src/main.py:20-21 | Every index in `[-n, n)` designates a row below `n`: a non-negative index designates itself, and a negative index `i` designates row `n + i`, because the row differs from `i` by a multiple of `n`. |
| `Mesh.Corners` | src/main.py:20 | `zip` visits as many corners as the shorter of the two index arrays has. |
| `Mesh.LastCorner` | src/main.py:20-21 | Finds the last corner among the first `n` that designates vertex `v`. When it returns one, no later corner designates `v`. When it returns none, no corner does. |
| `Mesh.Scatter` | src/main.py:20-21 | The rows after the first `n` corners are written in `zip` order. The row count never changes; `ScatterRow` states which value each row ends with. |
| `Mesh.ScatterRow` | src/main.py:19-22 | After the corners are scattered, row `v` is the normal of the last corner that designates `v`. A row no corner designates keeps its initial, unspecified contents. |
| `Mesh.NormalArray` | src/main.py:17-22 | The kernel returns a fresh array of exactly `vertex_num` rows. It equals the corner-by-corner scatter over the `zip`ped corners, starting from arbitrary row contents, one value per row, for what `np.empty` leaves. |
| `Mesh.Clockwise` | src/main.py:29-31 | The kernel's test `dot(n, normal[i0]) < 0` holds iff the triangle with its first two indices swapped has a positive orientation against the same normal. |
| `Mesh.SwapEachTriangle` | src/main.py:27-32 | Triangle `j` of the rebuilt list is triangle `j` of the input, either kept or with its first two indices swapped, as decided for that triangle alone. |
| `Mesh.FixWindingSwapsIffClockwise` | src/main.py:27-32 | In the result, the third index of every triangle is unchanged. The first two are swapped exactly when the original triple gives `dot(cross(p1-p0, p2-p0), normal[i0]) < 0`. A zero product leaves them alone. |
| `Mesh.FixWindingKeepsVertices` | src/main.py:28-32 | Every triangle keeps the same multiset of vertex indices. |
| `Mesh.SwapNegates` | src/main.py:29-31 | Swapping the first two corners negates the orientation product. |
| `Mesh.FixWindingCounterClockwise` | src/main.py:26-32 | After the check, every triangle has a non-negative orientation with respect to the normal of its original first vertex. |
| `Mesh.FixTriangleAt` | src/main.py:28-32 | One loop iteration swaps entries `i` and `i+1` iff that triangle is clockwise, and changes no other entry. |
| `Mesh.FixWindingInPlace` | src/main.py:25-32 | The kernel leaves the triangle array equal to `FixWinding` of its old contents. The vertex and normal arrays are unchanged. |
| `Mesh.FixWinding` | src/main.py:25-32 | The checked triangle list has the input's length. Its swap rule is stated by `FixWindingSwapsIffClockwise`, `FixWindingKeepsVertices` and `FixWindingCounterClockwise`. |
| `Float32.EncodeAll` | src/main.py:101-105 | Every float of a run takes four bytes; `EncodeAllAt` places float `k` and `DecodeAllEncodeAll` inverts the encoding. |
| `Float32.DecodeAll` | src/main.py:166 | `np.frombuffer(..., dtype=np.float32)` reads one float per four bytes; `EncodeAllDecodeAll` shows that it loses nothing. |
| `Float32.DecodeAllEncodeAll` | src/main.py:166 | Reading float32 values from the bytes that encode them gives the same values. |
| `Float32.EncodeAllDecodeAll` | src/main.py:166 | A byte buffer of whole floats is exactly the encoding of the floats read from it. |
| `Float32.EncodeAllAt` | src/main.py:101-105 | Float `k` of a run is encoded at bytes `[4k, 4k+4)`. |
| `LightBuffer.LightFormatIsStd140` | src/main.py:96 | `calcsize("=3f4x3f4x")` is 32, a multiple of 16. The format takes six floats. The vec3 fields sit at offsets 0 and 16, and the pads at 12 and 28. |
| `LightBuffer.Pack` | src/main.py:101-105 | `struct.pack` gives exactly `calcsize(fmt)` bytes for as many values as the format has float slots. |
| `LightBuffer.Record` | src/main.py:101-105 | The record of a light is `calcsize("=3f4x3f4x")` = 32 bytes. `RecordLayout` states its layout, and `UnpackRecordRecord` reads its values back. |
| `LightBuffer.RecordLayout` | src/main.py:101-105 | A record is 32 bytes: values 0-2 in bytes 0-11, zeros in 12-15, values 3-5 in bytes 16-27, zeros in 28-31. |
| `LightBuffer.UnpackRecordRecord` | src/main.py:101-105 | Reading the six float slots of a record gives back the light's emission followed by its position or direction. |
| `LightBuffer.Packed` | src/main.py:96-105 | The filled buffer is `max(n, 1) * 32` bytes long. `PackedRecord` and `PackedRoundTrip` state what it holds. |
| `LightBuffer.PackedSize` | src/main.py:96-98 | The buffer is `max(n, 1) * 32` bytes. With no lights it is one all-zero record. |
| `LightBuffer.PackedRecord` | src/main.py:98-105 | Record `i` occupies bytes `[32i, 32i+32)` of the buffer. |
| `LightBuffer.PackedRoundTrip` | src/main.py:100-105 | The values of light `i` read back from its slot of the buffer are the values it was packed from. |
| `LightBuffer.WriteAt` | src/main.py:101 | The slice assignment replaces exactly the bytes of the slice and changes no other byte. |
| `LightBuffer.PackLights` | src/main.py:96-117 | The loop produces a fresh buffer equal to `Packed(lights)` when every light has six values. When a light does not, `struct.pack` raises and no buffer is produced. |
| `Readback.ChunksAt` | src/main.py:166 | Row `i` of a reshape is the `i`-th run of `n` elements of the flat buffer. |
| `Readback.FlattenChunks` | src/main.py:166 | Reshaping loses and reorders nothing: the rows laid end to end are the flat buffer. |
| `Readback.Reshape` | src/main.py:166 | `reshape(res + (-1,))` gives `rows` rows of `cols` pixels each. `ReshapeAt` places each pixel in the flat buffer. |
| `Readback.ReshapeAt` | src/main.py:166 | Pixel `(r, c)` of the reshaped image is the run of channel values starting at float `(r * cols + c) * 3`. |
| `Readback.Flip` | src/main.py:166 | `[::-1, ::-1]` keeps the number of rows, and output row `r` is as long as input row `rows-1-r`. `FlipAt`, `FlipFlip` and `FlattenFlip` state the reordering. |
| `Readback.FlipAt` | src/main.py:166 | Output pixel `(r, c)` of `[::-1, ::-1]` is input pixel `(rows-1-r, cols-1-c)`. |
| `Readback.FlipFlip` | src/main.py:166 | Applying the reordering twice gives the original image. |
| `Readback.FlattenFlip` | src/main.py:166 | Flipping both axes of a row-major image reverses its pixel stream. |
| `Readback.Canvas` | src/main.py:164-166 | The image handed to the writer has one row per image row. `CanvasAt` states where each of its pixels comes from. |
| `Readback.CanvasAt` | src/main.py:164-166 | Pixel `(r, c)` of the written image is pixel `(rows-1-r, cols-1-c)` of the buffer read as floats and reshaped. |
| `Readback.CanvasFloats` | src/main.py:164-166 | A buffer of `rows * cols * 4 * 3` bytes holds `rows * cols * 3` floats, so the `-1` of the reshape is 3: every pixel of the written image has exactly three channel values. |
| `Readback.OutputImage` | src/main.py:164-166 | At `res = (1024, 1024)` the written image has 1024 rows of 1024 pixels. |
| `ShaderText.Replace` | src/main.py:75-78 | A replacement as long as the placeholder keeps the text's length, and a longer one never shortens it. `ReplaceFirst` and `ReplaceAbsent` together determine its result. |
| `ShaderText.ReplaceFirst` | src/main.py:75-78 | The leftmost occurrence of the placeholder is replaced by the replacement text itself, at its own position. The text before it is kept, and the replacement continues on the text after the occurrence. |
| `ShaderText.ReplaceAbsent` | src/main.py:75-78 | A text without the placeholder is returned unchanged, with no substitution. |
| `ShaderText.ReplaceLength` | src/main.py:75-78 | Every substitution trades the placeholder's length for the replacement's. |
| `ShaderText.OccursCounts` | src/main.py:75-78 | Wherever the placeholder occurs, at least one substitution is made. |
| `ShaderText.ReplaceDistinguishes` | src/main.py:123-129 | Different replacement words give different texts wherever the placeholder occurs. |
| `ShaderText.ReplaceSeparates` | src/main.py:123-129 | Two replacement words give the same text iff they are equal or the placeholder does not occur. |
| `ShaderText.GeometryProgram` | src/main.py:73-78 | Pass 1's two stages get the same text iff the source does not contain `SHADER_TYPE`. |
| `ShaderText.ShadingProgram` | src/main.py:121-129 | Pass 2's vertex stage is pass 1's. `SpecularToggle` states how the option reaches the fragment stage. |
| `ShaderText.StagesDiffer` | src/main.py:73-78 | The vertex and fragment texts differ iff the source contains `SHADER_TYPE`. Without it, both are the source itself. |
| `ShaderText.SpecularToggle` | src/main.py:121-129 | `specular-on` leaves the vertex text as pass 1 builds it. It changes the program iff `SPECULAR_OPTION` is still in the fragment text after the stage substitution. Without that placeholder, pass 2's program is exactly pass 1's for either setting. |
| `Lut.Lower` | src/lut.py:47-49 | Lower-casing keeps the length, leaves no upper-case letter, and keeps every character that is not an upper-case letter. |
| `Lut.LowerIdempotent` | src/lut.py:47-49 | Lower-casing an already lower-cased setting changes nothing. |
| `Lut.ParseEquation` | src/lut.py:47-53 | A selected profile's name is the lower-cased setting, and nothing is selected iff the lower-cased setting is neither name. |
| `Lut.ParseIgnoresCase` | src/lut.py:47-50 | Two settings that differ only in letter case select the same profile. |
| `Lut.ParseAcceptsExactly` | src/lut.py:14-16 | A setting selects profile `e` iff it is `e`'s enum value, `"dipole"` or `"gaussian"`, in some mix of letter cases. |
| `Lut.ParseRejects` | src/lut.py:47-53 | A setting is rejected iff it matches neither name up to case. |
| `Lut.Uniforms` | src/lut.py:72-77 | Five uniforms are written for Dipole and two for Gaussian, and `maxCurvature` is written last. `UniformRule` states which ones and their values. |
| `Lut.LookupWritten` | src/lut.py:72-77 | When every uniform is written at most once, a written uniform holds the value of its write. |
| `Lut.LookupUnwritten` | src/lut.py:72-77 | A uniform that is never written holds no value. |
| `Lut.UniformRule` | src/lut.py:72-77 | `zr`, `zv` and `sigmaTr` are set to the parameters for Dipole and left unset for Gaussian. `albedo` and `maxCurvature` are set for both. No uniform is set twice, and no other uniform is set. |
| `Lut.LutProgram` | src/lut.py:66-71 | Pass 0's vertex stage is pass 1's. `ProfileSelectsVariant` states how the profile reaches the fragment stage. |
| `Lut.ProfileSelectsVariant` | src/lut.py:66-71 | The profile does not change the vertex text. The two profiles give different programs iff `DIFFUSION_PROFILE` is still in the fragment text after `SHADER_TYPE` becomes `FRAGMENT_SHADER`. Without that placeholder, pass 0's program is exactly pass 1's for either profile. |
| `Lut.GenerateLut` | src/lut.py:47-77 | The call ends in exit status 1 iff the profile is unknown. Otherwise the new module `MAX_CURVATURE` is the scene's `max-curvature`. |
| `Lut.DefaultUnobserved` | src/lut.py:11-58 | The module's default `MAX_CURVATURE = 1.0`, or any earlier value, never affects the outcome, because the scene's value replaces it before it is read. |
| `Lut.GenerateLutSelects` | src/lut.py:47-58 | Exit status 1 comes iff the profile is unknown, and then nothing is built. Otherwise the job has the profile's program and a 196608-byte readback. The `maxCurvature` uniform and the new module value are the scene's `max-curvature`, whatever the previous value was. |
| `Lut.LutImage` | src/lut.py:84-86 | The LUT image has 256 rows. `LutImageLayout` states where each pixel comes from. |
| `Lut.LutImageLayout` | src/lut.py:84-86 | LUT pixel `(x, y)` is the three bytes at offset `3 * (256y + x)`. The image rows laid end to end are exactly the readback buffer, with no reordering. |

## Left out

- Floating-point numerics are not modelled:
  - `calculate_parameters` (src/lut.py:26-37) is not modelled. Its result
    enters `GenerateLut` as a `Parameters` input.
  - The per-vertex normal normalisation at src/main.py:61 is not modelled.
    Dividing by a positive length keeps the sign of the orientation test.
  - The `min_curvature` computation at src/main.py:52 is not modelled.
  - Rounding of JSON numbers (doubles) to float32 is not modelled. Values
    enter the model as float32 bit patterns.
  - `struct.pack` raises `OverflowError` for a light value beyond float32
    range (src/main.py:101). That error path is not modelled, because values
    are already float32 here.
- Mesh coordinates are integers. `Mesh.Orientation` is therefore exact,
  where the kernel computes in float32 and can round a nearly degenerate
  triangle's product to the other sign or to zero.
- `Mesh.NormalArray` takes the first contents of the rows that `np.empty`
  leaves unspecified as an arbitrary parameter, one value per row.
- `Mesh.NormalArray` requires every visited corner's vertex and normal
  indices to be in range. An example of an index it excludes is the
  `normal_index` of -1 that tinyobjloader gives for a mesh without normals.
  Both kernels are compiled with `@numba.jit`, which does not bounds-check
  array indexing by default. An out-of-range index therefore gives an
  undefined result rather than an exception, and that behaviour is not
  modelled.
- `Mesh.FixWindingInPlace` requires whole triangles and in-range indices.
  A partial last triangle makes the unpacking at src/main.py:28 fail. An
  out-of-range index gives an undefined result, as for `NormalArray`.
  Neither case is modelled.
- `Lut.ParseEquation` lower-cases ASCII letters only. Python's `str.lower`
  also maps other Unicode letters. Some of them map to more than one
  character: `'İ'.lower()` is `i` followed by U+0307, a combining mark. Such
  a mark can never appear in "dipole" or "gaussian", so the parse's outcome
  is the same as with ASCII lower-casing.
- `Float32` fixes the byte order to little-endian. The `=` of the struct
  format and `np.frombuffer` use the host's native order, which is
  little-endian on the hosts the program targets.
- A missing scene field raises a Python `KeyError` (src/lut.py:47-58,
  src/main.py:97-127). That error path is not modelled, because
  `Lut.LutScene` and the light lists always hold their fields.
- The exit status 1 path is modelled as an outcome. The usage exit and the
  `exit(0)` after a failed OBJ parse (src/main.py:37-47) are not modelled.
- I/O is not modelled:
  - reading the JSON scene and the shader files;
  - writing images through PIL and matplotlib;
  - the timing prints.
- GPU work is not modelled. All moderngl and OpenGL calls are outside the
  model: context and program creation, drawing, framebuffers, the MSAA blit,
  and the uniform writes themselves. A uniform write is modelled as an entry
  in a list.
- The OBJ loader (`tinyobjloader`) and `Camera` are not part of this model.
- The bytes that `read_into` stores are an input of `Readback.Canvas` and
  `Lut.LutImage`.
- `ShaderText.Replace` requires a non-empty pattern. Every call in the
  program uses a fixed non-empty placeholder.
