# better-images pixel buffer, modelled in Dafny

This project models the core of the `better-images` library: the generic pixel buffer
`ImageBuffer<Component, COMPONENTS_PER_PEL, HAS_ALPHA>`, the component and container
capabilities it is built on, the colour-space wrappers around it and the type-erased
`Image` handle.

The model has these parts:

- **Buffer.** A buffer is one flat array of components together with a width and a height.
  Its invariant is `|data| == width * height * C`.
  Pixel `k` is the run `data[k*C .. (k+1)*C]`.
- **Specification functions** (module `BufferSpec`). Every operation is specified by a pure
  function on sequences, built from `Chunks`, the model of `slice::array_chunks`, and from
  its inverse `Flatten`.
- **Buffer class** (module `ImageBuffers`). `ImageBuffer` is a class.
  - Its constructors and its methods allocate a buffer or change one in place, as the Rust code does.
  - Each method's postcondition ties the resulting data to one of the specification functions.
- **Lemmas.** These state what the specification functions mean:
  - pixel `k` of a map is `f` of pixel `k`;
  - channel `c` of a cast pixel is the cast of channel `c`, or zero;
  - plane `k` is component `k*C + i`;
  - `put_plane` changes only channel `i`.

  Further lemmas prove round trips (reading back a written plane, writing back a read
  plane, `Flatten` of `Chunks`), composition of maps, and uniform-in/uniform-out.
- **Iterators.** The iterators are cursor classes whose `next` yields chunk `k`. `Collect`
  drains one and yields exactly the chunks, in order.

Component types are modelled as follows:

- u8 to u128 are Dafny newtypes.
- f32 and f64 are kept as their IEEE bit patterns.
- Each type's `PixelComponent` capability (which type it is, its zero and its default) is
  passed explicitly as a `Component<T>` value.
- The `NumCast` conversion is a partial function parameter, and where it fails the
  destination's default takes its place.

Where the code's evident intent and what it does differ, the model follows what it does:

- **"No alpha" iterators.** `iter`, `iter_mut`, `iter_no_alpha` and `iter_no_alpha_mut`
  return iterators whose `SKIP_ALPHA` parameter is `true` (src/image_buffer.rs:280, 287,
  294, 303), and the TODO at src/image_buffer.rs:348-351 says `next` should then leave
  alpha out. The code's `next` returns the whole `array_chunks` item
  (src/image_buffer.rs:346-352, 372-378), so every view yields all `C` channels. In turn, `map`, `as_other`, the plane operations and `apply` all read and
  write alpha.
- **`put_plane` size check.** `put_plane` has no size check. It zips the two pixel
  sequences and stops at the shorter one, and `PutPlaneData` models exactly that.
- **Channel index checks.** `pel[i]` and `pel[I]` in the plane operations are checked
  when they run. A channel index `>= C` is therefore accepted when the zip makes no
  step (no pixels, or an empty plane), and the model accepts it exactly then.

## Model

| member | source | states |
|---|---|---|
| `Pixel.SevenComponentKinds` | src/pixel.rs:6-26 | exactly seven component types exist (u8, u16, u32, u64, u128, f32, f64), and each component constant carries its own kind |
| `Pixel.ZeroIsDefault` | src/pixel.rs:3 | for every component type the zero used by `empty` equals the `Default` used as the cast fallback |
| `Pixel.CastOrDefault` | src/image_buffer.rs:118 | a failed `NumCast` yields the destination's default; a successful one yields the cast value |
| `Pixel.Layout.AlphaIdx` | src/image_buffer.rs:28-32 | `ALPHA_IDX` is present exactly when the layout has alpha, and is then the last channel `C-1` |
| `Pixel.Layout.NumComponents` | src/image_buffer.rs:34 | `NUM_COMPONENTS` is at least one exactly for a well-formed layout, and is the non-alpha channels plus the alpha channel, if any |
| `Pixel.Layout.NumNonAlphaComponents` | src/image_buffer.rs:35-39 | `NUM_NONALPHA_COMPONENTS` plus one alpha channel (if any) is `C` |
| `Pixel.AlphaFollowsColourChannels` | src/pixel.rs:32-35 | the alpha index, when present, is the first index after the non-alpha channels; without alpha all channels are non-alpha |
| `Chunking.Chunks` | src/image_buffer.rs:296-298 | `array_chunks` yields `|s| / C` chunks, each exactly `C` long |
| `Chunking.ChunksAt` | src/image_buffer.rs:346-352 | chunk `k` is the run `s[k*C .. (k+1)*C]` and lies within `s` |
| `Chunking.ChunksElement` | src/image_buffer.rs:346-352 | channel `c` of chunk `k` is component `k*C + c` |
| `Chunking.FlattenLength` | src/image_buffer.rs:296-298 | joining `n` runs of `C` components gives `n*C` components |
| `Chunking.FlattenAt` | src/image_buffer.rs:296-298 | element `c` of run `k` lands at flat index `k*C + c` |
| `Chunking.FlattenChunks` | src/image_buffer.rs:296-298 | iterating all chunks of a whole-pixel buffer and joining them gives back the buffer: every component is visited once, in order |
| `Chunking.ChunksFlatten` | src/image_buffer.rs:296-298 | cutting a join of `C`-long runs into chunks gives back the runs |
| `Chunking.ChunksInjective` | src/image_buffer.rs:296-298 | two whole-pixel buffers with the same chunks are equal |
| `BufferSpec.UniformData` | src/image_buffer.rs:83-101 | the data of `with_val`: `count*C` components, and every chunk equals the one pixel |
| `BufferSpec.UniformAt` | src/image_buffer.rs:94-98 | component `j` of a uniform buffer is `one_pel[j % C]`, alpha included |
| `BufferSpec.EmptyIsUniformZero` | src/image_buffer.rs:75-81 | the all-zero data of `empty` has `n*C` components, every pixel is the zero pixel, and it equals `with_val` of the zero pixel |
| `BufferSpec.MapData` | src/image_buffer.rs:132-143 | the data of `map`/`map_into`: `(|s|/C)*D` components, whose chunks are `f` of the input chunks, pixel by pixel |
| `BufferSpec.MapDataAt` | src/image_buffer.rs:138-140 | channel `c` of output pixel `k` is channel `c` of `f(input pixel k)` |
| `BufferSpec.MapDataChunk` | src/image_buffer.rs:138-140 | output pixel `k` is `f(input pixel k)` |
| `BufferSpec.MapIdentity` | src/image_buffer.rs:132-143 | mapping the identity pixel function leaves the data unchanged |
| `BufferSpec.MapAgree` | src/image_buffer.rs:132-143 | pixel functions that agree on every pixel give the same map (only the pixel's value matters) |
| `BufferSpec.MapCompose` | src/image_buffer.rs:146-176 | `map_into` by `f` then by `g` equals one `map_into` by `g` after `f` |
| `BufferSpec.MapRoundTrip` | src/image_buffer.rs:146-176 | mapping by `f` and then by a pixel-wise inverse of `f` restores the data |
| `BufferSpec.MapUniform` | src/color_space.rs:53-61 | mapping a uniform buffer gives the uniform buffer of `f(one_pel)` |
| `BufferSpec.AsOtherData` | src/image_buffer.rs:103-123 | the data of `as_other` has `(|s|/C)*D` components |
| `BufferSpec.AsOtherAt` | src/image_buffer.rs:116-120 | channel `c` of pixel `k` is the cast (or default) of source channel `c` when `c < C`, and stays zero when `c >= C` |
| `BufferSpec.AsOtherChunk` | src/image_buffer.rs:116-120 | pixel `k` after `as_other` is the position-wise cast of source pixel `k` |
| `BufferSpec.AsOtherLossless` | src/image_buffer.rs:103-123 | casting to the same layout with a cast that always succeeds reproduces the data |
| `BufferSpec.PlaneData` | src/image_buffer.rs:192-203 | the data of a plane has one component per pixel |
| `BufferSpec.PlaneAt` | src/image_buffer.rs:199-201 | component `k` of plane `i` is component `k*C + i` of the buffer |
| `BufferSpec.PutPlaneData` | src/image_buffer.rs:240-248 | the data after `put_plane` keeps the length of a whole-pixel buffer |
| `BufferSpec.PutPlaneAt` | src/image_buffer.rs:245-247 | component `j` becomes `p[j / C]` exactly when `j % C == i` and pixel `j / C` is reached by the zip; every other component is unchanged |
| `BufferSpec.PutPlaneFullLength` | src/image_buffer.rs:240-248 | `put_plane` keeps the buffer's length |
| `BufferSpec.PutPlaneNothing` | src/image_buffer.rs:245-247 | an empty plane writes nothing |
| `BufferSpec.PutPlaneStep` | src/image_buffer.rs:245-247 | one more step of the zip changes exactly component `k*C + i` to the next plane value |
| `BufferSpec.PutPlaneTruncate` | src/image_buffer.rs:245-247 | plane values beyond the last pixel are ignored: the zip stops at the shorter sequence |
| `BufferSpec.PlaneOfPutPlane` | src/image_buffer.rs:192-248 | reading plane `i` after writing a full plane `p` into channel `i` gives back `p` |
| `BufferSpec.PlaneOfPutPlaneAt` | src/image_buffer.rs:192-248 | pixel `k` of the plane read back after writing `p` is `p[k]` |
| `BufferSpec.PutPlaneOfPlane` | src/image_buffer.rs:192-248 | writing a buffer's own plane `i` back into channel `i` changes nothing |
| `BufferSpec.PutPlaneOfPlaneAt` | src/image_buffer.rs:192-248 | component `j` is unchanged by writing back the buffer's own plane |
| `BufferSpec.PutPlaneKeepsOtherPlanes` | src/image_buffer.rs:240-248 | `put_plane` on channel `i` leaves every other plane `i' != i` unchanged |
| `BufferSpec.PutPlaneOtherAt` | src/image_buffer.rs:240-248 | pixel `k` of every other plane is unchanged by `put_plane` on channel `i` |
| `ImageBuffers.MapRuns` | src/image_buffer.rs:138-140 | the zipped loop of `map`/`map_into` leaves the output equal to `MapData` of the input |
| `ImageBuffers.ApplyRuns` | src/image_buffer.rs:187-189 | the in-place loop of `apply` leaves the buffer equal to `MapData` of its old contents |
| `ImageBuffers.CastRuns` | src/image_buffer.rs:116-120 | the nested zipped loops of `as_other` over a zero-filled output leave it equal to `AsOtherData` of the input |
| `ImageBuffers.ImageBuffer.FromParts` | src/image_buffer.rs:68-72 | the struct literal stores data, width and height unchanged |
| `ImageBuffers.ImageBuffer.Empty` | src/image_buffer.rs:75-81 | `empty` gives a valid buffer of `width*height*C` zeros with the given dimensions |
| `ImageBuffers.ImageBuffer.Default` | src/image_buffer.rs:7 | the derived default is a valid 0x0 buffer with no data |
| `ImageBuffers.ImageBuffer.WithData` | src/image_buffer.rs:56-73 | `Err` with the layout message exactly when `|data| != width*height*C`; otherwise a valid buffer holding data, width and height unchanged |
| `ImageBuffers.ImageBuffer.WithVal` | src/image_buffer.rs:83-101 | a valid buffer with the given dimensions whose every pixel, alpha included, is `one_pel` |
| `ImageBuffers.ImageBuffer.Clone` | src/image_buffer.rs:7 | the derived clone is a copy in fresh storage with the same data, dimensions and layout |
| `ImageBuffers.ImageBuffer.Width` | src/image_buffer.rs:45 | width times height times `C` is the storage length |
| `ImageBuffers.ImageBuffer.Height` | src/image_buffer.rs:47 | width times height times `C` is the storage length |
| `ImageBuffers.ImageBuffer.Pixels` | src/image_buffer.rs:41 | read access to the backing data, of length `width*height*NUM_COMPONENTS` |
| `ImageBuffers.ImageBuffer.PixelsMut` | src/image_buffer.rs:43 | write access to the same backing storage that `pixels` reads |
| `ImageBuffers.ImageBuffer.AsOther` | src/image_buffer.rs:103-123 | a fresh valid buffer of the new layout, same dimensions, holding `AsOtherData` of the receiver's data; the receiver is not modified |
| `ImageBuffers.ImageBuffer.Map` | src/image_buffer.rs:132-143 | a fresh valid buffer of the same layout and dimensions whose pixel `k` is `f(pixel k)`; the receiver is not modified |
| `ImageBuffers.ImageBuffer.MapInto` | src/image_buffer.rs:146-176 | a fresh valid buffer of the destination layout, same dimensions, whose pixel `k` is `f(pixel k)`; the receiver is not modified |
| `ImageBuffers.ImageBuffer.Apply` | src/image_buffer.rs:183-190 | in place, each pixel becomes `f` of its old value; nothing else changes |
| `ImageBuffers.ImageBuffer.GetPlaneConst` | src/image_buffer.rs:192-203 | a fresh one-channel, no-alpha buffer of the same dimensions whose component `k` is channel `I` of pixel `k`; with no pixels, any `I` is accepted and the plane is empty |
| `ImageBuffers.ImageBuffer.GetPlane` | src/image_buffer.rs:213-229 | `Err("Plane index out of bounds")` exactly when `i >= C`, otherwise the plane of channel `i` |
| `ImageBuffers.ImageBuffer.GetAlpha` | src/image_buffer.rs:205-211 | `None` exactly when the layout has no alpha, otherwise the plane of channel `C-1` |
| `ImageBuffers.ImageBuffer.PutPlane` | src/image_buffer.rs:240-248 | in place, channel `i` of pixel `k` becomes plane component `k` for every pixel the zip reaches; every other component is unchanged; an `i >= C` is accepted only when the zip makes no step, and then changes nothing |
| `ImageBuffers.ImageBuffer.PutPlaneConst` | src/image_buffer.rs:231-238 | the same as `put_plane` with the channel fixed, including the acceptance of `I >= C` when the zip makes no step |
| `ImageBuffers.ImageBuffer.ChunkPerPixel` | src/image_buffer.rs:296-298 | a valid buffer has exactly `width*height` chunks |
| `ImageBuffers.ImageBuffer.IterNoAlpha` | src/image_buffer.rs:292-299 | a cursor at pixel 0 over the buffer's own data, with stride `C`: alpha is not dropped |
| `ImageBuffers.ImageBuffer.IterWithAlpha` | src/image_buffer.rs:310-317 | a cursor at pixel 0 over the buffer's own data, with stride `C` |
| `ImageBuffers.ImageBuffer.Iter` | src/image_buffer.rs:278-283 | the same cursor as `iter_no_alpha` |
| `ImageBuffers.ImageBuffer.IterNoAlphaMut` | src/image_buffer.rs:301-308 | a mutable cursor at pixel 0 over the buffer's own data, with stride `C`: alpha is not dropped |
| `ImageBuffers.ImageBuffer.IterWithAlphaMut` | src/image_buffer.rs:319-326 | a mutable cursor at pixel 0 over the buffer's own data, with stride `C` |
| `ImageBuffers.ImageBuffer.IterMut` | src/image_buffer.rs:285-290 | the same cursor as `iter_no_alpha_mut` |
| `ImageBuffers.EmptyPixels` | src/image_buffer.rs:401-410 | iterating an `empty` buffer yields `width*height` pixels, each all zeros |
| `ImageBuffers.UniformPixels` | src/image_buffer.rs:412-422 | iterating a `with_val` buffer with alpha yields `width*height` pixels, each exactly `one_pel` |
| `ImageBuffers.PixelIter.constructor` | src/image_buffer.rs:251-259 | the iterator starts at chunk 0 of the given data |
| `ImageBuffers.PixelIter.Next` | src/image_buffer.rs:346-352 | `Some` exactly while chunks remain; the item is the next full `C`-long chunk and the cursor advances by one |
| `ImageBuffers.PixelIter.Collect` | src/image_buffer.rs:346-352 | draining the iterator yields exactly the remaining chunks, in ascending order, and ends at the last one |
| `ImageBuffers.PixelIterMut.constructor` | src/image_buffer.rs:261-269 | the mutable iterator starts at chunk 0 of the given data |
| `ImageBuffers.PixelIterMut.Next` | src/image_buffer.rs:372-378 | `Some` exactly while chunks remain; it lends chunk `k`, which lies inside the data, and the cursor advances by one |
| `ColorSpaces.ColorSpace.TagLayout` | src/color_space.rs:8-13 | the tag alone fixes the layout: Rgba has alpha at index 3; Rgb, Hsv and Cielab have none; all have three colour channels |
| `ColorSpaces.ColorSpaceStorage` | src/color_space.rs:9-12 | a well-formed Rgba buffer holds `w*h*4` components and the others `w*h*3`, one chunk per pixel |
| `ColorSpaces.RgbToCielab` | src/color_space.rs:15-44 | a 3-channel pixel of the destination type; a channel whose final cast fails is the default |
| `ColorSpaces.CielabIsPixelFn` | src/color_space.rs:15-17 | `rgb_to_cielab` maps every 3-channel pixel to a 3-channel pixel, so `map_into` accepts it |
| `ColorSpaces.CielabOfUncastable` | src/color_space.rs:19-21 | channels that do not convert to f32 read as 0.0, so all inputs none of whose channels convert give the same pixel |
| `ColorSpaces.ConvertRgbU8ToLabF32` | src/color_space.rs:50-62 | a 4x4 u8 RGB buffer of `[1, 2, 3]` mapped through `rgb_to_cielab` yields sixteen pixels, each the conversion of `[1, 2, 3]` |
| `Images.ImageImpl.Width` | src/image.rs:43-50 | in all four colour spaces, the wrapped buffer's width, consistent with its storage length |
| `Images.ImageImpl.Height` | src/image.rs:52-59 | in all four colour spaces, the wrapped buffer's height, consistent with its storage length |
| `Images.Implementation.Kind` | src/image.rs:62-68 | the component type of the variant is one of the seven, and never u64 or u128 |
| `Images.Implementation.Width` | src/image.rs:71-79 | in all five variants, the width of the buffer inside |
| `Images.Implementation.Height` | src/image.rs:81-89 | in all five variants, the height of the buffer inside |
| `Images.Image.NewU8` | src/image.rs:102-106 | a colour space whose buffer has its tag's layout becomes, unchanged, the U8 variant of a well-formed image with its width and height |
| `Images.Image.NewU16` | src/image.rs:107-111 | a colour space whose buffer has its tag's layout becomes, unchanged, the U16 variant of a well-formed image with its width and height |
| `Images.Image.NewU32` | src/image.rs:112-116 | a colour space whose buffer has its tag's layout becomes, unchanged, the U32 variant of a well-formed image with its width and height |
| `Images.Image.NewF32` | src/image.rs:117-121 | a colour space whose buffer has its tag's layout becomes, unchanged, the F32 variant of a well-formed image with its width and height |
| `Images.Image.NewF64` | src/image.rs:122-126 | a colour space whose buffer has its tag's layout becomes, unchanged, the F64 variant of a well-formed image with its width and height |
| `Images.Image.Width` | src/image.rs:128-130 | the width of the buffer, through whichever variant holds it |
| `Images.Image.Height` | src/image.rs:132-134 | the height of the buffer, through whichever variant holds it |
| `Images.NewSelectsVariant` | src/image.rs:8-36 | `Image::new::<T>` puts the colour space, unchanged, in the variant of `T`: u8 to U8, u16 to U16, u32 to U32, f32 to F32, f64 to F64, and the image is well formed |
| `Images.FactoryInstances` | src/image.rs:4-36 | the `ImageFactory` trait is the `Factory` value type; its five implementations (u8, u16, u32, f32, f64) each carry their own component type and create through their own `new_*` constructor |
| `Images.NewRgbaU8` | src/image.rs:144-159 | `Image::new::<u8>` of an empty 4x4 Rgba buffer is a well-formed U8 image holding an Rgba buffer of width 4 and height 4 |

## Left out

- Channel count: every layout is assumed to have `C >= 1` (`Layout.Valid`). Rust's `array_chunks` panics at run time on a zero stride, and `ALPHA_IDX` would underflow.
- Integer overflow: `usize` overflow of `width * height * C` (src/image_buffer.rs:61, 77, 89) is not modelled; sizes are unbounded naturals.
- Width and height: the `pub` fields are constants of the class. No operation in the core assigns them, but Rust code outside it could.
- `pixels_mut`: it hands out `&mut Vec`, through which a caller could resize the storage. The model hands out the fixed-length array.
- Pixel functions: a stateful `FnMut` closure is modelled as a pure function `seq<T> --> seq<U>` that returns a pixel of the destination length.
- Iterators: their laziness, borrows and lifetimes are not modelled. The mutable iterator lends chunk `k` as its index; the caller writes `data[k*C .. (k+1)*C]`.
- Alpha skipping: the documented but unimplemented alpha skipping of the `no_alpha` views is not modelled. `skipAlpha` only records which view created an iterator.
- The `Container` type: the associated `type Container` of `PixelComponent` (src/pixel.rs:4-25) is the component type itself for all seven types. Dafny has no associated types, so it has no counterpart.
- Component types: `PixelComponent` is a capability passed as a `Component<T>` value. Nothing ties the type `T` to the `kind` tag except the seven constants.
- Casts: the concrete `NumCast` semantics (float-to-int truncation, range checks) are not modelled. Casts are arbitrary partial functions.
- `rgb_to_cielab` arithmetic: its floating-point arithmetic (the /255 scaling, the matrix, `powf`, the 0.008856 threshold) is the parameter `lab`. The f32 reference values pinned by the test at src/color_space.rs:60 are not checked.
- `Image::new::<T>`: the type-directed dispatch is modelled by passing `T`'s `ImageFactory` instance as an explicit `Factory<T>` value; the five instances are constants.
- `Images.Image.New` has no contract of its own. What it promises is stated by `Images.NewSelectsVariant` for each of the five factories.
- `ImageBuffers.ImageBuffer.PutPlane` requires that the plane is a different buffer from the receiver. Rust's borrow rules guarantee this.
- `ImageBuffers.ImageBuffer.PutPlaneConst` requires that the plane is a different buffer from the receiver, for the same reason.
- Panics: a channel index `>= C` together with at least one zipped pixel makes Rust panic; the model excludes that call by its precondition rather than modelling the panic.
- Colour-space tag: the tie between a `ColorSpace` tag and its buffer's layout, which the Rust types enforce, is the predicate `ColorSpace.Valid`. The `Image` constructors require it, but a `ColorSpace` value on its own may break it.
- `Factory` values: the model has the five `ImageFactory` instances as constants, but nothing stops a caller from building another `Factory` value, for example one for u64. Only `Implementation.Kind` states that u64 and u128 images do not exist.
- `ImageBuffers.ImageBuffer.GetPlane` delegates to `GetPlaneConst` rather than repeating its loop, as src/image_buffer.rs:221-228 does; the result is the same.
- Debug: the derived `Debug` implementation is not modelled.
- Benchmarks: the benchmarks and the comparisons with the external `image` crate (src/image_buffer.rs:458-591) are timing code and foreign library calls.
- src/lib.rs: it holds only feature flags, module declarations and re-exports.
