/**
 * The colour spaces an image can be stored in: each tag fixes the layout of
 * the buffer it wraps, and `rgb_to_cielab` is a pixel function between two of them.
 */
module ColorSpaces {
  import opened Wrappers
  import opened Pixel
  import opened Chunking
  import opened BufferSpec
  import opened ImageBuffers

  /** `ColorSpace<T>`: a tag and a buffer; only the tag says how many channels it has. */
  datatype ColorSpace<T(!new)> =
    | Rgba(buf: ImageBuffer<T>)
    | Rgb(buf: ImageBuffer<T>)
    | Hsv(buf: ImageBuffer<T>)
    | Cielab(buf: ImageBuffer<T>)
  {
    /** The layout the tag's type parameters fix: four channels with alpha, or three without. */
    function TagLayout(): (l: Layout)
      ensures l.Valid()
      ensures l.hasAlpha <==> Rgba?
      ensures l.AlphaIdx() == if Rgba? then Some(3) else None
      ensures l.NumNonAlphaComponents() == 3
    {
      if Rgba? then Layout(4, true) else Layout(3, false)
    }

    /** The wrapped buffer is well formed and has the layout of its tag. */
    ghost predicate Valid() {
      buf.Valid() && buf.layout == TagLayout()
    }
  }

  /**
   * Every buffer of a colour space holds `width*height` pixels of four
   * components (Rgba) or three (Rgb, Hsv, Cielab).
   */
  lemma ColorSpaceStorage<T(!new)>(cs: ColorSpace<T>)
    requires cs.Valid()
    ensures cs.buf.data.Length == cs.buf.width * cs.buf.height * (if cs.Rgba? then 4 else 3)
    ensures |Chunks(cs.buf.data[..], cs.buf.layout.channels)| == cs.buf.width * cs.buf.height
  {
    cs.buf.ChunkPerPixel();
  }

  /** The layout of Rgb, Hsv and Cielab buffers. */
  const ThreeChannels: Layout := Layout(3, false)

  /**
   * `rgb_to_cielab`: channels 0, 1 and 2 are cast to f32 (a failed cast gives 0.0),
   * passed through the colour formula `lab`, and each result cast to the
   * destination component (a failed cast gives its default).
   * The floating-point formula itself is the parameter `lab`.
   */
  function RgbToCielab<S, T>(
    toF32: S -> Option<F32>,
    lab: (F32, F32, F32) -> (F32, F32, F32),
    fromF32: F32 -> Option<T>,
    dst: Component<T>,
    rgb: seq<S>
  ): (r: seq<T>)
    requires |rgb| == 3
    ensures |r| == 3
    ensures fromF32(LabOf(toF32, lab, rgb).0).None? ==> r[0] == dst.default
    ensures fromF32(LabOf(toF32, lab, rgb).1).None? ==> r[1] == dst.default
    ensures fromF32(LabOf(toF32, lab, rgb).2).None? ==> r[2] == dst.default
  {
    var out := LabOf(toF32, lab, rgb);
    [CastOrDefault(fromF32, dst, out.0), CastOrDefault(fromF32, dst, out.1), CastOrDefault(fromF32, dst, out.2)]
  }

  /** The three f32 results of the formula, before the final cast. */
  function LabOf<S>(toF32: S -> Option<F32>, lab: (F32, F32, F32) -> (F32, F32, F32), rgb: seq<S>): (F32, F32, F32)
    requires |rgb| == 3
  {
    lab(CastOrDefault(toF32, F32Component, rgb[0]),
        CastOrDefault(toF32, F32Component, rgb[1]),
        CastOrDefault(toF32, F32Component, rgb[2]))
  }

  /** `rgb_to_cielab` is a pixel function from three channels to three channels, fit for `map_into`. */
  lemma CielabIsPixelFn<S(!new), T>(
    toF32: S -> Option<F32>, lab: (F32, F32, F32) -> (F32, F32, F32), fromF32: F32 -> Option<T>, dst: Component<T>)
    ensures PixelFn((pel: seq<S>) requires |pel| == 3 => RgbToCielab(toF32, lab, fromF32, dst, pel), 3, 3)
  {
  }

  /**
   * Channels whose cast to f32 fails all read as 0.0: an input none of whose
   * channels converts gives the same pixel as any other such input.
   */
  lemma CielabOfUncastable<S, T>(
    toF32: S -> Option<F32>, lab: (F32, F32, F32) -> (F32, F32, F32), fromF32: F32 -> Option<T>, dst: Component<T>,
    rgb: seq<S>, rgb': seq<S>)
    requires |rgb| == 3 && |rgb'| == 3
    requires forall c | 0 <= c < 3 :: toF32(rgb[c]).None? && toF32(rgb'[c]).None?
    ensures RgbToCielab(toF32, lab, fromF32, dst, rgb) == RgbToCielab(toF32, lab, fromF32, dst, rgb')
  {
    assert LabOf(toF32, lab, rgb) == LabOf(toF32, lab, rgb') by {
      assert toF32(rgb[0]).None? && toF32(rgb'[0]).None?;
      assert toF32(rgb[1]).None? && toF32(rgb'[1]).None?;
      assert toF32(rgb[2]).None? && toF32(rgb'[2]).None?;
    }
  }

  /**
   * The conversion example: a 4x4 Rgb buffer of u8 with every pixel `[1, 2, 3]`,
   * mapped into f32 through `rgb_to_cielab`, yields from its iterator sixteen
   * pixels, each the conversion of `[1, 2, 3]`.
   */
  method ConvertRgbU8ToLabF32(
    toF32: U8 -> Option<F32>, lab: (F32, F32, F32) -> (F32, F32, F32), fromF32: F32 -> Option<F32>)
    returns (pels: seq<seq<F32>>)
    ensures |pels| == 16
    ensures forall k | 0 <= k < 16 :: pels[k] == RgbToCielab(toF32, lab, fromF32, F32Component, [1, 2, 3])
  {
    var onePel: seq<U8> := [1, 2, 3];
    var image := ImageBuffer.WithVal(U8Component, ThreeChannels, onePel, 4, 4);
    var f := (pel: seq<U8>) requires |pel| == 3 => RgbToCielab(toF32, lab, fromF32, F32Component, pel);
    CielabIsPixelFn(toF32, lab, fromF32, F32Component);
    var labImage := image.MapInto(f, F32Component, ThreeChannels);
    MapUniform(f, onePel, 16, 3);
    var it := labImage.Iter();
    pels := it.Collect();
  }
}
