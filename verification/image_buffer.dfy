/**
 * The generic pixel buffer `ImageBuffer<Component, COMPONENTS_PER_PEL, HAS_ALPHA>`:
 * one flat, owned sequence of components plus the image's width and height,
 * with its constructors, its pixel-wise transformations, its plane operations
 * and its chunk iterators.
 */
module ImageBuffers {
  import opened Wrappers
  import opened Pixel
  import opened Chunking
  import opened BufferSpec

  const LayoutMismatch: string :=
    "Data vector length does not match width, height, and number of components per pixel"
  const PlaneOutOfBounds: string := "Plane index out of bounds"

  /** Overwrites `a[off .. off + |run|]` with `run`, leaving the rest of `a` alone. */
  method WriteRun<U>(a: array<U>, off: nat, run: seq<U>)
    requires off + |run| <= a.Length
    modifies a
    ensures a[..] == old(a[..off]) + run + old(a[off + |run|..])
  {
    forall c | 0 <= c < |run| {
      a[off + c] := run[c];
    }
    assert a[..] == old(a[..off]) + run + old(a[off + |run|..]);
  }

  /**
   * The zipped loop of `map` and `map_into`: output pixel `k` of `out` becomes
   * `f` of input pixel `k` of `s`, for each of the `n` pixels.
   */
  method MapRuns<T(!new), U>(f: seq<T> --> seq<U>, s: seq<T>, n: nat, C: nat, D: nat, out: array<U>)
    requires C >= 1 && D >= 1 && PixelFn(f, C, D)
    requires |s| == n * C && out.Length == n * D
    modifies out
    ensures out[..] == MapData(f, s, C, D)
  {
    MulDivCancel(n, C);
    ghost var spec := MapData(f, s, C, D);
    assert |spec| == n * D;
    var src, off := 0, 0;
    for k := 0 to n
      invariant src == k * C && off == k * D
      invariant src <= n * C && off <= n * D
      invariant out[..off] == spec[..off]
    {
      PixelInBounds(k, n, C);
      PixelInBounds(k, n, D);
      MapDataChunk(f, s, C, D, k);
      var newPel := f(s[src .. src + C]);
      ghost var out0 := out[..];
      WriteRun(out, off, newPel);
      PrefixGrows(out0, out[..], spec, off, newPel);
      src, off := src + C, off + D;
    }
    assert out[..] == out[..off];
  }

  /** The loop of `apply`: each of the `n` pixels of `a` replaced in place by `f` of itself. */
  method ApplyRuns<T(!new)>(f: seq<T> --> seq<T>, a: array<T>, n: nat, C: nat)
    requires C >= 1 && PixelFn(f, C, C) && a.Length == n * C
    modifies a
    ensures a[..] == MapData(f, old(a[..]), C, C)
  {
    MulDivCancel(n, C);
    ghost var before := a[..];
    ghost var spec := MapData(f, before, C, C);
    assert |spec| == n * C;
    var off := 0;
    for k := 0 to n
      invariant off == k * C && off <= n * C
      invariant a[..off] == spec[..off]
      invariant a[off..] == before[off..]
    {
      PixelInBounds(k, n, C);
      MapDataChunk(f, before, C, C, k);
      SuffixAgrees(a[..], before, off, C);
      var newPel := f(a[off .. off + C]);
      ghost var a0 := a[..];
      WriteRun(a, off, newPel);
      PrefixGrows(a0, a[..], spec, off, newPel);
      off := off + C;
    }
    assert a[..] == a[..off];
  }

  /** Writing the run `spec` has at `off` extends the prefix that already agrees with `spec`. */
  lemma PrefixGrows<U>(a0: seq<U>, a1: seq<U>, spec: seq<U>, off: nat, run: seq<U>)
    requires off + |run| <= |a0| && off + |run| <= |spec|
    requires a1 == a0[..off] + run + a0[off + |run|..]
    requires a0[..off] == spec[..off] && spec[off .. off + |run|] == run
    ensures a1[..off + |run|] == spec[..off + |run|]
    ensures a1[off + |run|..] == a0[off + |run|..]
  {
    assert a1[..off + |run|] == a0[..off] + run;
    assert spec[..off + |run|] == spec[..off] + spec[off .. off + |run|];
  }

  /** Two sequences that agree from `off` on agree on the next run and on what follows it. */
  lemma SuffixAgrees<U>(a: seq<U>, b: seq<U>, off: nat, len: nat)
    requires off + len <= |a| == |b| && a[off..] == b[off..]
    ensures a[off .. off + len] == b[off .. off + len]
    ensures a[off + len..] == b[off + len..]
  {
    assert a[off .. off + len] == a[off..][..len];
    assert b[off .. off + len] == b[off..][..len];
    assert a[off + len..] == a[off..][len..];
    assert b[off + len..] == b[off..][len..];
  }

  /**
   * The nested zipped loops of `as_other` over a zero-filled `out`: the inner zip
   * stops at the shorter pixel, so only the first `min(C, D)` channels are written.
   */
  method CastRuns<S(!new), U>(cast: S -> Option<U>, dst: Component<U>, s: seq<S>, n: nat, C: nat, D: nat, out: array<U>)
    requires C >= 1 && D >= 1 && |s| == n * C && out.Length == n * D
    requires forall j | 0 <= j < out.Length :: out[j] == dst.zero
    modifies out
    ensures out[..] == AsOtherData(cast, dst, s, C, D)
  {
    MulDivCancel(n, C);
    ghost var spec := AsOtherData(cast, dst, s, C, D);
    assert |spec| == n * D;
    var m := if C < D then C else D;
    var src, off := 0, 0;
    for k := 0 to n
      invariant src == k * C && off == k * D
      invariant src <= n * C && off <= n * D
      invariant forall j | 0 <= j < off :: out[j] == spec[j]
      invariant forall j | off <= j < out.Length :: out[j] == dst.zero
    {
      PixelInBounds(k, n, C);
      PixelInBounds(k, n, D);
      for c := 0 to m
        invariant forall j | 0 <= j < off + c :: out[j] == spec[j]
        invariant forall j | off + c <= j < out.Length :: out[j] == dst.zero
      {
        AsOtherAt(cast, dst, s, C, D, k, c);
        out[off + c] := CastOrDefault(cast, dst, s[src + c]);
      }
      forall j | off + m <= j < off + D ensures spec[j] == dst.zero {
        AsOtherAt(cast, dst, s, C, D, k, j - off);
      }
      src, off := src + C, off + D;
    }
    assert out[..] == spec;
  }

  /**
   * A buffer of `width * height` pixels of `layout.channels` components each,
   * pixel `k` being the run `data[k*C .. (k+1)*C]` in row-major order.
   * The const generics become the constant `layout`; the PixelComponent bound
   * becomes the constant `component`.
   */
  class ImageBuffer<T(!new)> {
    const data: array<T>
    const width: nat
    const height: nat
    const layout: Layout
    const component: Component<T>

    /** The layout invariant every construction path establishes. */
    ghost predicate Valid() {
      layout.Valid() && data.Length == width * height * layout.channels
    }

    /** The struct literal `ImageBuffer { data, width, height }`: it checks nothing. */
    constructor FromParts(component: Component<T>, layout: Layout, s: seq<T>, width: nat, height: nat)
      ensures fresh(data) && data[..] == s
      ensures this.width == width && this.height == height
      ensures this.layout == layout && this.component == component
    {
      this.data := new T[|s|](j requires 0 <= j < |s| => s[j]);
      this.width := width;
      this.height := height;
      this.layout := layout;
      this.component := component;
    }

    /** `empty`: `width * height * C` copies of the component's zero. */
    constructor Empty(component: Component<T>, layout: Layout, width: nat, height: nat)
      requires layout.Valid()
      ensures Valid() && fresh(data)
      ensures this.width == width && this.height == height
      ensures this.layout == layout && this.component == component
      ensures data[..] == ZeroData(component.zero, width * height * layout.channels)
    {
      this.data := new T[width * height * layout.channels](_ => component.zero);
      this.width := width;
      this.height := height;
      this.layout := layout;
      this.component := component;
    }

    /** `#[derive(Default)]`: no pixels at all. */
    constructor Default(component: Component<T>, layout: Layout)
      requires layout.Valid()
      ensures Valid() && fresh(data)
      ensures width == 0 && height == 0 && data[..] == []
      ensures this.layout == layout && this.component == component
    {
      this.data := new T[0];
      this.width := 0;
      this.height := 0;
      this.layout := layout;
      this.component := component;
    }

    /** `with_data`: wraps `s` when, and only when, its length matches the layout. */
    static method WithData(component: Component<T>, layout: Layout, s: seq<T>, width: nat, height: nat)
      returns (r: Result<ImageBuffer<T>>)
      requires layout.Valid()
      ensures r.Err? <==> |s| != width * height * layout.channels
      ensures r.Err? ==> r.message == LayoutMismatch
      ensures r.Ok? ==> r.value.Valid() && fresh(r.value.data) && r.value.data[..] == s
      ensures r.Ok? ==> r.value.width == width && r.value.height == height
      ensures r.Ok? ==> r.value.layout == layout && r.value.component == component
    {
      var expected := width * height * layout.channels;
      if |s| != expected {
        return Err(LayoutMismatch);
      }
      var b := new ImageBuffer.FromParts(component, layout, s, width, height);
      return Ok(b);
    }

    /** `with_val`: every pixel, alpha included, set to `onePel`. */
    static method WithVal(component: Component<T>, layout: Layout, onePel: seq<T>, width: nat, height: nat)
      returns (r: ImageBuffer<T>)
      requires layout.Valid() && |onePel| == layout.channels
      ensures r.Valid() && fresh(r.data)
      ensures r.width == width && r.height == height
      ensures r.layout == layout && r.component == component
      ensures r.data[..] == UniformData(onePel, width * height)
    {
      r := new ImageBuffer.Empty(component, layout, width, height);
      var n, C := width * height, layout.channels;
      for k := 0 to n
        invariant forall j | 0 <= j < k * C :: r.data[j] == onePel[j % C]
      {
        PixelInBounds(k, n, C);
        for c := 0 to C
          invariant forall j | 0 <= j < k * C + c :: r.data[j] == onePel[j % C]
        {
          IndexSplit(k, c, C);
          r.data[k * C + c] := onePel[c];
        }
      }
      forall j | 0 <= j < n * C ensures r.data[j] == UniformData(onePel, n)[j] {
        UniformAt(onePel, n, j);
      }
    }

    /** `#[derive(Clone)]`: a copy with its own storage. */
    method Clone() returns (r: ImageBuffer<T>)
      ensures fresh(r.data) && r.data[..] == data[..]
      ensures r.width == width && r.height == height
      ensures r.layout == layout && r.component == component
      ensures Valid() ==> r.Valid()
    {
      r := new ImageBuffer.FromParts(component, layout, data[..], width, height);
    }

    // -------------------------------------------------------------------------
    // PixelContainer
    // -------------------------------------------------------------------------

    /** `width()`: together with `height()` and the channel count it fixes the storage length. */
    function Width(): (w: nat)
      ensures Valid() ==> w * height * layout.channels == data.Length
    {
      width
    }

    /** `height()`. */
    function Height(): (h: nat)
      ensures Valid() ==> width * h * layout.channels == data.Length
    {
      height
    }

    /** `pixels()`: read access to the backing storage. */
    function Pixels(): (s: seq<T>)
      reads data
      ensures |s| == data.Length
      ensures Valid() ==> |s| == width * height * layout.NumComponents()
    {
      data[..]
    }

    /** `pixels_mut()`: write access to the same storage. */
    function PixelsMut(): (a: array<T>)
      reads data
      ensures a[..] == Pixels()
    {
      data
    }

    // -------------------------------------------------------------------------
    // Pixel-wise transformation
    // -------------------------------------------------------------------------

    /** `as_other`: each channel cast by position into a new buffer of another layout. */
    method AsOther<U(!new)>(cast: T -> Option<U>, dst: Component<U>, dstLayout: Layout)
      returns (r: ImageBuffer<U>)
      requires Valid() && dstLayout.Valid()
      ensures r.Valid() && fresh(r.data)
      ensures r.width == width && r.height == height
      ensures r.layout == dstLayout && r.component == dst
      ensures r.data[..] == AsOtherData(cast, dst, data[..], layout.channels, dstLayout.channels)
    {
      r := new ImageBuffer<U>.Empty(dst, dstLayout, width, height);
      CastRuns(cast, dst, data[..], width * height, layout.channels, dstLayout.channels, r.data);
    }

    /** `map`: a new buffer of the same layout holding `f` of every pixel. */
    method Map(f: seq<T> --> seq<T>) returns (r: ImageBuffer<T>)
      requires Valid() && PixelFn(f, layout.channels, layout.channels)
      ensures r.Valid() && fresh(r.data)
      ensures r.width == width && r.height == height
      ensures r.layout == layout && r.component == component
      ensures r.data[..] == MapData(f, data[..], layout.channels, layout.channels)
    {
      r := Clone();
      MapRuns(f, data[..], width * height, layout.channels, layout.channels, r.data);
    }

    /** `map_into`: like `map`, into a buffer of another component type and layout. */
    method MapInto<U(!new)>(f: seq<T> --> seq<U>, dst: Component<U>, dstLayout: Layout)
      returns (r: ImageBuffer<U>)
      requires Valid() && dstLayout.Valid() && PixelFn(f, layout.channels, dstLayout.channels)
      ensures r.Valid() && fresh(r.data)
      ensures r.width == width && r.height == height
      ensures r.layout == dstLayout && r.component == dst
      ensures r.data[..] == MapData(f, data[..], layout.channels, dstLayout.channels)
    {
      r := new ImageBuffer<U>.Empty(dst, dstLayout, width, height);
      MapRuns(f, data[..], width * height, layout.channels, dstLayout.channels, r.data);
    }

    /** `apply`: every pixel replaced in place by `f` of its old value. */
    method Apply(f: seq<T> --> seq<T>)
      requires Valid() && PixelFn(f, layout.channels, layout.channels)
      modifies data
      ensures data[..] == MapData(f, old(data[..]), layout.channels, layout.channels)
    {
      ApplyRuns(f, data, width * height, layout.channels);
    }

    // -------------------------------------------------------------------------
    // Planes
    // -------------------------------------------------------------------------

    /**
     * `get_plane_const::<I>`: channel `I` of every pixel, as a one-channel buffer.
     * `pel[I]` is checked when it runs, so `I >= C` is accepted exactly when there
     * is no pixel to read, and then gives the empty plane.
     */
    method GetPlaneConst(i: nat) returns (plane: ImageBuffer<T>)
      requires Valid() && (i < layout.channels || width * height == 0)
      ensures plane.Valid() && fresh(plane.data)
      ensures plane.width == width && plane.height == height
      ensures plane.layout == PlaneLayout && plane.component == component
      ensures i < layout.channels ==> plane.data[..] == PlaneData(data[..], layout.channels, i)
      ensures width * height == 0 ==> plane.data[..] == []
    {
      plane := new ImageBuffer.Empty(component, PlaneLayout, width, height);
      var n, C := width * height, layout.channels;
      MulDivCancel(n, C);
      for k := 0 to n
        invariant i < C ==> forall j | 0 <= j < k :: plane.data[j] == PlaneData(data[..], C, i)[j]
      {
        PlaneAt(data[..], C, i, k);
        plane.data[k] := data[k * C + i];
      }
    }

    /** `get_plane`: fails exactly when the channel index is out of range. */
    method GetPlane(i: nat) returns (r: Result<ImageBuffer<T>>)
      requires Valid()
      ensures r.Err? <==> i >= layout.channels
      ensures r.Err? ==> r.message == PlaneOutOfBounds
      ensures r.Ok? ==> r.value.Valid() && fresh(r.value.data)
      ensures r.Ok? ==> r.value.width == width && r.value.height == height
      ensures r.Ok? ==> r.value.layout == PlaneLayout && r.value.component == component
      ensures r.Ok? ==> r.value.data[..] == PlaneData(data[..], layout.channels, i)
    {
      if i >= layout.channels {
        return Err(PlaneOutOfBounds);
      }
      var plane := GetPlaneConst(i);
      return Ok(plane);
    }

    /** `get_alpha`: no plane without alpha, otherwise the plane of the last channel. */
    method GetAlpha() returns (r: Option<ImageBuffer<T>>)
      requires Valid()
      ensures r.None? <==> !layout.hasAlpha
      ensures r.Some? ==> r.value.Valid() && fresh(r.value.data)
      ensures r.Some? ==> r.value.width == width && r.value.height == height
      ensures r.Some? ==> r.value.layout == PlaneLayout && r.value.component == component
      ensures r.Some? ==> r.value.data[..] == PlaneData(data[..], layout.channels, layout.channels - 1)
    {
      if !layout.hasAlpha {
        return None;
      }
      var plane := GetPlane(layout.channels - 1);
      match plane
      case Ok(p) =>
        r := Some(p);
      case Err(_) =>
        // the `unwrap_or_default` fallback: unreachable, since channels - 1 < channels
        assert false;
    }

    /**
     * `put_plane`: channel `i` of each pixel, in lockstep with the plane's pixels,
     * until either runs out; there is no size check. `pel[i]` is checked when it
     * runs, so `i >= C` is accepted exactly when the zip makes no step, and then
     * nothing changes.
     */
    method PutPlane(i: nat, plane: ImageBuffer<T>)
      requires Valid() && (i < layout.channels || width * height == 0 || plane.data.Length == 0)
      requires plane.Valid() && plane.layout == PlaneLayout && plane.data != data
      modifies data
      ensures i < layout.channels ==> data[..] == PutPlaneData(old(data[..]), layout.channels, i, plane.data[..])
      ensures i >= layout.channels ==> data[..] == old(data[..])
    {
      var n, C := width * height, layout.channels;
      MulDivCancel(n, C);
      var m := if n < plane.data.Length then n else plane.data.Length;
      ghost var before := data[..];
      if i < C {
        PutPlaneNothing(before, C, i);
      }
      var off := i;
      for k := 0 to m
        invariant off == k * C + i
        invariant i < C ==> data[..] == PutPlaneData(before, C, i, plane.data[..k])
        invariant i >= C ==> data[..] == before
      {
        PutPlaneStep(before, C, i, plane.data[..k], plane.data[k]);
        assert plane.data[..k + 1] == plane.data[..k] + [plane.data[k]];
        data[off] := plane.data[k];
        PixelInBounds(k, n, C);
        off := off + C;
      }
      if i < C {
        if m == n {
          PutPlaneTruncate(before, C, i, plane.data[..]);
        } else {
          assert plane.data[..m] == plane.data[..];
        }
      }
    }

    /** `put_plane_const::<I>`: `put_plane` with a channel fixed at compile time. */
    method PutPlaneConst(i: nat, plane: ImageBuffer<T>)
      requires Valid() && (i < layout.channels || width * height == 0 || plane.data.Length == 0)
      requires plane.Valid() && plane.layout == PlaneLayout && plane.data != data
      modifies data
      ensures i < layout.channels ==> data[..] == PutPlaneData(old(data[..]), layout.channels, i, plane.data[..])
      ensures i >= layout.channels ==> data[..] == old(data[..])
    {
      PutPlane(i, plane);
    }

    // -------------------------------------------------------------------------
    // Iteration
    // -------------------------------------------------------------------------

    /** Every iterator walks one chunk per pixel: `width * height` of them. */
    lemma ChunkPerPixel()
      requires Valid()
      ensures data.Length / layout.channels == width * height
      ensures |Chunks(data[..], layout.channels)| == width * height
    {
      MulDivCancel(width * height, layout.channels);
    }

    /** `iter_no_alpha`: chunks of all `C` components; alpha is not dropped. */
    method IterNoAlpha() returns (it: PixelIter<T>)
      requires Valid()
      ensures fresh(it) && it.Valid() && it.position == 0
      ensures it.data == data && it.stride == layout.channels
      ensures it.hasAlpha == layout.hasAlpha && it.skipAlpha
    {
      it := new PixelIter(data, layout.channels, layout.hasAlpha, true);
    }

    /** `iter_with_alpha`: the same chunks. */
    method IterWithAlpha() returns (it: PixelIter<T>)
      requires Valid()
      ensures fresh(it) && it.Valid() && it.position == 0
      ensures it.data == data && it.stride == layout.channels
      ensures it.hasAlpha == layout.hasAlpha && !it.skipAlpha
    {
      it := new PixelIter(data, layout.channels, layout.hasAlpha, false);
    }

    /** `iter`: the no-alpha view. */
    method Iter() returns (it: PixelIter<T>)
      requires Valid()
      ensures fresh(it) && it.Valid() && it.position == 0
      ensures it.data == data && it.stride == layout.channels
      ensures it.hasAlpha == layout.hasAlpha && it.skipAlpha
    {
      it := IterNoAlpha();
    }

    /** `iter_no_alpha_mut`: mutable chunks of all `C` components; alpha is not dropped. */
    method IterNoAlphaMut() returns (it: PixelIterMut<T>)
      requires Valid()
      ensures fresh(it) && it.Valid() && it.position == 0
      ensures it.data == data && it.stride == layout.channels
      ensures it.hasAlpha == layout.hasAlpha && it.skipAlpha
    {
      it := new PixelIterMut(data, layout.channels, layout.hasAlpha, true);
    }

    /** `iter_with_alpha_mut`: the same mutable chunks. */
    method IterWithAlphaMut() returns (it: PixelIterMut<T>)
      requires Valid()
      ensures fresh(it) && it.Valid() && it.position == 0
      ensures it.data == data && it.stride == layout.channels
      ensures it.hasAlpha == layout.hasAlpha && !it.skipAlpha
    {
      it := new PixelIterMut(data, layout.channels, layout.hasAlpha, false);
    }

    /** `iter_mut`: the no-alpha mutable view. */
    method IterMut() returns (it: PixelIterMut<T>)
      requires Valid()
      ensures fresh(it) && it.Valid() && it.position == 0
      ensures it.data == data && it.stride == layout.channels
      ensures it.hasAlpha == layout.hasAlpha && it.skipAlpha
    {
      it := IterNoAlphaMut();
    }
  }

  /** Iterating an `empty` buffer yields `width * height` pixels, each all zeros. */
  method EmptyPixels<T(!new)>(component: Component<T>, layout: Layout, width: nat, height: nat)
    returns (pels: seq<seq<T>>)
    requires layout.Valid()
    ensures |pels| == width * height
    ensures forall k | 0 <= k < |pels| :: pels[k] == ZeroPixel(component.zero, layout.channels)
  {
    var image := new ImageBuffer.Empty(component, layout, width, height);
    EmptyIsUniformZero(component.zero, layout.channels, width * height);
    var it := image.IterNoAlpha();
    pels := it.Collect();
  }

  /** Iterating a `with_val` buffer yields `width * height` pixels, each `onePel`, alpha included. */
  method UniformPixels<T(!new)>(component: Component<T>, layout: Layout, onePel: seq<T>, width: nat, height: nat)
    returns (pels: seq<seq<T>>)
    requires layout.Valid() && |onePel| == layout.channels
    ensures |pels| == width * height
    ensures forall k | 0 <= k < |pels| :: pels[k] == onePel
  {
    var image := ImageBuffer.WithVal(component, layout, onePel, width, height);
    var it := image.IterWithAlpha();
    pels := it.Collect();
  }

  /**
   * `ImageBufferIterator`: a forward cursor over the `array_chunks` of the storage.
   * `skipAlpha` records which view created it; `next` ignores it and always yields
   * the whole chunk.
   */
  class PixelIter<T> {
    const data: array<T>
    const stride: nat
    const hasAlpha: bool
    const skipAlpha: bool
    var position: nat

    ghost predicate Valid()
      reads this
    {
      stride >= 1 && position <= data.Length / stride
    }

    constructor (data: array<T>, stride: nat, hasAlpha: bool, skipAlpha: bool)
      requires stride >= 1
      ensures Valid() && position == 0
      ensures this.data == data && this.stride == stride
      ensures this.hasAlpha == hasAlpha && this.skipAlpha == skipAlpha
    {
      this.data := data;
      this.stride := stride;
      this.hasAlpha := hasAlpha;
      this.skipAlpha := skipAlpha;
      this.position := 0;
    }

    /** `next`: the following chunk, all `stride` components of it, or `None` at the end. */
    method Next() returns (item: Option<seq<T>>)
      requires Valid()
      modifies this
      ensures Valid()
      ensures item.Some? <==> old(position) < data.Length / stride
      ensures item.Some? ==> |item.value| == stride
      ensures item.Some? ==> item.value == Chunks(data[..], stride)[old(position)]
      ensures position == if item.Some? then old(position) + 1 else old(position)
    {
      if position < data.Length / stride {
        ChunksAt(data[..], stride, position);
        var lo := position * stride;
        PixelInBounds(position, position + 1, stride);
        item := Some(data[lo .. lo + stride]);
        position := position + 1;
      } else {
        item := None;
      }
    }

    /** A `for` loop over the iterator: `next` until `None`, keeping every chunk, in order. */
    method Collect() returns (items: seq<seq<T>>)
      requires Valid()
      modifies this
      ensures Valid() && position == data.Length / stride
      ensures items == Chunks(data[..], stride)[old(position)..]
    {
      ghost var start := position;
      var all := Chunks(data[..], stride);
      items := [];
      var item := Next();
      while item.Some?
        invariant Valid() && start <= position
        invariant item.Some? ==> position >= 1 && start <= position - 1 && item.value == all[position - 1]
        invariant item.None? ==> position == data.Length / stride
        invariant items == all[start .. if item.Some? then position - 1 else position]
        decreases data.Length / stride - position, item.Some?
      {
        items := items + [item.value];
        item := Next();
      }
    }
  }

  /**
   * `ImagebufferIteratorMut`: the same cursor, lending each chunk for writing.
   * The lent `&mut [Component; C]` is modelled by the chunk's index `k`: the caller
   * may write the components `data[k*stride .. (k+1)*stride]`.
   */
  class PixelIterMut<T> {
    const data: array<T>
    const stride: nat
    const hasAlpha: bool
    const skipAlpha: bool
    var position: nat

    ghost predicate Valid()
      reads this
    {
      stride >= 1 && position <= data.Length / stride
    }

    constructor (data: array<T>, stride: nat, hasAlpha: bool, skipAlpha: bool)
      requires stride >= 1
      ensures Valid() && position == 0
      ensures this.data == data && this.stride == stride
      ensures this.hasAlpha == hasAlpha && this.skipAlpha == skipAlpha
    {
      this.data := data;
      this.stride := stride;
      this.hasAlpha := hasAlpha;
      this.skipAlpha := skipAlpha;
      this.position := 0;
    }

    /** `next`: the index of the following chunk, whole and in bounds, or `None` at the end. */
    method Next() returns (item: Option<nat>)
      requires Valid()
      modifies this
      ensures Valid()
      ensures item.Some? <==> old(position) < data.Length / stride
      ensures item.Some? ==> item.value == old(position) && (item.value + 1) * stride <= data.Length
      ensures position == if item.Some? then old(position) + 1 else old(position)
    {
      if position < data.Length / stride {
        ChunkInBounds(position, data.Length, stride);
        item := Some(position);
        position := position + 1;
      } else {
        item := None;
      }
    }
  }
}
