/**
 * What each pixel-buffer operation computes, stated on the flat component
 * sequence: every operation is "cut into pixels, transform each pixel, join the
 * pixels again", and the lemmas here say what that means component by component.
 */
module BufferSpec {
  import opened Wrappers
  import opened Pixel
  import opened Chunking

  /** A per-pixel closure: from any pixel of `from` channels it yields a pixel of `to` channels. */
  ghost predicate PixelFn<T(!new), U>(f: seq<T> --> seq<U>, from: nat, to: nat) {
    forall p: seq<T> | |p| == from :: f.requires(p) && |f(p)| == to
  }

  /** `f` applied to each run of `ps`, keeping the order. */
  function MapPixels<T, U>(f: seq<T> --> seq<U>, ps: seq<seq<T>>): seq<seq<U>>
    requires forall k | 0 <= k < |ps| :: f.requires(ps[k])
  {
    seq(|ps|, k requires 0 <= k < |ps| => f(ps[k]))
  }

  // ---------------------------------------------------------------------------
  // Construction
  // ---------------------------------------------------------------------------

  /** `vec![Component::zero(); n]`. */
  function ZeroData<T>(zero: T, n: nat): seq<T> {
    seq(n, _ => zero)
  }

  /** The pixel of `stride` zeros. */
  function ZeroPixel<T>(zero: T, stride: nat): seq<T> {
    seq(stride, _ => zero)
  }

  /** The data `with_val` produces: `count` copies of `pel`, alpha included. */
  function UniformData<T>(pel: seq<T>, count: nat): (r: seq<T>)
    requires |pel| >= 1
    ensures |r| == count * |pel|
    ensures Chunks(r, |pel|) == seq(count, _ => pel)
  {
    var ps := seq(count, _ => pel);
    FlattenLength(ps, |pel|);
    ChunksFlatten(ps, |pel|);
    Flatten(ps)
  }

  /** Flat form of a uniform buffer: component `j` is channel `j % C` of the one pixel. */
  lemma UniformAt<T>(pel: seq<T>, count: nat, j: nat)
    requires |pel| >= 1 && j < count * |pel|
    ensures UniformData(pel, count)[j] == pel[j % |pel|]
  {
    var C := |pel|;
    PixelOf(j, count, C);
    MulDivCancel(count, C);
    ChunksElement(UniformData(pel, count), C, j / C, j % C);
  }

  /** Every pixel of `empty` is the zero pixel: `empty` is `with_val` of the zero pixel. */
  lemma {:induction false} EmptyIsUniformZero<T>(zero: T, stride: nat, n: nat)
    requires stride >= 1
    ensures |ZeroData(zero, n * stride)| == n * stride
    ensures Chunks(ZeroData(zero, n * stride), stride) == seq(n, _ => ZeroPixel(zero, stride))
    ensures ZeroData(zero, n * stride) == UniformData(ZeroPixel(zero, stride), n)
  {
    var s := ZeroData(zero, n * stride);
    var u := UniformData(ZeroPixel(zero, stride), n);
    MulDivCancel(n, stride);
    assert |u| == |s|;
    forall j | 0 <= j < |s| ensures s[j] == u[j] {
      UniformAt(ZeroPixel(zero, stride), n, j);
    }
    assert s == u;
  }

  // ---------------------------------------------------------------------------
  // Pixel-wise transformation
  // ---------------------------------------------------------------------------

  /**
   * What `map`, `map_into` and `apply` compute: the pixels of `s` (all `from`
   * channels of each, alpha included) sent through `f` and joined again.
   */
  function MapData<T(!new), U>(f: seq<T> --> seq<U>, s: seq<T>, from: nat, to: nat): (r: seq<U>)
    requires from >= 1 && to >= 1 && PixelFn(f, from, to)
    ensures |r| == (|s| / from) * to
    ensures Chunks(r, to) == MapPixels(f, Chunks(s, from))
  {
    var ps := MapPixels(f, Chunks(s, from));
    FlattenLength(ps, to);
    ChunksFlatten(ps, to);
    Flatten(ps)
  }

  /** Channel `c` of output pixel `k` is channel `c` of `f` applied to input pixel `k`. */
  lemma MapDataAt<T(!new), U>(f: seq<T> --> seq<U>, s: seq<T>, from: nat, to: nat, k: nat, c: nat)
    requires from >= 1 && to >= 1 && PixelFn(f, from, to)
    requires k < |s| / from && c < to
    ensures (k + 1) * from <= |s|
    ensures k * to + c < |MapData(f, s, from, to)|
    ensures MapData(f, s, from, to)[k * to + c] == f(s[k * from .. (k + 1) * from])[c]
  {
    var ps := MapPixels(f, Chunks(s, from));
    ChunksAt(s, from, k);
    FlattenAt(ps, to, k, c);
  }

  /** Output pixel `k` is `f` of input pixel `k`, as a whole run of `to` channels. */
  lemma MapDataChunk<T(!new), U>(f: seq<T> --> seq<U>, s: seq<T>, from: nat, to: nat, k: nat)
    requires from >= 1 && to >= 1 && PixelFn(f, from, to)
    requires k < |s| / from
    ensures (k + 1) * from <= |s|
    ensures (k + 1) * to <= |MapData(f, s, from, to)|
    ensures MapData(f, s, from, to)[k * to .. (k + 1) * to] == f(s[k * from .. (k + 1) * from])
  {
    var r := MapData(f, s, from, to);
    MulDivCancel(|s| / from, to);
    ChunksAt(s, from, k);
    ChunksAt(r, to, k);
  }

  /** Mapping the identity changes nothing. */
  lemma MapIdentity<T(!new)>(s: seq<T>, stride: nat)
    requires stride >= 1 && |s| % stride == 0
    ensures MapData(p => p, s, stride, stride) == s
  {
    var r := MapData(p => p, s, stride, stride);
    assert Chunks(r, stride) == Chunks(s, stride);
    assert |r| % stride == 0 by {
      MulDivCancel(|s| / stride, stride);
    }
    ChunksInjective(r, s, stride);
  }

  /** Pixel functions that agree on every pixel give the same map. */
  lemma MapAgree<T(!new), U>(f: seq<T> --> seq<U>, g: seq<T> --> seq<U>, s: seq<T>, from: nat, to: nat)
    requires from >= 1 && to >= 1 && PixelFn(f, from, to) && PixelFn(g, from, to)
    requires forall p: seq<T> | |p| == from :: f(p) == g(p)
    ensures MapData(f, s, from, to) == MapData(g, s, from, to)
  {
    var a, b := MapData(f, s, from, to), MapData(g, s, from, to);
    var cs := Chunks(s, from);
    assert MapPixels(f, cs) == MapPixels(g, cs) by {
      forall k | 0 <= k < |cs| ensures f(cs[k]) == g(cs[k]) {
        assert |cs[k]| == from;
      }
    }
    MulDivCancel(|s| / from, to);
    ChunksInjective(a, b, to);
  }

  /** Two maps in a row are one map of the composed pixel function. */
  lemma MapCompose<T(!new), U(!new), V>(f: seq<T> --> seq<U>, g: seq<U> --> seq<V>, s: seq<T>, a: nat, b: nat, c: nat)
    requires a >= 1 && b >= 1 && c >= 1 && PixelFn(f, a, b) && PixelFn(g, b, c)
    ensures PixelFn((p: seq<T>) requires |p| == a => g(f(p)), a, c)
    ensures MapData(g, MapData(f, s, a, b), b, c) == MapData((p: seq<T>) requires |p| == a => g(f(p)), s, a, c)
  {
    var h := (p: seq<T>) requires |p| == a => g(f(p));
    var lhs := MapData(g, MapData(f, s, a, b), b, c);
    var rhs := MapData(h, s, a, c);
    var m := MapData(f, s, a, b);
    MulDivCancel(|s| / a, b);
    MulDivCancel(|s| / a, c);
    assert |m| / b == |s| / a;
    assert Chunks(lhs, c) == Chunks(rhs, c) by {
      assert Chunks(m, b) == MapPixels(f, Chunks(s, a));
    }
    ChunksInjective(lhs, rhs, c);
  }

  /** A map followed by a pixel function that undoes it gives back the original data. */
  lemma MapRoundTrip<T(!new), U(!new)>(f: seq<T> --> seq<U>, g: seq<U> --> seq<T>, s: seq<T>, a: nat, b: nat)
    requires a >= 1 && b >= 1 && PixelFn(f, a, b) && PixelFn(g, b, a)
    requires forall p: seq<T> | |p| == a :: g(f(p)) == p
    requires |s| % a == 0
    ensures MapData(g, MapData(f, s, a, b), b, a) == s
  {
    MapCompose(f, g, s, a, b, a);
    var h := (p: seq<T>) requires |p| == a => g(f(p));
    var r := MapData(h, s, a, a);
    assert Chunks(r, a) == Chunks(s, a);
    MulDivCancel(|s| / a, a);
    ChunksInjective(r, s, a);
  }

  /** Uniform in, uniform out: mapping a `with_val` buffer gives the buffer of `f(pel)`. */
  lemma MapUniform<T(!new), U>(f: seq<T> --> seq<U>, pel: seq<T>, n: nat, to: nat)
    requires |pel| >= 1 && to >= 1 && PixelFn(f, |pel|, to)
    ensures MapData(f, UniformData(pel, n), |pel|, to) == UniformData(f(pel), n)
  {
    var r := MapData(f, UniformData(pel, n), |pel|, to);
    var u := UniformData(f(pel), n);
    MulDivCancel(n, |pel|);
    MulDivCancel(n, to);
    assert Chunks(r, to) == Chunks(u, to);
    ChunksInjective(r, u, to);
  }

  // ---------------------------------------------------------------------------
  // Cross-layout cast
  // ---------------------------------------------------------------------------

  /**
   * One pixel of `as_other`: the first `min(|pel|, to)` channels are cast (a failed
   * cast gives the default); channels the source does not have keep the zero of `empty`.
   */
  function CastPixel<S, T>(cast: S -> Option<T>, dst: Component<T>, pel: seq<S>, to: nat): seq<T> {
    seq(to, c requires 0 <= c < to => if c < |pel| then CastOrDefault(cast, dst, pel[c]) else dst.zero)
  }

  /** The data `as_other` produces. */
  function AsOtherData<S(!new), T>(cast: S -> Option<T>, dst: Component<T>, s: seq<S>, from: nat, to: nat): (r: seq<T>)
    requires from >= 1 && to >= 1
    ensures |r| == (|s| / from) * to
  {
    MapData(pel => CastPixel(cast, dst, pel, to), s, from, to)
  }

  /** Channel `c` of pixel `k` after `as_other`. */
  lemma AsOtherAt<S(!new), T>(cast: S -> Option<T>, dst: Component<T>, s: seq<S>, from: nat, to: nat, k: nat, c: nat)
    requires from >= 1 && to >= 1 && k < |s| / from && c < to
    ensures k * to + c < |AsOtherData(cast, dst, s, from, to)|
    ensures c < from ==> k * from + c < |s|
    ensures AsOtherData(cast, dst, s, from, to)[k * to + c]
         == if c < from then CastOrDefault(cast, dst, s[k * from + c]) else dst.zero
  {
    AsOtherChunk(cast, dst, s, from, to, k);
    PixelInBounds(k, k + 1, from);
    PixelInBounds(k, k + 1, to);
    var r := AsOtherData(cast, dst, s, from, to);
    assert r[k * to + c] == r[k * to .. (k + 1) * to][c];
  }

  /** Pixel `k` after `as_other` is the cast of pixel `k`. */
  lemma AsOtherChunk<S(!new), T>(cast: S -> Option<T>, dst: Component<T>, s: seq<S>, from: nat, to: nat, k: nat)
    requires from >= 1 && to >= 1 && k < |s| / from
    ensures (k + 1) * from <= |s|
    ensures (k + 1) * to <= |AsOtherData(cast, dst, s, from, to)|
    ensures AsOtherData(cast, dst, s, from, to)[k * to .. (k + 1) * to]
         == CastPixel(cast, dst, s[k * from .. (k + 1) * from], to)
  {
    MapDataChunk(pel => CastPixel(cast, dst, pel, to), s, from, to, k);
  }

  /** Casting to the same layout with a cast that always succeeds copies the data. */
  lemma AsOtherLossless<T(!new)>(cast: T -> Option<T>, dst: Component<T>, s: seq<T>, stride: nat)
    requires stride >= 1 && |s| % stride == 0
    requires forall x :: cast(x) == Some(x)
    ensures AsOtherData(cast, dst, s, stride, stride) == s
  {
    var g := pel => CastPixel(cast, dst, pel, stride);
    forall p: seq<T> | |p| == stride ensures g(p) == p {
      forall c | 0 <= c < stride ensures g(p)[c] == p[c] {
        assert cast(p[c]) == Some(p[c]);
      }
    }
    MapAgree(g, p => p, s, stride, stride);
    MapIdentity(s, stride);
  }

  // ---------------------------------------------------------------------------
  // Planes
  // ---------------------------------------------------------------------------

  /** The data of plane `i`: channel `i` of every pixel, in pixel order. */
  function PlaneData<T(!new)>(s: seq<T>, stride: nat, i: nat): (r: seq<T>)
    requires i < stride
    ensures |r| == |s| / stride
  {
    MapData((pel: seq<T>) requires i < |pel| => [pel[i]], s, stride, 1)
  }

  /** Component `k` of plane `i` is flat component `k*stride + i` of the buffer. */
  lemma PlaneAt<T(!new)>(s: seq<T>, stride: nat, i: nat, k: nat)
    requires i < stride && k < |s| / stride
    ensures k * stride + i < |s|
    ensures PlaneData(s, stride, i)[k] == s[k * stride + i]
  {
    MapDataChunk((pel: seq<T>) requires i < |pel| => [pel[i]], s, stride, 1, k);
    PixelInBounds(k, k + 1, stride);
    var r := PlaneData(s, stride, i);
    assert r[k] == r[k .. k + 1][0];
    assert s[k * stride .. (k + 1) * stride][i] == s[k * stride + i];
  }

  /**
   * What `put_plane` produces: channel `i` of pixel `k` replaced by `p[k]` for every
   * pixel the zip reaches (`k < min(pixel count, |p|)`), everything else kept.
   */
  function PutPlaneData<T>(s: seq<T>, stride: nat, i: nat, p: seq<T>): (r: seq<T>)
    requires i < stride
    ensures |r| == (|s| / stride) * stride
  {
    var ps := WritePlane(Chunks(s, stride), i, p);
    WritePlaneUniform(Chunks(s, stride), stride, i, p);
    FlattenLength(ps, stride);
    Flatten(ps)
  }

  /** The pixels after `put_plane`: pixel `k` gets `p[k]` in channel `i` while both last. */
  function WritePlane<T>(cs: seq<seq<T>>, i: nat, p: seq<T>): seq<seq<T>> {
    seq(|cs|, k requires 0 <= k < |cs| => if k < |p| && i < |cs[k]| then cs[k][i := p[k]] else cs[k])
  }

  /** Writing a channel keeps every pixel's width. */
  lemma WritePlaneUniform<T>(cs: seq<seq<T>>, stride: nat, i: nat, p: seq<T>)
    requires Uniform(cs, stride)
    ensures Uniform(WritePlane(cs, i, p), stride)
  {
  }

  /** Flat form of `put_plane`: exactly the components `k*stride + i` with `k < |p|` change. */
  lemma PutPlaneAt<T>(s: seq<T>, stride: nat, i: nat, p: seq<T>, j: nat)
    requires i < stride && |s| % stride == 0 && j < |s|
    ensures |PutPlaneData(s, stride, i, p)| == |s|
    ensures PutPlaneData(s, stride, i, p)[j]
         == if j % stride == i && j / stride < |p| then p[j / stride] else s[j]
  {
    var cs := Chunks(s, stride);
    var ps := WritePlane(cs, i, p);
    var n := |s| / stride;
    assert |s| == n * stride;
    WritePlaneUniform(cs, stride, i, p);
    FlattenLength(ps, stride);
    PixelOf(j, n, stride);
    var k, c := j / stride, j % stride;
    FlattenAt(ps, stride, k, c);
    ChunksElement(s, stride, k, c);
  }

  /** With no plane values nothing is written. */
  lemma PutPlaneNothing<T>(s: seq<T>, stride: nat, i: nat)
    requires i < stride && |s| % stride == 0
    ensures PutPlaneData(s, stride, i, []) == s
  {
    var t := PutPlaneData(s, stride, i, []);
    assert |t| == |s| by { PutPlaneFullLength(s, stride, i, []); }
    forall j | 0 <= j < |s| ensures t[j] == s[j] {
      PutPlaneAt(s, stride, i, [], j);
    }
  }

  /** `put_plane` on a buffer of whole pixels keeps its length. */
  lemma PutPlaneFullLength<T>(s: seq<T>, stride: nat, i: nat, p: seq<T>)
    requires i < stride && |s| % stride == 0
    ensures |PutPlaneData(s, stride, i, p)| == |s|
  {
    assert |s| == (|s| / stride) * stride;
  }

  /**
   * One more step of the zip: writing plane value `x` for the next pixel `|p|`
   * changes exactly component `|p|*stride + i`.
   */
  lemma PutPlaneStep<T>(s: seq<T>, stride: nat, i: nat, p: seq<T>, x: T)
    requires i < stride && |s| % stride == 0 && |p| < |s| / stride
    ensures |p| * stride + i < |s|
    ensures |PutPlaneData(s, stride, i, p)| == |s|
    ensures PutPlaneData(s, stride, i, p + [x]) == PutPlaneData(s, stride, i, p)[|p| * stride + i := x]
  {
    var n, k := |s| / stride, |p|;
    PixelInBounds(k, n, stride);
    IndexSplit(k, i, stride);
    PutPlaneFullLength(s, stride, i, p);
    PutPlaneFullLength(s, stride, i, p + [x]);
    var a := PutPlaneData(s, stride, i, p + [x]);
    var b := PutPlaneData(s, stride, i, p)[k * stride + i := x];
    forall j | 0 <= j < |s| ensures a[j] == b[j] {
      PutPlaneAt(s, stride, i, p + [x], j);
      PutPlaneAt(s, stride, i, p, j);
      if j != k * stride + i && j % stride == i && j / stride == k {
        PixelOf(j, n, stride);
        assert false;
      }
    }
  }

  /** Plane values beyond the last pixel are never written: the zip stops there. */
  lemma PutPlaneTruncate<T>(s: seq<T>, stride: nat, i: nat, p: seq<T>)
    requires i < stride && |s| % stride == 0 && |s| / stride <= |p|
    ensures PutPlaneData(s, stride, i, p) == PutPlaneData(s, stride, i, p[..|s| / stride])
  {
    var n := |s| / stride;
    var a := PutPlaneData(s, stride, i, p);
    var b := PutPlaneData(s, stride, i, p[..n]);
    PutPlaneFullLength(s, stride, i, p);
    PutPlaneFullLength(s, stride, i, p[..n]);
    forall j | 0 <= j < |s| ensures a[j] == b[j] {
      PutPlaneAt(s, stride, i, p, j);
      PutPlaneAt(s, stride, i, p[..n], j);
      PixelOf(j, n, stride);
    }
  }

  /** Reading back the plane just written yields it (when it covers every pixel). */
  lemma PlaneOfPutPlane<T(!new)>(s: seq<T>, stride: nat, i: nat, p: seq<T>)
    requires i < stride && |s| % stride == 0 && |p| == |s| / stride
    ensures PlaneData(PutPlaneData(s, stride, i, p), stride, i) == p
  {
    var t := PutPlaneData(s, stride, i, p);
    PutPlaneFullLength(s, stride, i, p);
    forall k | 0 <= k < |p| ensures PlaneData(t, stride, i)[k] == p[k] {
      PlaneOfPutPlaneAt(s, stride, i, p, k);
    }
  }

  /** Pixel `k` of the plane just written is `p[k]`. */
  lemma PlaneOfPutPlaneAt<T(!new)>(s: seq<T>, stride: nat, i: nat, p: seq<T>, k: nat)
    requires i < stride && |s| % stride == 0 && k < |p| && k < |s| / stride
    ensures |PutPlaneData(s, stride, i, p)| == |s|
    ensures PlaneData(PutPlaneData(s, stride, i, p), stride, i)[k] == p[k]
  {
    var t := PutPlaneData(s, stride, i, p);
    PutPlaneFullLength(s, stride, i, p);
    PlaneAt(t, stride, i, k);
    IndexSplit(k, i, stride);
    PutPlaneAt(s, stride, i, p, k * stride + i);
  }

  /** Component `j` is untouched by writing back the buffer's own plane `i`. */
  lemma PutPlaneOfPlaneAt<T(!new)>(s: seq<T>, stride: nat, i: nat, j: nat)
    requires i < stride && |s| % stride == 0 && j < |s|
    ensures |PutPlaneData(s, stride, i, PlaneData(s, stride, i))| == |s|
    ensures PutPlaneData(s, stride, i, PlaneData(s, stride, i))[j] == s[j]
  {
    var p := PlaneData(s, stride, i);
    assert |s| == (|s| / stride) * stride;
    PutPlaneAt(s, stride, i, p, j);
    if j % stride == i && j / stride < |p| {
      PixelOf(j, |s| / stride, stride);
      PlaneAt(s, stride, i, j / stride);
    }
  }

  /** Writing back a buffer's own plane changes nothing. */
  lemma PutPlaneOfPlane<T(!new)>(s: seq<T>, stride: nat, i: nat)
    requires i < stride && |s| % stride == 0
    ensures PutPlaneData(s, stride, i, PlaneData(s, stride, i)) == s
  {
    var p := PlaneData(s, stride, i);
    var t := PutPlaneData(s, stride, i, p);
    PutPlaneFullLength(s, stride, i, p);
    forall j | 0 <= j < |s| ensures t[j] == s[j] {
      PutPlaneOfPlaneAt(s, stride, i, j);
    }
  }

  /** `put_plane` on channel `i` leaves every other plane as it was. */
  lemma PutPlaneKeepsOtherPlanes<T(!new)>(s: seq<T>, stride: nat, i: nat, i': nat, p: seq<T>)
    requires i < stride && i' < stride && i != i' && |s| % stride == 0
    ensures PlaneData(PutPlaneData(s, stride, i, p), stride, i') == PlaneData(s, stride, i')
  {
    var t := PutPlaneData(s, stride, i, p);
    PutPlaneFullLength(s, stride, i, p);
    forall k | 0 <= k < |s| / stride
      ensures PlaneData(t, stride, i')[k] == PlaneData(s, stride, i')[k]
    {
      PutPlaneOtherAt(s, stride, i, i', p, k);
    }
  }

  /** Pixel `k` of plane `i'` is unchanged by writing plane `i`. */
  lemma PutPlaneOtherAt<T(!new)>(s: seq<T>, stride: nat, i: nat, i': nat, p: seq<T>, k: nat)
    requires i < stride && i' < stride && i != i' && |s| % stride == 0 && k < |s| / stride
    ensures |PutPlaneData(s, stride, i, p)| == |s|
    ensures PlaneData(PutPlaneData(s, stride, i, p), stride, i')[k] == PlaneData(s, stride, i')[k]
  {
    var t := PutPlaneData(s, stride, i, p);
    PutPlaneFullLength(s, stride, i, p);
    PlaneAt(t, stride, i', k);
    PlaneAt(s, stride, i', k);
    IndexSplit(k, i', stride);
    PutPlaneAt(s, stride, i, p, k * stride + i');
  }
}
