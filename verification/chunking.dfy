/**
 * The flat layout of a pixel buffer: a sequence of components read as consecutive
 * runs ("chunks") of a fixed stride, the way `slice::array_chunks` walks it, and
 * the inverse operation that concatenates per-pixel runs back into one sequence.
 */
module Chunking {

  // ---------------------------------------------------------------------------
  // Index arithmetic of the row-major, channel-interleaved layout
  // ---------------------------------------------------------------------------

  /** Component `c` of pixel `k` sits at flat index `k*stride + c`, and nowhere else. */
  lemma IndexSplit(k: nat, c: nat, stride: nat)
    requires c < stride
    ensures (k * stride + c) / stride == k
    ensures (k * stride + c) % stride == c
  {
    var j := k * stride + c;
    var q, r := j / stride, j % stride;
    assert j == q * stride + r;
    if q < k {
      MulMonotone(q + 1, k, stride);
      assert false;
    } else if q > k {
      MulMonotone(k + 1, q, stride);
      assert false;
    }
  }

  /** Multiplication by a natural number preserves order. */
  lemma MulMonotone(a: nat, b: nat, m: nat)
    requires a <= b
    ensures a * m <= b * m
  {
    assert b * m == a * m + (b - a) * m;
  }

  /** Pixel `k` of `n` fits inside a buffer of `n*stride` components. */
  lemma PixelInBounds(k: nat, n: nat, stride: nat)
    requires k < n
    ensures (k + 1) * stride == k * stride + stride
    ensures (k + 1) * stride <= n * stride
  {
    MulMonotone(k + 1, n, stride);
  }

  /** `n` whole pixels of `stride` components make exactly `n` chunks, with no remainder. */
  lemma MulDivCancel(n: nat, stride: nat)
    requires stride >= 1
    ensures (n * stride) / stride == n
    ensures (n * stride) % stride == 0
  {
    IndexSplit(n, 0, stride);
  }

  /** Dropping one chunk from the front leaves one chunk fewer. */
  lemma DivStep(m: nat, stride: nat)
    requires 1 <= stride <= m
    ensures (m - stride) / stride == m / stride - 1
  {
    var q, r := m / stride, m % stride;
    assert m == q * stride + r;
    assert q >= 1;
    assert m - stride == (q - 1) * stride + r;
    IndexSplit(q - 1, r, stride);
  }

  /** Fewer components than one stride make no chunk at all. */
  lemma DivSmall(m: nat, stride: nat)
    requires m < stride
    ensures m / stride == 0
  {
    IndexSplit(0, m, stride);
  }

  /** A flat index below `n*stride` belongs to one of the `n` pixels. */
  lemma PixelOf(j: nat, n: nat, stride: nat)
    requires stride >= 1 && j < n * stride
    ensures j / stride < n
    ensures j == (j / stride) * stride + j % stride
  {
    if j / stride >= n {
      MulMonotone(n, j / stride, stride);
    }
  }

  /** Chunk `k` of `m / stride` lies inside the first `m` components. */
  lemma ChunkInBounds(k: nat, m: nat, stride: nat)
    requires stride >= 1 && k < m / stride
    ensures (k + 1) * stride <= m
  {
    var q, r := m / stride, m % stride;
    assert m == q * stride + r;
    MulMonotone(k + 1, q, stride);
  }

  // ---------------------------------------------------------------------------
  // Chunks and their inverse
  // ---------------------------------------------------------------------------

  /** Every run in `ps` has exactly `stride` elements. */
  ghost predicate Uniform<T>(ps: seq<seq<T>>, stride: nat) {
    forall k | 0 <= k < |ps| :: |ps[k]| == stride
  }

  /**
   * What `s.array_chunks::<stride>()` yields, in order: the first `stride`
   * components, then the chunks of the rest; a trailing remainder shorter than
   * `stride` is never yielded.
   */
  function Chunks<T>(s: seq<T>, stride: nat): (r: seq<seq<T>>)
    requires stride >= 1
    ensures |r| == |s| / stride
    ensures Uniform(r, stride)
    decreases |s|
  {
    if |s| < stride then
      DivSmall(|s|, stride);
      []
    else
      DivStep(|s|, stride);
      [s[..stride]] + Chunks(s[stride..], stride)
  }

  /** Concatenation of per-pixel runs, in order. */
  function Flatten<T>(ps: seq<seq<T>>): seq<T> {
    if ps == [] then [] else ps[0] + Flatten(ps[1..])
  }

  /** Chunk `k` is the run `s[k*stride .. (k+1)*stride]`. */
  lemma {:induction false} ChunksAt<T>(s: seq<T>, stride: nat, k: nat)
    requires stride >= 1 && k < |s| / stride
    ensures (k + 1) * stride <= |s|
    ensures Chunks(s, stride)[k] == s[k * stride .. (k + 1) * stride]
    decreases k
  {
    ChunkInBounds(k, |s|, stride);
    DivStep(|s|, stride);
    if k > 0 {
      ChunksAt(s[stride..], stride, k - 1);
      assert k * stride == (k - 1) * stride + stride by {
        PixelInBounds(k - 1, k, stride);
      }
    }
  }

  /** Element form of ChunksAt: channel `c` of chunk `k` is flat component `k*stride + c`. */
  lemma ChunksElement<T>(s: seq<T>, stride: nat, k: nat, c: nat)
    requires stride >= 1 && k < |s| / stride && c < stride
    ensures k * stride + c < |s|
    ensures Chunks(s, stride)[k][c] == s[k * stride + c]
  {
    ChunksAt(s, stride, k);
  }

  /** Concatenating `n` runs of `stride` elements gives `n*stride` elements. */
  lemma {:induction false} FlattenLength<T>(ps: seq<seq<T>>, stride: nat)
    requires Uniform(ps, stride)
    ensures |Flatten(ps)| == |ps| * stride
  {
    if ps != [] {
      FlattenLength(ps[1..], stride);
      assert |ps| * stride == stride + (|ps| - 1) * stride;
    }
  }

  /** Element `c` of run `k` lands at flat index `k*stride + c`. */
  lemma {:induction false} FlattenAt<T>(ps: seq<seq<T>>, stride: nat, k: nat, c: nat)
    requires Uniform(ps, stride) && k < |ps| && c < stride
    ensures k * stride + c < |Flatten(ps)|
    ensures Flatten(ps)[k * stride + c] == ps[k][c]
    decreases k
  {
    FlattenLength(ps, stride);
    PixelInBounds(k, |ps|, stride);
    if k > 0 {
      FlattenAt(ps[1..], stride, k - 1, c);
      PixelInBounds(k - 1, k, stride);
    }
  }

  /** Iterating all chunks and concatenating them visits every component exactly once, in order. */
  lemma {:induction false} FlattenChunks<T>(s: seq<T>, stride: nat)
    requires stride >= 1 && |s| % stride == 0
    ensures Flatten(Chunks(s, stride)) == s
    decreases |s|
  {
    if |s| < stride {
      DivSmall(|s|, stride);
      assert |s| == 0 by {
        assert |s| == stride * (|s| / stride) + |s| % stride;
      }
    } else {
      var rest := s[stride..];
      assert |rest| % stride == 0 by {
        var q := |s| / stride;
        assert |s| == q * stride;
        DivStep(|s|, stride);
        assert |rest| == (q - 1) * stride;
        MulDivCancel(q - 1, stride);
      }
      FlattenChunks(rest, stride);
      assert Chunks(s, stride)[1..] == Chunks(rest, stride);
      assert s == s[..stride] + rest;
    }
  }

  /** Cutting a concatenation of uniform runs back into chunks recovers the runs. */
  lemma {:induction false} ChunksFlatten<T>(ps: seq<seq<T>>, stride: nat)
    requires stride >= 1 && Uniform(ps, stride)
    ensures Chunks(Flatten(ps), stride) == ps
    decreases |ps|
  {
    FlattenLength(ps, stride);
    var s := Flatten(ps);
    if ps == [] {
      DivSmall(0, stride);
    } else {
      assert |s| >= stride by {
        MulMonotone(1, |ps|, stride);
      }
      ChunksFlatten(ps[1..], stride);
      assert s[..stride] == ps[0];
      assert s[stride..] == Flatten(ps[1..]);
    }
  }

  /** Two sequences of `n` pixels are equal when every pixel is. */
  lemma ChunksInjective<T>(s: seq<T>, t: seq<T>, stride: nat)
    requires stride >= 1 && |s| % stride == 0 && |t| % stride == 0
    requires Chunks(s, stride) == Chunks(t, stride)
    ensures s == t
  {
    FlattenChunks(s, stride);
    FlattenChunks(t, stride);
  }
}
