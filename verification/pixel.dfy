/**
 * The two capabilities the buffer is generic over: what a channel's numeric type
 * must provide (PixelComponent) and the compile-time layout facts every pixel
 * container exposes (PixelContainer).
 */
module Pixel {
  import opened Wrappers

  /** The closed set of types implementing PixelComponent. */
  datatype Kind = Uint8 | Uint16 | Uint32 | Uint64 | Uint128 | Float32 | Float64

  const AllKinds: set<Kind> := {Uint8, Uint16, Uint32, Uint64, Uint128, Float32, Float64}

  newtype U8 = x: int | 0 <= x < 0x100
  newtype U16 = x: int | 0 <= x < 0x1_0000
  newtype U32 = x: int | 0 <= x < 0x1_0000_0000
  newtype U64 = x: int | 0 <= x < 0x1_0000_0000_0000_0000
  newtype U128 = x: int | 0 <= x < 0x1_0000_0000_0000_0000_0000_0000_0000_0000

  /** IEEE 754 values, kept as their bit patterns: no floating-point arithmetic is modelled. */
  datatype F32 = F32(bits: bv32)
  datatype F64 = F64(bits: bv64)

  /**
   * The PixelComponent bound of one component type, passed explicitly: which of
   * the seven types it is, its `Zero::zero()` and its `Default::default()`.
   */
  datatype Component<T> = Component(kind: Kind, zero: T, default: T)

  const U8Component: Component<U8> := Component(Uint8, 0, 0)
  const U16Component: Component<U16> := Component(Uint16, 0, 0)
  const U32Component: Component<U32> := Component(Uint32, 0, 0)
  const U64Component: Component<U64> := Component(Uint64, 0, 0)
  const U128Component: Component<U128> := Component(Uint128, 0, 0)
  const F32Component: Component<F32> := Component(Float32, F32(0), F32(0))
  const F64Component: Component<F64> := Component(Float64, F64(0), F64(0))

  /** Exactly seven types are pixel components, each tagged with its own kind. */
  lemma SevenComponentKinds()
    ensures forall k: Kind :: k in AllKinds
    ensures |AllKinds| == 7
    ensures U8Component.kind == Uint8 && U16Component.kind == Uint16 && U32Component.kind == Uint32
    ensures U64Component.kind == Uint64 && U128Component.kind == Uint128
    ensures F32Component.kind == Float32 && F64Component.kind == Float64
  {
    var s6 := {Uint8, Uint16, Uint32, Uint64, Uint128, Float32};
    var s5 := {Uint8, Uint16, Uint32, Uint64, Uint128};
    var s4 := {Uint8, Uint16, Uint32, Uint64};
    assert |{Uint8, Uint16, Uint32}| == 3;
    assert |s4| == 4 by { assert s4 == {Uint8, Uint16, Uint32} + {Uint64}; }
    assert |s5| == 5 by { assert s5 == s4 + {Uint128}; }
    assert |s6| == 6 by { assert s6 == s5 + {Float32}; }
    assert AllKinds == s6 + {Float64};
    forall k: Kind ensures k in AllKinds {
      match k
      case Uint8 =>
      case Uint16 =>
      case Uint32 =>
      case Uint64 =>
      case Uint128 =>
      case Float32 =>
      case Float64 =>
    }
  }

  /** For every component type the zero that `empty` writes is also the cast fallback. */
  lemma ZeroIsDefault()
    ensures U8Component.zero == U8Component.default && U16Component.zero == U16Component.default
    ensures U32Component.zero == U32Component.default && U64Component.zero == U64Component.default
    ensures U128Component.zero == U128Component.default
    ensures F32Component.zero == F32Component.default && F64Component.zero == F64Component.default
  {
  }

  /**
   * `<T as NumCast>::from(x).unwrap_or_default()`: the cast is an arbitrary partial
   * function, and where it fails the destination's default takes its place.
   */
  function CastOrDefault<S, T>(cast: S -> Option<T>, dst: Component<T>, x: S): (r: T)
    ensures cast(x).None? ==> r == dst.default
    ensures cast(x).Some? ==> r == cast(x).value
  {
    cast(x).GetOr(dst.default)
  }

  /**
   * The compile-time facts of a PixelContainer: `NUM_COMPONENTS`
   * (COMPONENTS_PER_PEL) and `HAS_ALPHA`; when alpha is present it is the last channel.
   */
  datatype Layout = Layout(channels: nat, hasAlpha: bool) {

    /** `array_chunks` panics on a zero stride, and `ALPHA_IDX` is `channels - 1`. */
    predicate Valid() {
      channels >= 1
    }

    /** `NUM_COMPONENTS`: the colour channels and the alpha channel, if any, together. */
    function NumComponents(): (r: nat)
      ensures Valid() <==> r >= 1
      ensures Valid() ==> r == NumNonAlphaComponents() + (if hasAlpha then 1 else 0)
    {
      channels
    }

    /** `ALPHA_IDX`: present exactly when the layout has alpha, and then the last channel. */
    function AlphaIdx(): (r: Option<nat>)
      requires Valid()
      ensures r.Some? <==> hasAlpha
      ensures r.Some? ==> r.value < channels && r.value + 1 == channels
    {
      if hasAlpha then Some(channels - 1) else None
    }

    /** `NUM_NONALPHA_COMPONENTS`: the channels that remain once alpha is set aside. */
    function NumNonAlphaComponents(): (r: nat)
      requires Valid()
      ensures r + (if hasAlpha then 1 else 0) == channels
    {
      if hasAlpha then channels - 1 else channels
    }
  }

  /** The layout of `OnePlane`: one channel, no alpha. */
  const PlaneLayout: Layout := Layout(1, false)

  /**
   * The non-alpha channels are exactly the indices below NUM_NONALPHA_COMPONENTS,
   * and ALPHA_IDX, when present, is the first index after them.
   */
  lemma AlphaFollowsColourChannels(l: Layout)
    requires l.Valid()
    ensures l.AlphaIdx().Some? ==> l.AlphaIdx().value == l.NumNonAlphaComponents()
    ensures l.AlphaIdx().None? ==> l.NumNonAlphaComponents() == l.NumComponents()
    ensures l.NumNonAlphaComponents() >= l.NumComponents() - 1
  {
  }
}
