/**
 * The type-erased image: one colour space of one of five component types,
 * chosen at construction, exposing only its width and height.
 */
module Images {
  import Pixel
  import opened ColorSpaces
  import opened ImageBuffers

  /** `ImageImpl<T>`: a colour space over components of type `T`. */
  datatype ImageImpl<T(!new)> = ImageImpl(data: ColorSpace<T>) {

    /** `width`: the wrapped buffer's width, whatever the colour space. */
    function Width(): (w: nat)
      ensures w == data.buf.width
      ensures data.Valid() ==> data.buf.data.Length == w * data.buf.height * data.TagLayout().channels
    {
      match data
      case Rgba(buf) => buf.width
      case Rgb(buf) => buf.width
      case Hsv(buf) => buf.width
      case Cielab(buf) => buf.width
    }

    /** `height`: the wrapped buffer's height, whatever the colour space. */
    function Height(): (h: nat)
      ensures h == data.buf.height
      ensures data.Valid() ==> data.buf.data.Length == data.buf.width * h * data.TagLayout().channels
    {
      match data
      case Rgba(buf) => buf.height
      case Rgb(buf) => buf.height
      case Hsv(buf) => buf.height
      case Cielab(buf) => buf.height
    }
  }

  /** `Implementation`: the five component types an image can have. */
  datatype Implementation =
    | U8(u8: ImageImpl<Pixel.U8>)
    | U16(u16: ImageImpl<Pixel.U16>)
    | U32(u32: ImageImpl<Pixel.U32>)
    | F32(f32: ImageImpl<Pixel.F32>)
    | F64(f64: ImageImpl<Pixel.F64>)
  {
    /** The colour space inside, whatever its component type, is well formed. */
    ghost predicate Valid() {
      match this
      case U8(imp) => imp.data.Valid()
      case U16(imp) => imp.data.Valid()
      case U32(imp) => imp.data.Valid()
      case F32(imp) => imp.data.Valid()
      case F64(imp) => imp.data.Valid()
    }

    /** The component type of the variant: never u64 or u128, which have no variant. */
    function Kind(): (k: Pixel.Kind)
      ensures k != Pixel.Uint64 && k != Pixel.Uint128
      ensures k in Pixel.AllKinds
    {
      match this
      case U8(_) => Pixel.Uint8
      case U16(_) => Pixel.Uint16
      case U32(_) => Pixel.Uint32
      case F32(_) => Pixel.Float32
      case F64(_) => Pixel.Float64
    }

    /** `width`: in every variant, the width of the buffer inside. */
    function Width(): (w: nat)
      ensures U8? ==> w == u8.data.buf.width
      ensures U16? ==> w == u16.data.buf.width
      ensures U32? ==> w == u32.data.buf.width
      ensures F32? ==> w == f32.data.buf.width
      ensures F64? ==> w == f64.data.buf.width
    {
      match this
      case U8(imp) => imp.Width()
      case U16(imp) => imp.Width()
      case U32(imp) => imp.Width()
      case F32(imp) => imp.Width()
      case F64(imp) => imp.Width()
    }

    /** `height`: in every variant, the height of the buffer inside. */
    function Height(): (h: nat)
      ensures U8? ==> h == u8.data.buf.height
      ensures U16? ==> h == u16.data.buf.height
      ensures U32? ==> h == u32.data.buf.height
      ensures F32? ==> h == f32.data.buf.height
      ensures F64? ==> h == f64.data.buf.height
    {
      match this
      case U8(imp) => imp.Height()
      case U16(imp) => imp.Height()
      case U32(imp) => imp.Height()
      case F32(imp) => imp.Height()
      case F64(imp) => imp.Height()
    }
  }

  /** `Image`: the public, type-erased handle. */
  datatype Image = Image(imp: Implementation) {

    /** `new_u8`: the colour space, unchanged, in the u8 variant. */
    static function NewU8(data: ColorSpace<Pixel.U8>): (img: Image)
      requires data.Valid()
      ensures img.Valid()
      ensures img.imp.U8? && img.imp.u8.data == data
      ensures img.Width() == data.buf.width && img.Height() == data.buf.height
    {
      Image(U8(ImageImpl(data)))
    }

    /** `new_u16`: the colour space, unchanged, in the u16 variant. */
    static function NewU16(data: ColorSpace<Pixel.U16>): (img: Image)
      requires data.Valid()
      ensures img.Valid()
      ensures img.imp.U16? && img.imp.u16.data == data
      ensures img.Width() == data.buf.width && img.Height() == data.buf.height
    {
      Image(U16(ImageImpl(data)))
    }

    /** `new_u32`: the colour space, unchanged, in the u32 variant. */
    static function NewU32(data: ColorSpace<Pixel.U32>): (img: Image)
      requires data.Valid()
      ensures img.Valid()
      ensures img.imp.U32? && img.imp.u32.data == data
      ensures img.Width() == data.buf.width && img.Height() == data.buf.height
    {
      Image(U32(ImageImpl(data)))
    }

    /** `new_f32`: the colour space, unchanged, in the f32 variant. */
    static function NewF32(data: ColorSpace<Pixel.F32>): (img: Image)
      requires data.Valid()
      ensures img.Valid()
      ensures img.imp.F32? && img.imp.f32.data == data
      ensures img.Width() == data.buf.width && img.Height() == data.buf.height
    {
      Image(F32(ImageImpl(data)))
    }

    /** `new_f64`: the colour space, unchanged, in the f64 variant. */
    static function NewF64(data: ColorSpace<Pixel.F64>): (img: Image)
      requires data.Valid()
      ensures img.Valid()
      ensures img.imp.F64? && img.imp.f64.data == data
      ensures img.Width() == data.buf.width && img.Height() == data.buf.height
    {
      Image(F64(ImageImpl(data)))
    }

    /** `Image::new::<T>`: `T`'s own `ImageFactory::create` builds the image. */
    static function New<T(!new)>(factory: Factory<T>, data: ColorSpace<T>): Image
      requires data.Valid() && factory.create.requires(data)
    {
      factory.create(data)
    }

    /** The colour space inside has the layout of its tag, as the Rust types force. */
    ghost predicate Valid() {
      imp.Valid()
    }

    /** `width`: that of the buffer, through whichever variant holds it. */
    function Width(): (w: nat)
      ensures imp.U8? ==> w == imp.u8.data.buf.width
      ensures imp.U16? ==> w == imp.u16.data.buf.width
      ensures imp.U32? ==> w == imp.u32.data.buf.width
      ensures imp.F32? ==> w == imp.f32.data.buf.width
      ensures imp.F64? ==> w == imp.f64.data.buf.width
    {
      imp.Width()
    }

    /** `height`: that of the buffer, through whichever variant holds it. */
    function Height(): (h: nat)
      ensures imp.U8? ==> h == imp.u8.data.buf.height
      ensures imp.U16? ==> h == imp.u16.data.buf.height
      ensures imp.U32? ==> h == imp.u32.data.buf.height
      ensures imp.F32? ==> h == imp.f32.data.buf.height
      ensures imp.F64? ==> h == imp.f64.data.buf.height
    {
      imp.Height()
    }
  }

  /**
   * `ImageFactory`: a component type that can be wrapped, with its constructor,
   * passed as a value. The source implements it for five types, the constants
   * below; nothing here stops a caller from building another value of this type.
   */
  datatype Factory<!T(!new)> = Factory(component: Pixel.Component<T>, create: ColorSpace<T> --> Image)

  const U8Factory: Factory<Pixel.U8> := Factory(Pixel.U8Component, Image.NewU8)
  const U16Factory: Factory<Pixel.U16> := Factory(Pixel.U16Component, Image.NewU16)
  const U32Factory: Factory<Pixel.U32> := Factory(Pixel.U32Component, Image.NewU32)
  const F32Factory: Factory<Pixel.F32> := Factory(Pixel.F32Component, Image.NewF32)
  const F64Factory: Factory<Pixel.F64> := Factory(Pixel.F64Component, Image.NewF64)

  /**
   * `Image::new::<T>` selects the variant of `T`: u8 to U8, u16 to U16, u32 to U32,
   * f32 to F32 and f64 to F64, storing the colour space unchanged.
   */
  lemma NewSelectsVariant(
    d8: ColorSpace<Pixel.U8>, d16: ColorSpace<Pixel.U16>, d32: ColorSpace<Pixel.U32>,
    f32: ColorSpace<Pixel.F32>, f64: ColorSpace<Pixel.F64>)
    requires d8.Valid() && d16.Valid() && d32.Valid() && f32.Valid() && f64.Valid()
    ensures Image.New(U8Factory, d8) == Image(U8(ImageImpl(d8)))
    ensures Image.New(U16Factory, d16) == Image(U16(ImageImpl(d16)))
    ensures Image.New(U32Factory, d32) == Image(U32(ImageImpl(d32)))
    ensures Image.New(F32Factory, f32) == Image(F32(ImageImpl(f32)))
    ensures Image.New(F64Factory, f64) == Image(F64(ImageImpl(f64)))
    ensures Image.New(U8Factory, d8).imp.Kind() == U8Factory.component.kind == Pixel.Uint8
    ensures Image.New(U16Factory, d16).imp.Kind() == U16Factory.component.kind == Pixel.Uint16
    ensures Image.New(U32Factory, d32).imp.Kind() == U32Factory.component.kind == Pixel.Uint32
    ensures Image.New(F32Factory, f32).imp.Kind() == F32Factory.component.kind == Pixel.Float32
    ensures Image.New(F64Factory, f64).imp.Kind() == F64Factory.component.kind == Pixel.Float64
    ensures Image.New(U8Factory, d8).Valid() && Image.New(U16Factory, d16).Valid()
    ensures Image.New(U32Factory, d32).Valid() && Image.New(F32Factory, f32).Valid()
    ensures Image.New(F64Factory, f64).Valid()
  {
  }

  /**
   * The five `ImageFactory` implementations: each carries its own component type
   * and creates through its own `new_*` constructor.
   */
  lemma FactoryInstances()
    ensures U8Factory.component == Pixel.U8Component && U8Factory.create == Image.NewU8
    ensures U16Factory.component == Pixel.U16Component && U16Factory.create == Image.NewU16
    ensures U32Factory.component == Pixel.U32Component && U32Factory.create == Image.NewU32
    ensures F32Factory.component == Pixel.F32Component && F32Factory.create == Image.NewF32
    ensures F64Factory.component == Pixel.F64Component && F64Factory.create == Image.NewF64
  {
  }

  /**
   * The `new_rgba_u8` example: `Image::new::<u8>` of an empty 4x4 Rgba buffer is
   * a U8 image holding that Rgba buffer, 4 wide and 4 high.
   */
  method NewRgbaU8() returns (img: Image)
    ensures img.Valid()
    ensures img.imp.U8? && img.imp.u8.data.Rgba?
    ensures img.imp.u8.data.buf.width == 4 && img.imp.u8.data.buf.height == 4
    ensures img.Width() == 4 && img.Height() == 4
  {
    var buf := new ImageBuffer.Empty(Pixel.U8Component, Pixel.Layout(4, true), 4, 4);
    img := Image.New(U8Factory, Rgba(buf));
  }
}
