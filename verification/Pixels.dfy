/** Colours, and what is assumed of compositing one over another. */
module Pixels {
  type Byte = b: nat | b < 256
  datatype Rgba = Rgba(r: Byte, g: Byte, b: Byte, a: Byte)
  const CLEAR := Rgba(0, 0, 0, 0)

  type Blend = (Rgba, Rgba) -> Rgba

  /** All that is assumed of the compositing function. */
  ghost predicate OpaqueReplaces(blend: Blend) {
    forall dst, src: Rgba :: src.a == 255 ==> blend(dst, src) == src
  }
}
