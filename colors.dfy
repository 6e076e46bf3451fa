/** Colour triples as PIL hands them out: one byte per channel. */
module Colors {
  import opened Bytes

  datatype Rgb = Rgb(r: byte, g: byte, b: byte)

  datatype Rgba = Rgba(r: byte, g: byte, b: byte, a: byte)

  const Black: Rgb := Rgb(0, 0, 0)

  /** `convert("RGBA")` of an RGB pixel: fully opaque. */
  function Opaque(c: Rgb): Rgba
  {
    Rgba(c.r, c.g, c.b, 255)
  }

  /** `convert("RGB")` of an RGBA pixel: the alpha channel is dropped. */
  function ToRgb(p: Rgba): (c: Rgb)
    ensures Opaque(c) == p <==> p.a == 255
  {
    Rgb(p.r, p.g, p.b)
  }
}
