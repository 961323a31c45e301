/** Values the map hands around: three.js vectors and colours, and the CSS
    colour string a marker is styled with. Vector and colour components are
    modelled as exact reals; three.js stores them as doubles. */
module Geometry {

  /** A THREE.Vector3. */
  datatype Vec3 = Vec3(x: real, y: real, z: real)

  const Origin := Vec3(0.0, 0.0, 0.0)

  /** A THREE.Color built from three channels (Math.random() draws in [0, 1)). */
  datatype Colour = Colour(r: real, g: real, b: real)

  /** The `rgb(R, G, B)` string a marker carries, kept as its three numbers:
      each channel of the colour scaled by 255 and printed unrounded. */
  datatype CssRgb = CssRgb(r: real, g: real, b: real)

  function ToCss(c: Colour): (css: CssRgb)
    ensures FromCss(css) == c
  {
    CssRgb(c.r * 255.0, c.g * 255.0, c.b * 255.0)
  }

  /** Reads a colour back from its CSS numbers. */
  function FromCss(css: CssRgb): Colour
  {
    Colour(css.r / 255.0, css.g / 255.0, css.b / 255.0)
  }

  /** Two colours print as the same CSS string only when they are equal. */
  lemma ToCssInjective(c: Colour, d: Colour)
    ensures ToCss(c) == ToCss(d) <==> c == d
  {
  }
}
