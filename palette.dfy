/** The bar colours the visualiser paints, one tag per bar. */
module Palette {

  /** The colour strings of the source, as an enumeration. */
  datatype Color = Blue | Red | Green | Yellow | Pink | Black | Purple | Cyan | Gold

  /** `n` bars of colour `c`: the source's `[c] * n`. */
  function Fill(c: Color, n: nat): seq<Color>
  {
    seq(n, _ => c)
  }
}
