/** RGB colours: componentwise sums, differences, the Hadamard product and
    scaling, compared with the tolerance of `equal`. */
module Colors {
  import opened Primitives

  /** A default-constructed colour has all three channels at 0, i.e. black. */
  datatype Color = Color(red: real := 0.0, green: real := 0.0, blue: real := 0.0)

  const Black: Color := Color()
  const White: Color := Color(1.0, 1.0, 1.0)

  function Add(a: Color, b: Color): Color {
    Color(a.red + b.red, a.green + b.green, a.blue + b.blue)
  }

  function Sub(a: Color, b: Color): Color {
    Color(a.red - b.red, a.green - b.green, a.blue - b.blue)
  }

  /** The Hadamard (channel by channel) product. */
  function Hadamard(a: Color, b: Color): Color {
    Color(a.red * b.red, a.green * b.green, a.blue * b.blue)
  }

  function Scale(c: Color, k: real): Color {
    Color(c.red * k, c.green * k, c.blue * k)
  }

  /** Colour `operator==`: `equal` on red, green and blue. */
  predicate ColorEq(a: Color, b: Color) {
    ApproxEq(a.red, b.red) && ApproxEq(a.green, b.green) && ApproxEq(a.blue, b.blue)
  }

  lemma DefaultIsBlack()
    ensures Color() == Color(0.0, 0.0, 0.0)
    ensures Black.red == 0.0 && Black.green == 0.0 && Black.blue == 0.0
  {
  }

  lemma ColorEqIsChannelTolerance(a: Color, b: Color)
    ensures ColorEq(a, b) <==>
              Abs(a.red - b.red) < EPSILON && Abs(a.green - b.green) < EPSILON &&
              Abs(a.blue - b.blue) < EPSILON
  {
  }

  lemma HadamardCommutes(a: Color, b: Color)
    ensures Hadamard(a, b) == Hadamard(b, a)
  {
  }

  lemma ScaleByOneAndZero(c: Color)
    ensures Scale(c, 1.0) == c
    ensures Scale(c, 0.0) == Black
  {
  }

  /** Over exact reals, subtracting what was added gives the colour back. */
  lemma AddSubCancel(a: Color, b: Color)
    ensures Sub(Add(a, b), b) == a
  {
  }

  lemma AddBlack(c: Color)
    ensures Add(c, Black) == c && Add(Black, c) == c
  {
  }
}
