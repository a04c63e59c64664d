/** Materials and the Phong reflection model: an ambient, a diffuse and a
    specular contribution, switched off branch by branch by the geometry of
    the light, the normal and the eye. */
module Materials {
  import opened Wrappers
  import opened Primitives
  import opened Tuples
  import opened Matrices
  import opened Lights
  import opened Patterns
  import Colors

  datatype Material = Material(
    color: Colors.Color,
    ambient: real,
    diffuse: real,
    specular: real,
    shininess: real,
    pattern: Option<Pattern>,
    reflective: real,
    transparency: real,
    refractiveIndex: real)

  /** `material()`: white, with the default Phong coefficients, no pattern,
      not reflective, opaque, and the refractive index of a vacuum. */
  function DefaultMaterial(): (m: Material)
    ensures m.color == Colors.White && m.pattern == None
    ensures m.ambient == 0.1 && m.diffuse == 0.9 && m.specular == 0.9 && m.shininess == 200.0
    ensures m.reflective == 0.0 && m.transparency == 0.0 && m.refractiveIndex == 1.0
  {
    Material(Colors.Color(1.0, 1.0, 1.0), 0.1, 0.9, 0.9, 200.0, None, 0.0, 0.0, 1.0)
  }

  /** Material `operator==`: colour and every coefficient except
      `reflective` compared with `equal`; the pattern is not compared. */
  predicate MaterialEq(a: Material, b: Material)
    ensures a.(reflective := b.reflective, pattern := b.pattern) == b ==> MaterialEq(a, b)
    ensures MaterialEq(a, b) ==> Abs(a.color.red - b.color.red) < EPSILON
  {
    Colors.ColorEq(a.color, b.color) &&
    ApproxEq(a.ambient, b.ambient) && ApproxEq(a.diffuse, b.diffuse) &&
    ApproxEq(a.specular, b.specular) && ApproxEq(a.shininess, b.shininess) &&
    ApproxEq(a.transparency, b.transparency) && ApproxEq(a.refractiveIndex, b.refractiveIndex)
  }

  lemma MaterialEqReflexive(a: Material)
    ensures MaterialEq(a, a)
  {
  }

  /** Two materials that differ only in reflectivity and pattern compare equal. */
  lemma MaterialEqIgnoresReflectiveAndPattern(a: Material, reflective: real, pattern: Option<Pattern>)
    ensures MaterialEq(a, a.(reflective := reflective, pattern := pattern))
  {
  }

  /** Changing the colour by EPSILON or more makes materials differ. */
  lemma MaterialEqSeesColor(a: Material, red: real)
    requires Abs(red - a.color.red) >= EPSILON
    ensures !MaterialEq(a, a.(color := a.color.(red := red)))
  {
  }

  /** The colour of the surface at a world point before lighting: the
      pattern's colour when there is a pattern, the material colour otherwise. */
  function SurfaceColor(ir: Irrationals, m: Material, objectTransform: Matrix4, point: Tuple): (r: Result<Colors.Color>)
    ensures r.Failure? <==>
              m.pattern.Some? && (!Invertible(objectTransform) || !Invertible(m.pattern.value.transform))
    ensures m.pattern.None? ==> r == Success(m.color)
    ensures m.pattern.Some? && m.pattern.value.kind != Gradient && r.Success? ==>
              r.value == m.pattern.value.a || r.value == m.pattern.value.b
  {
    if m.pattern.Some? then PatternAtShape(ir, m.pattern.value, objectTransform, point)
    else Success(m.color)
  }

  /** The three Phong contributions. */
  datatype Phong = Phong(ambient: Colors.Color, diffuse: Colors.Color, specular: Colors.Color)

  /** The body of `lighting` once the effective colour (surface colour times
      light intensity) is known. */
  function PhongTerms(ir: Irrationals, m: Material, light: PointLight, effective: Colors.Color,
                      point: Tuple, eyev: Tuple, normalv: Tuple): (r: Phong)
    ensures r.ambient == Colors.Scale(effective, m.ambient)
    ensures var lightv := ir.normalize(Sub(light.position, point));
            if Dot(lightv, normalv) < 0.0 then
              r.diffuse == Colors.Black && r.specular == Colors.Black
            else
              r.diffuse == Colors.Scale(Colors.Scale(effective, m.diffuse), Dot(lightv, normalv)) &&
              (Dot(Reflect(Neg(lightv), normalv), eyev) <= 0.0 ==> r.specular == Colors.Black)
  {
    var lightv := ir.normalize(Sub(light.position, point));
    var ambient := Colors.Scale(effective, m.ambient);
    var lightDotNormal := Dot(lightv, normalv);
    if lightDotNormal < 0.0 then
      Phong(ambient, Colors.Color(0.0, 0.0, 0.0), Colors.Color(0.0, 0.0, 0.0))
    else
      var diffuse := Colors.Scale(Colors.Scale(effective, m.diffuse), lightDotNormal);
      var reflectv := Reflect(Neg(lightv), normalv);
      var reflectDotEye := Dot(reflectv, eyev);
      if reflectDotEye <= 0.0 then
        Phong(ambient, diffuse, Colors.Color(0.0, 0.0, 0.0))
      else
        var factor := ir.pow(reflectDotEye, m.shininess);
        Phong(ambient, diffuse, Colors.Scale(Colors.Scale(light.intensity, m.specular), factor))
  }

  /** `lighting`: the sum of the three contributions, or the ambient one
      alone in shadow. Evaluating a pattern can fail on a singular transform. */
  function Lighting(ir: Irrationals, m: Material, objectTransform: Matrix4, light: PointLight,
                    point: Tuple, eyev: Tuple, normalv: Tuple, inShadow: bool): (r: Result<Colors.Color>)
    ensures r.Failure? <==> SurfaceColor(ir, m, objectTransform, point).Failure?
    ensures r.Failure? ==> r.error == NotInvertible
  {
    var surface :- SurfaceColor(ir, m, objectTransform, point);
    var effective := Colors.Hadamard(surface, light.intensity);
    var terms := PhongTerms(ir, m, light, effective, point, eyev, normalv);
    if inShadow then Success(terms.ambient)
    else Success(Colors.Add(Colors.Add(terms.ambient, terms.diffuse), terms.specular))
  }

  /** In shadow only the ambient term is left: the effective colour scaled
      by the ambient coefficient. */
  lemma {:induction false} LightingInShadow(ir: Irrationals, m: Material, objectTransform: Matrix4, light: PointLight,
                                            point: Tuple, eyev: Tuple, normalv: Tuple)
    requires SurfaceColor(ir, m, objectTransform, point).Success?
    ensures Lighting(ir, m, objectTransform, light, point, eyev, normalv, true) ==
              Success(Colors.Scale(Colors.Hadamard(SurfaceColor(ir, m, objectTransform, point).value, light.intensity), m.ambient))
  {
  }

  /** With the light behind the surface, shadow or not makes no difference:
      diffuse and specular are black. */
  lemma {:induction false} LightBehindSurface(ir: Irrationals, m: Material, objectTransform: Matrix4, light: PointLight,
                                              point: Tuple, eyev: Tuple, normalv: Tuple)
    requires Dot(ir.normalize(Sub(light.position, point)), normalv) < 0.0
    ensures Lighting(ir, m, objectTransform, light, point, eyev, normalv, false) ==
              Lighting(ir, m, objectTransform, light, point, eyev, normalv, true)
  {
    var r := Lighting(ir, m, objectTransform, light, point, eyev, normalv, false);
    if r.Success? {
      var surface := SurfaceColor(ir, m, objectTransform, point).value;
      var effective := Colors.Hadamard(surface, light.intensity);
      var terms := PhongTerms(ir, m, light, effective, point, eyev, normalv);
      Colors.AddBlack(terms.ambient);
      Colors.AddBlack(Colors.Add(terms.ambient, terms.diffuse));
    }
  }

  /** With the reflection pointing away from the eye, only ambient and
      diffuse are summed. */
  lemma {:induction false} ReflectionAwayFromEye(ir: Irrationals, m: Material, objectTransform: Matrix4, light: PointLight,
                                                 point: Tuple, eyev: Tuple, normalv: Tuple)
    requires SurfaceColor(ir, m, objectTransform, point).Success?
    requires var lightv := ir.normalize(Sub(light.position, point));
             Dot(Reflect(Neg(lightv), normalv), eyev) <= 0.0
    ensures var effective := Colors.Hadamard(SurfaceColor(ir, m, objectTransform, point).value, light.intensity);
            var terms := PhongTerms(ir, m, light, effective, point, eyev, normalv);
            Lighting(ir, m, objectTransform, light, point, eyev, normalv, false) ==
              Success(Colors.Add(terms.ambient, terms.diffuse))
  {
    var effective := Colors.Hadamard(SurfaceColor(ir, m, objectTransform, point).value, light.intensity);
    var terms := PhongTerms(ir, m, light, effective, point, eyev, normalv);
    Colors.AddBlack(Colors.Add(terms.ambient, terms.diffuse));
    Colors.AddBlack(terms.ambient);
  }

  /** A pattern replaces the material colour: with a pattern present, the
      material's own colour does not matter. */
  lemma {:induction false} PatternReplacesColor(ir: Irrationals, m: Material, c: Colors.Color, objectTransform: Matrix4,
                                                light: PointLight, point: Tuple, eyev: Tuple, normalv: Tuple, inShadow: bool)
    requires m.pattern.Some?
    ensures Lighting(ir, m, objectTransform, light, point, eyev, normalv, inShadow) ==
              Lighting(ir, m.(color := c), objectTransform, light, point, eyev, normalv, inShadow)
  {
  }
}
