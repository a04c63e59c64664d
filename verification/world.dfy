/** The world: a light and a list of objects, the intersections of a ray
    with all of them, the shadow test, and the colour seen along a ray,
    including reflections to a bounded depth. */
module Worlds {
  import opened Wrappers
  import opened Tuples
  import opened Matrices
  import opened Transformations
  import opened Rays
  import opened Lights
  import opened Materials
  import opened Shapes
  import opened Intersections
  import Colors

  /** The light is a nullable handle in the source: `world()` has none. */
  datatype World = World(light: Option<PointLight>, objects: seq<Shape>)

  /** The reflection budget `color_at`, `shade_hit` and `reflected_color`
      use when the caller gives none. */
  const DefaultRemaining: int := 5

  /** `world()`: no light and no objects. */
  function EmptyWorld(): (w: World)
    ensures w.light.None? && |w.objects| == 0
  {
    World(None, [])
  }

  /** `default_world()`: a white light at (-10, 10, -10), a green-tinted
      unit sphere, and a sphere scaled by 0.5 inside it. */
  function DefaultWorld(): (w: World)
    ensures w.light == Some(PointLight(Point(-10.0, 10.0, -10.0), Colors.Color(1.0, 1.0, 1.0)))
    ensures |w.objects| == 2
    ensures w.objects[0].kind == Sphere && w.objects[0].transform == IdentityMatrix()
    ensures w.objects[0].material ==
              DefaultMaterial().(color := Colors.Color(0.8, 1.0, 0.6), diffuse := 0.7, specular := 0.2)
    ensures w.objects[1].kind == Sphere && w.objects[1].transform == Scaling(0.5, 0.5, 0.5)
    ensures w.objects[1].material == DefaultMaterial()
  {
    var s1 := NewShape(Sphere);
    var s1 := s1.(material := s1.material.(color := Colors.Color(0.8, 1.0, 0.6), diffuse := 0.7, specular := 0.2));
    var s2 := NewShape(Sphere).(transform := Scaling(0.5, 0.5, 0.5));
    World(Some(PointLight(Point(-10.0, 10.0, -10.0), Colors.Color(1.0, 1.0, 1.0))), [s1, s2])
  }

  /** All objects have an invertible transform. */
  predicate AllInvertible(objects: seq<Shape>) {
    forall i :: 0 <= i < |objects| ==> Invertible(objects[i].transform)
  }

  /** The loop of `intersect_world` before sorting: each object's
      intersections appended in object order; the first singular transform
      aborts it. */
  function IntersectAll(ir: Irrationals, objects: seq<Shape>, ray: Ray): (r: Result<seq<Intersection>>)
    ensures r.Failure? <==> !AllInvertible(objects)
    ensures r.Success? ==> forall i :: 0 <= i < |r.value| ==> r.value[i].shape in objects
  {
    if |objects| == 0 then Success([])
    else
      var first :- Intersect(ir, objects[0], ray);
      var rest :- IntersectAll(ir, objects[1..], ray);
      AppendedShapesAreObjects(first, rest, objects);
      Success(first + rest)
  }

  lemma AppendedShapesAreObjects(first: seq<Intersection>, rest: seq<Intersection>, objects: seq<Shape>)
    requires |objects| > 0
    requires forall i :: 0 <= i < |first| ==> first[i].shape == objects[0]
    requires forall i :: 0 <= i < |rest| ==> rest[i].shape in objects[1..]
    ensures forall i :: 0 <= i < |first + rest| ==> (first + rest)[i].shape in objects
  {
    forall i | 0 <= i < |first + rest|
      ensures (first + rest)[i].shape in objects
    {
      if i >= |first| {
        var k :| 0 <= k < |objects[1..]| && objects[1..][k] == rest[i - |first|].shape;
        assert objects[k + 1] == objects[1..][k];
      }
    }
  }

  /** The number of intersections each object contributes, summed. */
  function CountAll(ir: Irrationals, objects: seq<Shape>, ray: Ray): nat
    requires AllInvertible(objects)
  {
    if |objects| == 0 then 0
    else |Intersect(ir, objects[0], ray).value| + CountAll(ir, objects[1..], ray)
  }

  /** The concatenation holds as many intersections as the objects
      contribute together. */
  lemma {:induction false} IntersectAllLength(ir: Irrationals, objects: seq<Shape>, ray: Ray)
    requires AllInvertible(objects)
    ensures |IntersectAll(ir, objects, ray).value| == CountAll(ir, objects, ray)
  {
    if |objects| > 0 {
      IntersectAllLength(ir, objects[1..], ray);
    }
  }

  /** `intersect_world`: the concatenation, sorted by t. */
  function IntersectWorld(ir: Irrationals, w: World, ray: Ray): (r: Result<seq<Intersection>>)
    ensures r.Failure? <==> !AllInvertible(w.objects)
    ensures r.Success? ==> Sorted(r.value) &&
                           multiset(r.value) == multiset(IntersectAll(ir, w.objects, ray).value) &&
                           forall i :: 0 <= i < |r.value| ==> r.value[i].shape in w.objects
    ensures |w.objects| == 0 ==> r == Success([])
  {
    var all :- IntersectAll(ir, w.objects, ray);
    SortKeepsMembers(all);
    Success(Sort(all))
  }

  /** `intersect_world` returns as many intersections as the objects give. */
  lemma {:induction false} IntersectWorldLength(ir: Irrationals, w: World, ray: Ray)
    requires AllInvertible(w.objects)
    ensures |IntersectWorld(ir, w, ray).value| == CountAll(ir, w.objects, ray)
  {
    IntersectAllLength(ir, w.objects, ray);
    assert |IntersectWorld(ir, w, ray).value| == |multiset(IntersectAll(ir, w.objects, ray).value)|;
  }

  /** `is_shadowed`: something lies on the segment from the point to the
      light, i.e. the first positive intersection comes before the light. */
  function IsShadowed(ir: Irrationals, w: World, point: Tuple): (r: Result<bool>)
    requires w.light.Some?
    ensures r.Failure? <==> !AllInvertible(w.objects)
  {
    var v := Sub(w.light.value.position, point);
    var distance := Magnitude(ir, v);
    var direction := ir.normalize(v);
    var xs :- IntersectWorld(ir, w, Ray(point, direction));
    var h := Hit(xs);
    Success(h.Some? && h.value.t < distance)
  }

  /** A point is in shadow exactly when the ray towards the light meets an
      object at some 0 < t < distance to the light. */
  lemma {:induction false} ShadowedIffBlocked(ir: Irrationals, w: World, point: Tuple)
    requires w.light.Some? && AllInvertible(w.objects)
    ensures var v := Sub(w.light.value.position, point);
            var xs := IntersectWorld(ir, w, Ray(point, ir.normalize(v))).value;
            IsShadowed(ir, w, point).value <==>
              exists i :: 0 <= i < |xs| && 0.0 < xs[i].t < Magnitude(ir, v)
  {
    var v := Sub(w.light.value.position, point);
    var xs := IntersectWorld(ir, w, Ray(point, ir.normalize(v))).value;
    if Hit(xs).Some? {
      HitIsSmallestPositive(xs);
    }
  }

  /** `color_at`: black when nothing is hit in front of the ray, otherwise
      the shading of the first hit. */
  function ColorAt(ir: Irrationals, w: World, ray: Ray, remaining: int): (r: Result<Colors.Color>)
    requires w.light.Some? || |w.objects| == 0
    ensures !AllInvertible(w.objects) ==> r.Failure?
    decreases remaining, 2
  {
    var xs :- IntersectWorld(ir, w, ray);
    var x := Hit(xs);
    if x.None? then Success(Colors.Black)
    else
      var comps :- PrepareComputations(ir, x.value, ray);
      ShadeHit(ir, w, comps, remaining)
  }

  /** `shade_hit`: the lit surface colour, with the shadow test made from
      the over point, plus the reflected colour. */
  function ShadeHit(ir: Irrationals, w: World, comps: Computations, remaining: int): (r: Result<Colors.Color>)
    requires w.light.Some?
    ensures !AllInvertible(w.objects) ==> r.Failure?
    decreases remaining, 1
  {
    var shadowed :- IsShadowed(ir, w, comps.overPoint);
    var surface :- Lighting(ir, comps.shape.material, comps.shape.transform, w.light.value,
                            comps.point, comps.eyev, comps.normalv, shadowed);
    var reflected :- ReflectedColor(ir, w, comps, remaining);
    Success(Colors.Add(surface, reflected))
  }

  /** `reflected_color`: black without casting a ray when the budget is
      spent or the surface is not reflective; otherwise the colour seen
      along the reflected ray, with one less unit of budget, scaled by the
      reflectivity. */
  function ReflectedColor(ir: Irrationals, w: World, comps: Computations, remaining: int): (r: Result<Colors.Color>)
    requires w.light.Some?
    ensures remaining <= 0 || comps.shape.material.reflective == 0.0 ==> r == Success(Colors.Black)
    decreases remaining, 0
  {
    if remaining <= 0 then Success(Colors.Black)
    else if comps.shape.material.reflective == 0.0 then Success(Colors.Black)
    else
      var c :- ColorAt(ir, w, Ray(comps.overPoint, comps.reflectv), remaining - 1);
      Success(Colors.Scale(c, comps.shape.material.reflective))
  }

  /** With budget left on a reflective surface, the reflected colour is the
      colour seen along the reflected ray with the budget reduced by one. */
  lemma {:induction false} ReflectedColorRecurses(ir: Irrationals, w: World, comps: Computations, remaining: int)
    requires w.light.Some? && remaining > 0 && comps.shape.material.reflective != 0.0
    ensures var c := ColorAt(ir, w, Ray(comps.overPoint, comps.reflectv), remaining - 1);
            ReflectedColor(ir, w, comps, remaining) ==
              if c.Failure? then Failure(c.error)
              else Success(Colors.Scale(c.value, comps.shape.material.reflective))
  {
  }

  /** An empty world is black along every ray. */
  lemma EmptyWorldIsBlack(ir: Irrationals, ray: Ray, remaining: int)
    ensures ColorAt(ir, EmptyWorld(), ray, remaining) == Success(Colors.Black)
  {
  }

  /** When nothing is hit in front of the ray, the colour is black. */
  lemma {:induction false} NoHitIsBlack(ir: Irrationals, w: World, ray: Ray, remaining: int)
    requires w.light.Some? || |w.objects| == 0
    requires AllInvertible(w.objects)
    requires Hit(IntersectWorld(ir, w, ray).value).None?
    ensures ColorAt(ir, w, ray, remaining) == Success(Colors.Black)
  {
  }

  /** On a surface that is not reflective the budget does not matter:
      shading is the same for any two budgets. */
  lemma {:induction false} MatteShadingIgnoresBudget(ir: Irrationals, w: World, comps: Computations, m: int, n: int)
    requires w.light.Some? && comps.shape.material.reflective == 0.0
    ensures ShadeHit(ir, w, comps, m) == ShadeHit(ir, w, comps, n)
  {
  }

  /** With no budget left, shading is the lit surface colour alone: no
      reflected ray is cast. */
  lemma {:induction false} SpentBudgetShadesSurfaceOnly(ir: Irrationals, w: World, comps: Computations, remaining: int)
    requires w.light.Some? && remaining <= 0
    ensures ShadeHit(ir, w, comps, remaining) == ShadeHit(ir, w, comps, 0)
    ensures var s := IsShadowed(ir, w, comps.overPoint);
            s.Success? ==>
              var surface := Lighting(ir, comps.shape.material, comps.shape.transform, w.light.value,
                                      comps.point, comps.eyev, comps.normalv, s.value);
              surface.Success? ==> ShadeHit(ir, w, comps, remaining) == Success(Colors.Add(surface.value, Colors.Black))
  {
  }

  /** With a light, invertible objects and a hit in front of the ray, the
      hit's computations exist and `color_at` is `shade_hit` of them. */
  lemma {:induction false} ColorAtShadesHit(ir: Irrationals, w: World, ray: Ray, remaining: int)
    requires w.light.Some? && AllInvertible(w.objects)
    requires Hit(IntersectWorld(ir, w, ray).value).Some?
    ensures var h := Hit(IntersectWorld(ir, w, ray).value).value;
            PrepareComputations(ir, h, ray).Success? &&
            ColorAt(ir, w, ray, remaining) == ShadeHit(ir, w, PrepareComputations(ir, h, ray).value, remaining)
  {
    var xs := IntersectWorld(ir, w, ray).value;
    var h := Hit(xs).value;
    var k :| 0 <= k < |xs| && xs[k] == h && h.t > 0.0 && forall j :: 0 <= j < k ==> xs[j].t <= 0.0;
    assert h.shape in w.objects;
    var i :| 0 <= i < |w.objects| && w.objects[i] == h.shape;
  }

  /** `shade_hit` adds the reflected colour to the surface lit at the hit
      point, where the shadow test is made from the over point. */
  lemma {:induction false} ShadeHitSumsSurfaceAndReflection(ir: Irrationals, w: World, comps: Computations, remaining: int)
    requires w.light.Some? && AllInvertible(w.objects)
    ensures IsShadowed(ir, w, comps.overPoint).Success?
    ensures var surface := Lighting(ir, comps.shape.material, comps.shape.transform, w.light.value,
                                    comps.point, comps.eyev, comps.normalv,
                                    IsShadowed(ir, w, comps.overPoint).value);
            var reflected := ReflectedColor(ir, w, comps, remaining);
            surface.Success? && reflected.Success? ==>
              ShadeHit(ir, w, comps, remaining) == Success(Colors.Add(surface.value, reflected.value))
  {
  }

  /** Every object's transform, and the transform of every pattern on an
      object, is invertible. */
  predicate AllPatternsInvertible(objects: seq<Shape>) {
    forall i :: 0 <= i < |objects| && objects[i].material.pattern.Some? ==>
      Invertible(objects[i].material.pattern.value.transform)
  }

  /** In a lit world whose objects and patterns all have invertible
      transforms, `color_at` produces a colour along every ray, at every
      reflection budget. The loop climbs the budget one level at a time. */
  lemma ColorAtSucceeds(ir: Irrationals, w: World, ray: Ray, remaining: int)
    requires w.light.Some? && AllInvertible(w.objects) && AllPatternsInvertible(w.objects)
    ensures ColorAt(ir, w, ray, remaining).Success?
  {
    var n := if remaining < 0 then remaining else 0;
    ColorsExistWithoutBudget(ir, w, n);
    while n < remaining
      invariant n <= remaining
      invariant ColorsExist(ir, w, n)
    {
      ColorsExistOneLevelUp(ir, w, n);
      n := n + 1;
    }
  }

  lemma ColorsExistWithoutBudget(ir: Irrationals, w: World, n: int)
    requires w.light.Some? && AllInvertible(w.objects) && AllPatternsInvertible(w.objects)
    requires n <= 0
    ensures ColorsExist(ir, w, n)
  {
    forall r: Ray
      ensures ColorAt(ir, w, r, n).Success?
    {
      ColorAtFromReflections(ir, w, r, n);
    }
  }

  lemma ColorsExistOneLevelUp(ir: Irrationals, w: World, n: int)
    requires w.light.Some? && AllInvertible(w.objects) && AllPatternsInvertible(w.objects)
    requires ColorsExist(ir, w, n)
    ensures ColorsExist(ir, w, n + 1)
  {
    var next := n + 1;
    assert ColorsExist(ir, w, next - 1);
    forall r: Ray
      ensures ColorAt(ir, w, r, next).Success?
    {
      ColorAtFromReflections(ir, w, r, next);
    }
  }

  /** `color_at` produces a colour along every ray at budget n. */
  ghost predicate ColorsExist(ir: Irrationals, w: World, n: int)
    requires w.light.Some?
  {
    forall r: Ray :: ColorAt(ir, w, r, n).Success?
  }

  /** One level of `color_at`: it produces a colour when every colour one
      reflection further does. */
  lemma {:induction false} ColorAtFromReflections(ir: Irrationals, w: World, ray: Ray, remaining: int)
    requires w.light.Some? && AllInvertible(w.objects) && AllPatternsInvertible(w.objects)
    requires remaining > 0 ==> ColorsExist(ir, w, remaining - 1)
    ensures ColorAt(ir, w, ray, remaining).Success?
  {
    var xs := IntersectWorld(ir, w, ray).value;
    if Hit(xs).Some? {
      ColorAtShadesHit(ir, w, ray, remaining);
      var h := Hit(xs).value;
      var k :| 0 <= k < |xs| && xs[k] == h && h.t > 0.0 && forall j :: 0 <= j < k ==> xs[j].t <= 0.0;
      assert h.shape in w.objects;
      var comps := PrepareComputations(ir, h, ray).value;
      if remaining > 0 && comps.shape.material.reflective != 0.0 {
        ReflectionOfAColor(ir, w, comps, remaining);
      }
      ShadeHitSucceeds(ir, w, comps, remaining);
    }
  }

  /** Shading a hit on one of the world's objects produces a colour once
      the reflected colour does. */
  lemma {:induction false} ShadeHitSucceeds(ir: Irrationals, w: World, comps: Computations, remaining: int)
    requires w.light.Some? && AllInvertible(w.objects) && AllPatternsInvertible(w.objects)
    requires comps.shape in w.objects
    requires ReflectedColor(ir, w, comps, remaining).Success?
    ensures ShadeHit(ir, w, comps, remaining).Success?
  {
    var i :| 0 <= i < |w.objects| && w.objects[i] == comps.shape;
    var m := comps.shape.material;
    assert Invertible(comps.shape.transform);
    assert m.pattern.Some? ==> Invertible(m.pattern.value.transform);
    ShadeHitSumsSurfaceAndReflection(ir, w, comps, remaining);
    var shadowed := IsShadowed(ir, w, comps.overPoint).value;
    assert Lighting(ir, m, comps.shape.transform, w.light.value, comps.point, comps.eyev, comps.normalv, shadowed).Success?;
  }

  /** The reflected colour exists once the colour along the reflected ray
      does. */
  lemma ReflectionOfAColor(ir: Irrationals, w: World, comps: Computations, remaining: int)
    requires w.light.Some? && remaining > 0 && comps.shape.material.reflective != 0.0
    requires ColorAt(ir, w, Ray(comps.overPoint, comps.reflectv), remaining - 1).Success?
    ensures ReflectedColor(ir, w, comps, remaining).Success?
  {
  }
}
