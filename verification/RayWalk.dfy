/** The voxel walk of `GameScene::dda` over exact reals and infinity; a cell is named by its lowest corner. */
module RayWalk {
  import opened Bits
  import opened Options
  import opened World

  // Time is the distance along the ray.

  datatype Vec = Vec(x: real, y: real, z: real)

  function Abs(r: real): (a: real)
    ensures a >= 0.0
  {
    if r < 0.0 then -r else r
  }

  function Sign(d: real): int {
    if d > 0.0 then 1 else if d < 0.0 then -1 else 0
  }

  // ----- one axis

  /** `deltaDist`: the time between two cell borders. */
  function Delta(len: real, d: real): (r: real)
    requires len > 0.0 && d != 0.0
    ensures r > 0.0
  {
    Abs(len / d)
  }

  /** `sideDist`: the time at which the ray leaves the cells with coordinate `c`. */
  function Exit(len: real, p: real, d: real, c: int): real
    requires len > 0.0 && d != 0.0
  {
    var s := Sign(d) as real;
    (s * (c as real - p) + s * 0.5 + 0.5) * Delta(len, d)
  }

  /** The time at which it enters them. */
  function Enter(len: real, p: real, d: real, c: int): real
    requires len > 0.0 && d != 0.0
  {
    Exit(len, p, d, c) - Delta(len, d)
  }

  /** Where the ray is at time `t`. */
  function At(len: real, p: real, d: real, t: real): real
    requires len > 0.0
  {
    p + t * (d / len)
  }

  lemma Cancel(len: real, d: real, x: real)
    requires len > 0.0 && d != 0.0
    ensures (x * (len / d)) * (d / len) == x
  {
    assert (len / d) * (d / len) == 1.0;
    assert (x * (len / d)) * (d / len) == x * ((len / d) * (d / len));
  }

  lemma TimesPositive(a: real, b: real, k: real)
    requires a <= b && k >= 0.0
    ensures a * k <= b * k
  {
  }

  lemma Quotient(len: real, d: real)
    requires len > 0.0 && d > 0.0
    ensures d / len > 0.0 && len / d > 0.0
  {
  }

  lemma NegQuotient(len: real, d: real)
    requires len > 0.0 && d != 0.0
    ensures len / -d == -(len / d) && -d / len == -(d / len)
  {
  }

  /** In the direction of growing coordinates. */
  lemma WithinUp(len: real, p: real, d: real, c: int, t: real)
    requires len > 0.0 && d > 0.0 && Enter(len, p, d, c) <= t <= Exit(len, p, d, c)
    ensures c as real <= At(len, p, d, t) <= c as real + 1.0
  {
    var x := c as real - p;
    Quotient(len, d);
    Cancel(len, d, x);
    Cancel(len, d, x + 1.0);
    ExitUp(len, p, d, c);
    TimesPositive(x * (len / d), t, d / len);
    TimesPositive(t, (x + 1.0) * (len / d), d / len);
  }

  lemma ExitUp(len: real, p: real, d: real, c: int)
    requires len > 0.0 && d > 0.0
    ensures Exit(len, p, d, c) == (c as real - p + 1.0) * (len / d)
    ensures Enter(len, p, d, c) == (c as real - p) * (len / d)
  {
    Quotient(len, d);
    var k, x := len / d, c as real - p;
    assert (x + 1.0) * k == x * k + k;
  }

  lemma ExitDown(len: real, p: real, d: real, c: int)
    requires len > 0.0 && d < 0.0
    ensures Exit(len, p, d, c) == (p - c as real) * (len / -d)
    ensures Enter(len, p, d, c) == (p - c as real - 1.0) * (len / -d)
  {
    Quotient(len, -d);
    NegQuotient(len, d);
    var k, x := len / -d, p - c as real;
    assert (x - 1.0) * k == x * k - k;
  }

  /** In the direction of falling coordinates. */
  lemma WithinDown(len: real, p: real, d: real, c: int, t: real)
    requires len > 0.0 && d < 0.0 && Enter(len, p, d, c) <= t <= Exit(len, p, d, c)
    ensures c as real <= At(len, p, d, t) <= c as real + 1.0
  {
    var x := p - c as real;
    Quotient(len, -d);
    Cancel(len, -d, x);
    Cancel(len, -d, x - 1.0);
    ExitDown(len, p, d, c);
    NegQuotient(len, d);
    TimesPositive((x - 1.0) * (len / -d), t, -d / len);
    TimesPositive(t, x * (len / -d), -d / len);
    assert t * (-d / len) == -(t * (d / len));
  }

  /** Between entering and leaving, the ray is within the cell's side. */
  lemma Within(len: real, p: real, d: real, c: int, t: real)
    requires len > 0.0 && d != 0.0 && Enter(len, p, d, c) <= t <= Exit(len, p, d, c)
    ensures c as real <= At(len, p, d, t) <= c as real + 1.0
  {
    if d > 0.0 {
      WithinUp(len, p, d, c, t);
    } else {
      WithinDown(len, p, d, c, t);
    }
  }

  /** The next cell is entered when this one is left. */
  lemma ExitNext(len: real, p: real, d: real, c: int)
    requires len > 0.0 && d != 0.0
    ensures Exit(len, p, d, c + Sign(d)) == Exit(len, p, d, c) + Delta(len, d)
    ensures Enter(len, p, d, c + Sign(d)) == Exit(len, p, d, c)
  {
    var x := if d > 0.0 then c as real - p + 1.0 else p - c as real;
    assert (x + 1.0) * Delta(len, d) == x * Delta(len, d) + Delta(len, d);
  }

  /** The walk starts inside the first cell. */
  lemma FirstCell(len: real, p: real, d: real)
    requires len > 0.0 && d != 0.0
    ensures Enter(len, p, d, p.Floor) <= 0.0 <= Exit(len, p, d, p.Floor)
  {
    var c := p.Floor;
    assert c as real <= p < c as real + 1.0;
    if d > 0.0 {
      Quotient(len, d);
      ExitUp(len, p, d, c);
      SignOfProduct(c as real - p, len / d);
      SignOfProduct(c as real - p + 1.0, len / d);
    } else {
      Quotient(len, -d);
      ExitDown(len, p, d, c);
      SignOfProduct(p - c as real - 1.0, len / -d);
      SignOfProduct(p - c as real, len / -d);
    }
  }

  lemma SignOfProduct(a: real, k: real)
    requires k > 0.0
    ensures a <= 0.0 ==> a * k <= 0.0
    ensures a >= 0.0 ==> a * k >= 0.0
  {
  }

  // ----- distances as the program has them

  /** A `float` without rounding: dividing by a zero component gives infinity, and zero times
      infinity is not a number. */
  datatype Dist = Finite(t: real) | Infinite | NotANumber

  predicate LessDist(a: Dist, b: Dist) {
    a.Finite? && (b.Infinite? || (b.Finite? && a.t < b.t))
  }

  function Plus(a: Dist, b: Dist): Dist {
    if a.NotANumber? || b.NotANumber? then NotANumber
    else if a.Infinite? || b.Infinite? then Infinite
    else Finite(a.t + b.t)
  }

  function Scaled(k: real, d: Dist): Dist
    requires d.Infinite? ==> k >= 0.0
  {
    match d
    case Finite(t) => Finite(k * t)
    case Infinite => if k > 0.0 then Infinite else NotANumber
    case NotANumber => NotANumber
  }

  /** GLSL's `step`. */
  function StepFunction(edge: Dist, x: Dist): int {
    if LessDist(x, edge) then 0 else 1
  }

  /** `deltaDist` of one axis. */
  function DeltaDist(len: real, d: real): Dist
    requires len > 0.0
  {
    if d == 0.0 then Infinite else Finite(Delta(len, d))
  }

  /** `sideDist` of one axis at the start, in the cells with coordinate `c`. */
  function FirstSide(len: real, p: real, d: real, c: int): Dist
    requires len > 0.0
  {
    var s := Sign(d) as real;
    Scaled(s * (c as real - p) + s * 0.5 + 0.5, DeltaDist(len, d))
  }

  /** What `sideDist` has to be there: the time of leaving, and nothing finite if the ray does not
      move along the axis. */
  predicate IsSide(len: real, p: real, d: real, c: int, s: Dist)
    requires len > 0.0
  {
    if d == 0.0 then !s.Finite? else s == Finite(Exit(len, p, d, c))
  }

  /** At time `t` the ray is in the closed range of the cells with coordinate `c`. */
  predicate InAxis(len: real, p: real, d: real, c: int, t: real)
    requires len > 0.0
  {
    if d == 0.0 then c as real <= p <= c as real + 1.0 else Enter(len, p, d, c) <= t <= Exit(len, p, d, c)
  }

  lemma FirstInAxis(len: real, p: real, d: real)
    requires len > 0.0
    ensures IsSide(len, p, d, p.Floor, FirstSide(len, p, d, p.Floor)) && InAxis(len, p, d, p.Floor, 0.0)
  {
    if d != 0.0 {
      FirstCell(len, p, d);
    }
  }

  lemma InAxisAt(len: real, p: real, d: real, c: int, t: real)
    requires len > 0.0 && InAxis(len, p, d, c, t)
    ensures c as real <= At(len, p, d, t) <= c as real + 1.0
  {
    if d != 0.0 {
      Within(len, p, d, c, t);
    }
  }

  // ----- three axes

  datatype Dists = Dists(x: Dist, y: Dist, z: Dist)

  /** A ray from `p` in direction `d`, whose length is `len`. */
  datatype Ray = Ray(len: real, p: Vec, d: Vec)

  predicate GoodRay(r: Ray) {
    r.len > 0.0 && (r.d.x != 0.0 || r.d.y != 0.0 || r.d.z != 0.0)
  }

  function DeltaOf(r: Ray): Dists
    requires GoodRay(r)
  {
    Dists(DeltaDist(r.len, r.d.x), DeltaDist(r.len, r.d.y), DeltaDist(r.len, r.d.z))
  }

  function StepOf(r: Ray): IVec3 {
    IVec3(Sign(r.d.x), Sign(r.d.y), Sign(r.d.z))
  }

  function Position(r: Ray, t: real): Vec
    requires GoodRay(r)
  {
    Vec(At(r.len, r.p.x, r.d.x, t), At(r.len, r.p.y, r.d.y, t), At(r.len, r.p.z, r.d.z, t))
  }

  /** The ray leaves its start in the direction `d`, and at time `len` it has gone just that far. */
  lemma RayNumbers(r: Ray, t: real)
    requires GoodRay(r)
    ensures (Position(r, t).x - r.p.x) * r.len == t * r.d.x && (Position(r, t).y - r.p.y) * r.len == t * r.d.y
    ensures (Position(r, t).z - r.p.z) * r.len == t * r.d.z
  {
    Undivided(t, r.d.x, r.len);
    Undivided(t, r.d.y, r.len);
    Undivided(t, r.d.z, r.len);
  }

  lemma Undivided(t: real, d: real, len: real)
    requires len > 0.0
    ensures t * (d / len) * len == t * d
  {
    assert d / len * len == d;
    assert t * (d / len) * len == t * (d / len * len);
  }

  predicate AreSides(r: Ray, c: IVec3, s: Dists)
    requires GoodRay(r)
  {
    && IsSide(r.len, r.p.x, r.d.x, c.x, s.x) && IsSide(r.len, r.p.y, r.d.y, c.y, s.y)
    && IsSide(r.len, r.p.z, r.d.z, c.z, s.z)
  }

  /** The axes whose border is reached first: more than one at an edge or a corner. */
  function Mask(s: Dists): IVec3 {
    IVec3(StepFunction(s.x, s.y) * StepFunction(s.x, s.z), StepFunction(s.y, s.z) * StepFunction(s.y, s.x),
      StepFunction(s.z, s.x) * StepFunction(s.z, s.y))
  }

  function Times(a: IVec3, b: IVec3): IVec3 {
    IVec3(a.x * b.x, a.y * b.y, a.z * b.z)
  }

  function Minus(a: IVec3): IVec3 {
    IVec3(-a.x, -a.y, -a.z)
  }

  /** `sideDist += mask * deltaDist` */
  function Advance(s: Dists, mask: IVec3, delta: Dists): Dists
    requires mask.x >= 0 && mask.y >= 0 && mask.z >= 0
  {
    Dists(Plus(s.x, Scaled(mask.x as real, delta.x)), Plus(s.y, Scaled(mask.y as real, delta.y)),
      Plus(s.z, Scaled(mask.z as real, delta.z)))
  }

  /** When the ray leaves the range of coordinate `c`, if ever. */
  function Leaves(len: real, p: real, d: real, c: int): Dist
    requires len > 0.0
  {
    if d == 0.0 then Infinite else Finite(Exit(len, p, d, c))
  }

  function Earlier(a: Dist, b: Dist): Dist {
    if LessDist(b, a) then b else a
  }

  /** When it leaves the cell. */
  function LeaveTime(r: Ray, c: IVec3): real
    requires GoodRay(r)
  {
    Earlier(Leaves(r.len, r.p.x, r.d.x, c.x),
      Earlier(Leaves(r.len, r.p.y, r.d.y, c.y), Leaves(r.len, r.p.z, r.d.z, c.z))).t
  }

  /** One axis of the cell it enters then. */
  function NextCoord(len: real, p: real, d: real, c: int, m: real): int
    requires len > 0.0
  {
    if d != 0.0 && Exit(len, p, d, c) <= m then c + Sign(d) else c
  }

  function NextCell(r: Ray, c: IVec3): IVec3
    requires GoodRay(r)
  {
    var m := LeaveTime(r, c);
    IVec3(NextCoord(r.len, r.p.x, r.d.x, c.x, m), NextCoord(r.len, r.p.y, r.d.y, c.y, m),
      NextCoord(r.len, r.p.z, r.d.z, c.z, m))
  }

  /** At time `t` the ray is in the closed cube of cell `c`. */
  predicate InCell(r: Ray, c: IVec3, t: real)
    requires GoodRay(r)
  {
    && InAxis(r.len, r.p.x, r.d.x, c.x, t) && InAxis(r.len, r.p.y, r.d.y, c.y, t)
    && InAxis(r.len, r.p.z, r.d.z, c.z, t)
  }

  predicate InCube(v: Vec, c: IVec3) {
    && c.x as real <= v.x <= c.x as real + 1.0 && c.y as real <= v.y <= c.y as real + 1.0
    && c.z as real <= v.z <= c.z as real + 1.0
  }

  predicate InInterior(v: Vec, c: IVec3) {
    && c.x as real < v.x < c.x as real + 1.0 && c.y as real < v.y < c.y as real + 1.0
    && c.z as real < v.z < c.z as real + 1.0
  }

  lemma InCellInCube(r: Ray, c: IVec3, t: real)
    requires GoodRay(r) && InCell(r, c, t)
    ensures InCube(Position(r, t), c)
  {
    InAxisAt(r.len, r.p.x, r.d.x, c.x, t);
    InAxisAt(r.len, r.p.y, r.d.y, c.y, t);
    InAxisAt(r.len, r.p.z, r.d.z, c.z, t);
  }

  /** One axis of a step at time `m`: over the border if it is reached, else still in the cell. */
  lemma AxisStep(len: real, p: real, d: real, c: int, t: real, m: real)
    requires len > 0.0 && InAxis(len, p, d, c, t) && t <= m && (d != 0.0 ==> m <= Exit(len, p, d, c))
    ensures InAxis(len, p, d, c, m) && InAxis(len, p, d, NextCoord(len, p, d, c, m), m)
  {
    if d != 0.0 {
      ExitNext(len, p, d, c);
    }
  }

  /** Two cells that share a time share a point; a point inside a cube is in no other cube. */
  lemma InteriorAlone(v: Vec, a: IVec3, b: IVec3)
    requires InInterior(v, a) && InCube(v, b)
    ensures a == b
  {
    CoordAlone(v.x, a.x, b.x);
    CoordAlone(v.y, a.y, b.y);
    CoordAlone(v.z, a.z, b.z);
  }

  lemma CoordAlone(v: real, a: int, b: int)
    requires a as real < v < a as real + 1.0 && b as real <= v <= b as real + 1.0
    ensures a == b
  {
  }

  /** No axis is left before `LeaveTime`, and one is left then. */
  lemma LeavesFirst(r: Ray, c: IVec3)
    requires GoodRay(r)
    ensures var m := LeaveTime(r, c);
      && (r.d.x != 0.0 ==> m <= Exit(r.len, r.p.x, r.d.x, c.x))
      && (r.d.y != 0.0 ==> m <= Exit(r.len, r.p.y, r.d.y, c.y))
      && (r.d.z != 0.0 ==> m <= Exit(r.len, r.p.z, r.d.z, c.z))
      && ((r.d.x != 0.0 && Exit(r.len, r.p.x, r.d.x, c.x) == m) || (r.d.y != 0.0 && Exit(r.len, r.p.y, r.d.y, c.y) == m)
          || (r.d.z != 0.0 && Exit(r.len, r.p.z, r.d.z, c.z) == m))
  {
  }

  /** `Exit` is when the ray reaches the far side of the cell. */
  lemma ExitNumbers(len: real, p: real, d: real, c: int)
    requires len > 0.0 && d != 0.0
    ensures At(len, p, d, Exit(len, p, d, c)) == if d > 0.0 then c as real + 1.0 else c as real
  {
    if d > 0.0 {
      ExitUp(len, p, d, c);
      Cancel(len, d, c as real - p + 1.0);
    } else {
      ExitDown(len, p, d, c);
      NegQuotient(len, d);
      Cancel(len, d, c as real - p);
      assert (p - c as real) * -(len / d) == (c as real - p) * (len / d);
    }
  }

  /** A step is made along every axis on which the ray leaves the cell first, along several if it does so at
      the same time, and along no other. */
  lemma StepNumbers(r: Ray, c: IVec3)
    requires GoodRay(r)
    ensures
      var ex := if r.d.x == 0.0 then None else Some(Exit(r.len, r.p.x, r.d.x, c.x));
      var ey := if r.d.y == 0.0 then None else Some(Exit(r.len, r.p.y, r.d.y, c.y));
      var ez := if r.d.z == 0.0 then None else Some(Exit(r.len, r.p.z, r.d.z, c.z));
      && NextCell(r, c).x == (if First(ex, ey, ez) then if r.d.x > 0.0 then c.x + 1 else c.x - 1 else c.x)
      && NextCell(r, c).y == (if First(ey, ex, ez) then if r.d.y > 0.0 then c.y + 1 else c.y - 1 else c.y)
      && NextCell(r, c).z == (if First(ez, ex, ey) then if r.d.z > 0.0 then c.z + 1 else c.z - 1 else c.z)
  {
    LeavesFirst(r, c);
  }

  /** There is a first time, and neither of the other two is before it. */
  predicate First(a: Option<real>, b: Option<real>, c: Option<real>) {
    a.Some? && (b.Some? ==> a.value <= b.value) && (c.Some? ==> a.value <= c.value)
  }

  /** The walk goes on with the cell that the ray enters when it leaves this one. */
  lemma CellStep(r: Ray, c: IVec3, t: real)
    requires GoodRay(r) && InCell(r, c, t)
    ensures var m := LeaveTime(r, c);
      t <= m && InCell(r, c, m) && InCell(r, NextCell(r, c), m)
  {
    var m := LeaveTime(r, c);
    LeavesFirst(r, c);
    AxisStep(r.len, r.p.x, r.d.x, c.x, t, m);
    AxisStep(r.len, r.p.y, r.d.y, c.y, t, m);
    AxisStep(r.len, r.p.z, r.d.z, c.z, t, m);
  }

  // ----- what the program computes of a step

  /** One axis of the mask, with the sides `b` and `c` of the others: an axis along which the ray
      moves is in it exactly if its border is reached first. */
  lemma MaskAxis(a: Dist, b: Dist, c: Dist)
    ensures StepFunction(a, b) * StepFunction(a, c) == 0 || StepFunction(a, b) * StepFunction(a, c) == 1
    ensures a.Finite? ==>
      (StepFunction(a, b) * StepFunction(a, c) == 1 <==> (b.Finite? ==> a.t <= b.t) && (c.Finite? ==> a.t <= c.t))
  {
  }

  /** So mask and step give the next cell, whatever the mask holds for the other axes. */
  lemma MaskMoves(r: Ray, c: IVec3, s: Dists)
    requires GoodRay(r) && AreSides(r, c, s)
    ensures NextCell(r, c) == Add(c, Times(Mask(s), StepOf(r)))
    ensures 0 <= Mask(s).x <= 1 && 0 <= Mask(s).y <= 1 && 0 <= Mask(s).z <= 1
    ensures var m := LeaveTime(r, c);
      && (r.d.x != 0.0 ==> (Mask(s).x == 1 <==> Exit(r.len, r.p.x, r.d.x, c.x) <= m))
      && (r.d.y != 0.0 ==> (Mask(s).y == 1 <==> Exit(r.len, r.p.y, r.d.y, c.y) <= m))
      && (r.d.z != 0.0 ==> (Mask(s).z == 1 <==> Exit(r.len, r.p.z, r.d.z, c.z) <= m))
  {
    LeavesFirst(r, c);
    MaskAxis(s.x, s.y, s.z);
    MaskAxis(s.y, s.z, s.x);
    MaskAxis(s.z, s.x, s.y);
  }

  /** One axis of `sideDist += mask * deltaDist`. */
  lemma SideMoves(len: real, p: real, d: real, c: int, s: Dist, k: int, m: real)
    requires len > 0.0 && IsSide(len, p, d, c, s) && 0 <= k <= 1
    requires d != 0.0 ==> (k == 1 <==> Exit(len, p, d, c) <= m)
    ensures IsSide(len, p, d, NextCoord(len, p, d, c, m), Plus(s, Scaled(k as real, DeltaDist(len, d))))
  {
    if d != 0.0 {
      ExitNext(len, p, d, c);
    }
  }

  /** The sides stay right from cell to cell. */
  lemma SidesMove(r: Ray, c: IVec3, s: Dists)
    requires GoodRay(r) && AreSides(r, c, s)
    ensures Mask(s).x >= 0 && Mask(s).y >= 0 && Mask(s).z >= 0
    ensures AreSides(r, NextCell(r, c), Advance(s, Mask(s), DeltaOf(r)))
  {
    var m := LeaveTime(r, c);
    MaskMoves(r, c, s);
    SideMoves(r.len, r.p.x, r.d.x, c.x, s.x, Mask(s).x, m);
    SideMoves(r.len, r.p.y, r.d.y, c.y, s.y, Mask(s).y, m);
    SideMoves(r.len, r.p.z, r.d.z, c.z, s.z, Mask(s).z, m);
  }

  /** In a level view the ray does not move along the vertical axis.  A step then makes `sideDist`
      of that axis zero times infinity, which is not a number, and the next mask has the axis. */
  lemma StillAxis(r: Ray, c: IVec3, s: Dists)
    requires GoodRay(r) && AreSides(r, c, s) && r.d.y == 0.0
    ensures Mask(s).x >= 0 && Mask(s).y >= 0 && Mask(s).z >= 0
    ensures Advance(s, Mask(s), DeltaOf(r)).y == NotANumber
    ensures Mask(Advance(s, Mask(s), DeltaOf(r))).y == 1
  {
    SidesMove(r, c, s);
  }

  // ----- the walk

  /** `cells` are the first cells of the walk, entered at `times`. */
  ghost predicate Walk(r: Ray, cells: seq<IVec3>, times: seq<real>) {
    && GoodRay(r) && 0 < |cells| == |times| && times[0] == 0.0
    && (forall k :: 0 <= k < |cells| ==> InCell(r, cells[k], times[k]))
    && forall k :: 0 < k < |cells| ==> FollowedBy(r, cells[k - 1], times[k - 1], cells[k], times[k])
  }

  predicate FollowedBy(r: Ray, c: IVec3, t: real, c2: IVec3, t2: real)
    requires GoodRay(r)
  {
    c2 == NextCell(r, c) && t2 == LeaveTime(r, c) && t <= t2 && InCell(r, c, t2)
  }

  /** `sideDist` at the start. */
  function FirstSides(r: Ray): Dists
    requires GoodRay(r)
  {
    Dists(FirstSide(r.len, r.p.x, r.d.x, r.p.x.Floor), FirstSide(r.len, r.p.y, r.d.y, r.p.y.Floor),
      FirstSide(r.len, r.p.z, r.d.z, r.p.z.Floor))
  }

  lemma WalkStart(r: Ray)
    requires GoodRay(r)
    ensures Walk(r, [IVec3(r.p.x.Floor, r.p.y.Floor, r.p.z.Floor)], [0.0])
    ensures AreSides(r, IVec3(r.p.x.Floor, r.p.y.Floor, r.p.z.Floor), FirstSides(r))
  {
    FirstInAxis(r.len, r.p.x, r.d.x);
    FirstInAxis(r.len, r.p.y, r.d.y);
    FirstInAxis(r.len, r.p.z, r.d.z);
  }

  lemma WalkOn(r: Ray, cells: seq<IVec3>, times: seq<real>)
    requires Walk(r, cells, times)
    ensures var c := cells[|cells| - 1];
      Walk(r, cells + [NextCell(r, c)], times + [LeaveTime(r, c)])
  {
    var n := |cells| - 1;
    CellStep(r, cells[n], times[n]);
  }

  /** Every tested cell meets the ray: at its time the ray is in its closed cube. */
  lemma TestedCellsMeetTheRay(r: Ray, cells: seq<IVec3>, times: seq<real>, k: nat)
    requires Walk(r, cells, times) && k < |cells|
    ensures times[k] >= 0.0 && InCube(Position(r, times[k]), cells[k])
  {
    InCellInCube(r, cells[k], times[k]);
    TimesGrow(r, cells, times, 0, k);
  }

  lemma {:induction false} TimesGrow(r: Ray, cells: seq<IVec3>, times: seq<real>, i: nat, k: nat)
    requires Walk(r, cells, times) && i <= k < |cells|
    ensures times[i] <= times[k]
    decreases k
  {
    if i < k {
      TimesGrow(r, cells, times, i, k - 1);
      assert FollowedBy(r, cells[k - 1], times[k - 1], cells[k], times[k]);
    }
  }

  lemma Between(r: Ray, c: IVec3, t: real, u: real, v: real)
    requires GoodRay(r) && InCell(r, c, t) && InCell(r, c, v) && t <= u <= v
    ensures InCell(r, c, u)
  {
  }

  /** Up to the time of the last tested cell the ray is at every moment in a tested cell. */
  lemma {:induction false} RayIsCovered(r: Ray, cells: seq<IVec3>, times: seq<real>, t: real, n: nat) returns (k: nat)
    requires Walk(r, cells, times) && n < |cells| && 0.0 <= t <= times[n]
    ensures k < |cells| && InCube(Position(r, t), cells[k])
    decreases n
  {
    if n == 0 {
      k := 0;
      InCellInCube(r, cells[0], t);
    } else if t <= times[n - 1] {
      k := RayIsCovered(r, cells, times, t, n - 1);
    } else {
      k := n - 1;
      assert FollowedBy(r, cells[n - 1], times[n - 1], cells[n], times[n]);
      Between(r, cells[n - 1], times[n - 1], t, times[n]);
      InCellInCube(r, cells[n - 1], t);
    }
  }

  /** No cell whose interior the ray crosses is left out. */
  lemma NoCrossedCellIsSkipped(r: Ray, cells: seq<IVec3>, times: seq<real>, t: real, c: IVec3)
    requires Walk(r, cells, times) && 0.0 <= t <= times[|times| - 1] && InInterior(Position(r, t), c)
    ensures c in cells
  {
    var k := RayIsCovered(r, cells, times, t, |cells| - 1);
    InteriorAlone(Position(r, t), c, cells[k]);
  }

  /** How far a cell is along the steps. */
  function Progress(r: Ray, c: IVec3): int {
    Sign(r.d.x) * c.x + Sign(r.d.y) * c.y + Sign(r.d.z) * c.z
  }

  lemma ProgressStep(r: Ray, c: IVec3)
    requires GoodRay(r)
    ensures Progress(r, NextCell(r, c)) > Progress(r, c)
  {
    LeavesFirst(r, c);
    StepProgress(r.len, r.p.x, r.d.x, c.x, LeaveTime(r, c));
    StepProgress(r.len, r.p.y, r.d.y, c.y, LeaveTime(r, c));
    StepProgress(r.len, r.p.z, r.d.z, c.z, LeaveTime(r, c));
  }

  lemma StepProgress(len: real, p: real, d: real, c: int, m: real)
    requires len > 0.0
    ensures Sign(d) * NextCoord(len, p, d, c, m) ==
      Sign(d) * c + if d != 0.0 && Exit(len, p, d, c) <= m then 1 else 0
  {
  }

  lemma {:induction false} ProgressGrows(r: Ray, cells: seq<IVec3>, times: seq<real>, i: nat, k: nat)
    requires Walk(r, cells, times) && i < k < |cells|
    ensures Progress(r, cells[i]) < Progress(r, cells[k])
    decreases k
  {
    assert FollowedBy(r, cells[k - 1], times[k - 1], cells[k], times[k]);
    ProgressStep(r, cells[k - 1]);
    if i < k - 1 {
      ProgressGrows(r, cells, times, i, k - 1);
    }
  }

  /** No cell is tested twice. */
  lemma NoCellTwice(r: Ray, cells: seq<IVec3>, times: seq<real>, i: nat, k: nat)
    requires Walk(r, cells, times) && i < k < |cells|
    ensures cells[i] != cells[k]
  {
    ProgressGrows(r, cells, times, i, k);
  }

  // ----- the loop

  datatype DdaData = DdaData(blocktype: byte, pos: IVec3, face: IVec3)

  predicate AllAir(chunks: Chunks, cells: seq<IVec3>) {
    forall k :: 0 <= k < |cells| ==> BlockAt(chunks, cells[k]) == 0
  }

  lemma BackOneCell(r: Ray, c: IVec3, s: Dists)
    requires GoodRay(r) && AreSides(r, c, s)
    ensures Add(NextCell(r, c), Minus(Times(Mask(s), StepOf(r)))) == c
  {
    MaskMoves(r, c, s);
  }

  class Picker {
    var dda_data: DdaData

    constructor (data: DdaData)
      ensures dda_data == data
    {
      dda_data := data;
    }

    /** `GameScene::dda`: test cells along the ray until one is not air, at most 100.  After at
        least one step the cell in front of the hit face is the one tested before, hence air. */
    method Dda(chunks: Chunks, r: Ray) returns (found: bool, ghost cells: seq<IVec3>, ghost times: seq<real>)
      requires GoodRay(r)
      modifies this
      ensures Walk(r, cells, times) && |cells| <= 100 && AllAir(chunks, cells[..|cells| - 1])
      ensures cells[0] == IVec3(r.p.x.Floor, r.p.y.Floor, r.p.z.Floor)
      ensures found <==> BlockAt(chunks, cells[|cells| - 1]) != 0
      ensures !found ==> |cells| == 100 && dda_data == old(dda_data)
      ensures found ==> dda_data.pos == cells[|cells| - 1] && dda_data.blocktype == BlockAt(chunks, dda_data.pos)
      ensures found && |cells| > 1 ==> Add(dda_data.pos, dda_data.face) == cells[|cells| - 2]
      ensures found && |cells| > 1 ==> BlockAt(chunks, Add(dda_data.pos, dda_data.face)) == 0
    {
      var mapPos := IVec3(r.p.x.Floor, r.p.y.Floor, r.p.z.Floor);
      var sideDist := FirstSides(r);
      var mask: IVec3 := *;
      WalkStart(r);
      cells, times := [mapPos], [0.0];
      for i := 0 to 100
        invariant |cells| == i + 1 && OnWalk(chunks, r, cells, times, mapPos, sideDist, mask)
        invariant cells[0] == IVec3(r.p.x.Floor, r.p.y.Floor, r.p.z.Floor)
        invariant dda_data == old(dda_data)
      {
        var bt := BlockAt(chunks, mapPos);
        if bt != 0 {
          dda_data := DdaData(bt, mapPos, Minus(Times(mask, StepOf(r))));
          if i > 0 {
            HitFace(chunks, r, cells, times, mapPos, sideDist, mask);
          }
          return true, cells, times;
        }
        WalkStep(chunks, r, cells, times, mapPos, sideDist, mask);
        MaskMoves(r, mapPos, sideDist);
        cells, times := cells + [NextCell(r, mapPos)], times + [LeaveTime(r, mapPos)];
        mask := Mask(sideDist);
        sideDist := Advance(sideDist, mask, DeltaOf(r));
        mapPos := Add(mapPos, Times(mask, StepOf(r)));
      }
      found := false;
      WalkPrefix(r, cells, times, 100);
      assert cells[..100][..99] == cells[..99];
      cells, times := cells[..100], times[..100];
    }
  }

  /** The state of the loop: `cells` ends with the cell to be tested next. */
  ghost predicate OnWalk(chunks: Chunks, r: Ray, cells: seq<IVec3>, times: seq<real>, mapPos: IVec3,
      sideDist: Dists, mask: IVec3) {
    && Walk(r, cells, times) && AllAir(chunks, cells[..|cells| - 1])
    && mapPos == cells[|cells| - 1] && AreSides(r, mapPos, sideDist)
    && (|cells| > 1 ==> Add(mapPos, Minus(Times(mask, StepOf(r)))) == cells[|cells| - 2])
  }

  lemma WalkStep(chunks: Chunks, r: Ray, cells: seq<IVec3>, times: seq<real>, mapPos: IVec3, sideDist: Dists,
      mask: IVec3)
    requires OnWalk(chunks, r, cells, times, mapPos, sideDist, mask) && BlockAt(chunks, mapPos) == 0
    ensures Mask(sideDist).x >= 0 && Mask(sideDist).y >= 0 && Mask(sideDist).z >= 0
    ensures OnWalk(chunks, r, cells + [NextCell(r, mapPos)], times + [LeaveTime(r, mapPos)], NextCell(r, mapPos),
      Advance(sideDist, Mask(sideDist), DeltaOf(r)), Mask(sideDist))
  {
    WalkOn(r, cells, times);
    SidesMove(r, mapPos, sideDist);
    BackOneCell(r, mapPos, sideDist);
    assert (cells + [NextCell(r, mapPos)])[..|cells|] == cells[..|cells| - 1] + [mapPos];
  }

  lemma HitFace(chunks: Chunks, r: Ray, cells: seq<IVec3>, times: seq<real>, mapPos: IVec3, sideDist: Dists,
      mask: IVec3)
    requires OnWalk(chunks, r, cells, times, mapPos, sideDist, mask) && |cells| > 1
    ensures BlockAt(chunks, Add(mapPos, Minus(Times(mask, StepOf(r))))) == 0
  {
    assert cells[..|cells| - 1][|cells| - 2] == cells[|cells| - 2];
  }

  lemma WalkPrefix(r: Ray, cells: seq<IVec3>, times: seq<real>, n: nat)
    requires Walk(r, cells, times) && 0 < n <= |cells|
    ensures Walk(r, cells[..n], times[..n])
  {
  }
}
