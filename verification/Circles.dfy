/** Paint_DrawCircle (Device/GUI_Paint.c), over the offsets from the centre that it passes to Paint_DrawPoint. */
module Circles {
  import opened Arith

  /** The largest radius for which the 16-bit error term does not wrap, and for which the figure is right. */
  const MAX_RADIUS: nat := 8345

  datatype Offset = Offset(u: int, v: int)

  /** An int16_t result. */
  function I16(v: int): (w: int)
    ensures -32768 <= w < 32768
    ensures -32768 <= v < 32768 ==> w == v
  {
    (v + 32768) % 65536 - 32768
  }

  lemma I16Wraps(v: int) returns (k: int)
    ensures I16(v) == v + 65536 * k
    ensures -98304 <= v < -32768 ==> k == 1
    ensures v < -98304 ==> k >= 2
  {
    k := 0 - (v + 32768) / 65536;
  }

  // ----- squares, by the differences the error term adds up

  function Sq(n: int): int
    decreases Abs(n)
  {
    if n == 0 then 0 else if n > 0 then Sq(n - 1) + 2 * n - 1 else Sq(n + 1) - 2 * n - 1
  }

  lemma {:induction false} SqIsSquare(n: int)
    ensures Sq(n) == n * n
    decreases Abs(n)
  {
    if n > 0 {
      SqIsSquare(n - 1);
      assert (n - 1) * (n - 1) == n * n - 2 * n + 1;
    } else if n < 0 {
      SqIsSquare(n + 1);
      assert (n + 1) * (n + 1) == n * n + 2 * n + 1;
    }
  }

  lemma SqNext(n: int)
    ensures Sq(n + 1) == Sq(n) + 2 * n + 1
  {
  }

  lemma {:induction false} SqPositive(n: nat)
    ensures Sq(n) >= n
  {
    if n > 0 {
      SqPositive(n - 1);
    }
  }

  lemma {:induction false} SqMono(a: int, b: int)
    requires 0 <= a <= b
    ensures Sq(a) <= Sq(b)
    decreases b - a
  {
    if a < b {
      SqMono(a, b - 1);
    }
  }

  lemma {:induction false} PronicMono(a: int, b: int)
    requires 0 <= a <= b
    ensures Sq(a) - a <= Sq(b) - b && Sq(a) <= Sq(b)
    decreases b - a
  {
    if a < b {
      PronicMono(a, b - 1);
    }
  }

  /** A square against the square of a bound. */
  lemma SqAgainst(n: nat, k: nat)
    ensures n <= k ==> Sq(n) <= k * k
    ensures n >= k ==> Sq(n) >= k * k && Sq(n) >= k * n
  {
    SqIsSquare(n);
    if n <= k {
      MulMono(n, n, k);
      MulMono(k, n, k);
    }
    if n >= k {
      MulMono(n, k, n);
      MulMono(k, k, n);
    }
  }

  /** How far (x, y) is from the circle: x^2 + y^2 - r^2. */
  function Gap(r: int, x: int, y: int): int {
    Sq(x) + Sq(y) - Sq(r)
  }

  // ----- one octant

  /** What holds at the loop test as long as nothing has wrapped: the error term is
      2(x+1)^2 + y^2 + (y-1)^2 - 2r^2, and the point is within y of the circle, measured in squares. */
  ghost predicate Octant(r: nat, x: nat, y: int, esp: int) {
    && -1 <= y <= r && (y == -1 ==> r == 0 && x == 1) && x <= y + 2
    && esp == 2 * Gap(r, x, y) + 4 * x - 2 * y + 3
    && Gap(r, x, y) >= 0 - y
    && (x <= y ==> Gap(r, x, y) <= y && (r > 0 ==> Gap(r, x, y) < y))
  }

  lemma OctantStarts(r: nat)
    ensures Octant(r, 0, r, 3 - 2 * r)
  {
  }

  lemma EspMeans(r: nat, x: nat, y: int, esp: int)
    requires Octant(r, x, y, esp)
    ensures esp == 2 * Sq(x + 1) + Sq(y) + Sq(y - 1) - 2 * Sq(r)
  {
    SqNext(x);
    SqNext(y - 1);
  }

  lemma OctantStays(r: nat, x: nat, y: int, esp: int)
    requires Octant(r, x, y, esp) && x <= y && esp < 0
    ensures Octant(r, x + 1, y, esp + 4 * x + 6)
  {
    SqNext(x);
  }

  lemma OctantDrops(r: nat, x: nat, y: int, esp: int)
    requires Octant(r, x, y, esp) && x <= y && esp >= 0
    ensures Octant(r, x + 1, y - 1, esp + 10 + 4 * (x - y))
  {
    SqNext(x);
    SqNext(y - 1);
    if y == 0 {
      SqPositive(r);
    }
  }

  // ----- no int16_t value overflows up to the largest radius

  /** On the octant x stays well below the radius. */
  lemma OctantNarrow(r: nat, x: nat, y: int, esp: int)
    requires Octant(r, x, y, esp) && x <= y && r <= MAX_RADIUS
    ensures x <= 8000
  {
    SqMono(x, y);
    SqAgainst(r, MAX_RADIUS);
    SqAgainst(x, 8001);
  }

  /** The first drop is the deepest one: below it the error term is 2s^2 + 4s + 7 - 6r, with s^2 >= r. */
  lemma FirstDropFits(r: nat, x: nat, esp: int)
    requires Octant(r, x, r, esp) && x <= r <= MAX_RADIUS && esp >= 0
    ensures -32768 <= esp + 10 + 4 * (x - r)
  {
    SqNext(x);
    assert Sq(x + 1) >= r;
    SqAgainst(x + 1, 92);
    SqAgainst(x + 1, 91);
    SqAgainst(x + 1, 87);
  }

  lemma LaterDropFits(r: nat, x: nat, y: int, esp: int)
    requires Octant(r, x, y, esp) && x <= y < r <= MAX_RADIUS && esp >= 0
    ensures -32768 <= esp + 10 + 4 * (x - y)
  {
    EspMeans(r, x, y, esp);
    if y > 8191 {
      SqMono(y, r - 1);
      SqMono(y - 1, r - 2);
      SqNext(r - 1);
      SqNext(r - 2);
      assert 2 * Sq(x + 1) >= 6 * r - 5;
      SqAgainst(x + 1, 152);
    }
  }

  lemma OctantFits(r: nat, x: nat, y: int, esp: int)
    requires Octant(r, x, y, esp) && x <= y && r <= MAX_RADIUS
    ensures esp < 0 ==> esp + 4 * x + 6 < 32768
    ensures esp >= 0 ==> -32768 <= esp + 10 + 4 * (x - y) < 32768
  {
    OctantNarrow(r, x, y, esp);
    if esp >= 0 {
      if y == r { FirstDropFits(r, x, esp); } else { LaterDropFits(r, x, y, esp); }
    }
  }

  // ----- beyond the largest radius the first drop wraps

  /** Before the first drop, x^2 < r; so for every larger radius the first drop leaves the 16-bit range. */
  lemma FirstDropWraps(r: nat, x: nat, esp: int)
    requires Octant(r, x, r, esp) && x <= r && Sq(x) < r && MAX_RADIUS < r <= 16385 && esp >= 0
    ensures -98304 <= esp + 10 + 4 * (x - r) < -32768
    ensures esp + 10 + 4 * (x - r) == 2 * Sq(x + 1) + 4 * (x + 1) + 7 - 6 * r
  {
    SqNext(x);
    if x + 1 <= 92 {
      SqAgainst(x + 1, 92);
    } else {
      SqAgainst(x, 92);
    }
  }

  /** At radius 8346 it is -32773, which an int16_t holds as 32763. */
  lemma WrapAt8346(x: nat, esp: int)
    requires x == 91 && Octant(MAX_RADIUS + 1, x, MAX_RADIUS + 1, esp)
    ensures esp >= 0 && esp + 10 + 4 * (x - (MAX_RADIUS + 1)) == -32773 && I16(-32773) == 32763
  {
    SqIsSquare(x);
  }

  // ----- where the walk is, for every radius

  /** `Sound`: nothing has wrapped. `Lifted`: the start value wrapped. `Ahead`: the error term is 65536 j too large
      after the first drop. `Spoiled`: column k is too short. */
  datatype Phase = Sound | Lifted | Ahead(j: int) | Spoiled(k: nat)

  /** The column is on the octant, but the lattice point above it is still inside the circle. */
  predicate Short(r: nat, k: nat, y: int) {
    k <= y && Gap(r, k, y + 1) <= 0
  }

  /** `y` comes after the columns `ys`: it is the radius, or at most one below the last one. */
  predicate Follows(r: nat, ys: seq<nat>, y: int) {
    if |ys| == 0 then y == r else y <= ys[|ys| - 1] <= y + 1
  }

  ghost predicate InPhase(r: nat, x: nat, y: int, esp: int, ys: seq<nat>, ph: Phase) {
    && |ys| == x <= y + 2 && -1 <= y <= r < 32768 && -32768 <= esp < 32768
    && match ph
       case Sound =>
         Octant(r, x, y, esp) && Columns(r, ys) && Follows(r, ys, y)
         && (r > MAX_RADIUS ==> y == r <= 16385 && Sq(x) < r)
       case Lifted => r > 16385 && x == 0 && y == r && esp == 65539 - 2 * r
       case Ahead(j) =>
         MAX_RADIUS < r && y == r - 1 && 1 <= j && (j == 1 ==> r <= 16386)
         && esp == 2 * Sq(x) + 4 * x + 7 - 6 * r + 65536 * j
       case Spoiled(k) =>
         MAX_RADIUS < r && y < r && k <= x && Short(r, k, if k < x then ys[k] else y)
  }

  /** The update at the bottom of both loops. */
  function NextEsp(x: int, y: int, esp: int): int {
    if esp < 0 then I16(esp + 4 * x + 6) else I16(esp + 10 + 4 * (x - y))
  }

  function NextY(y: int, esp: int): int {
    if esp < 0 then y else I16(y - 1)
  }

  /** Up to the largest radius the code's update is the exact one. */
  lemma OctantNext(r: nat, x: nat, y: int, esp: int)
    requires Octant(r, x, y, esp) && x <= y && r <= MAX_RADIUS && -32768 <= esp < 32768
    ensures Octant(r, x + 1, NextY(y, esp), NextEsp(x, y, esp))
    ensures NextY(y, esp) == if esp < 0 then y else y - 1
  {
    OctantFits(r, x, y, esp);
    if esp < 0 { OctantStays(r, x, y, esp); } else { OctantDrops(r, x, y, esp); }
  }

  lemma SoundKeeps(r: nat, x: nat, y: int, esp: int, ys: seq<nat>)
    requires InPhase(r, x, y, esp, ys, Sound) && x <= y && r <= MAX_RADIUS
    ensures InPhase(r, x + 1, NextY(y, esp), NextEsp(x, y, esp), ys + [y], Sound)
  {
    ColumnsGrow(r, ys, y, esp);
    OctantNext(r, x, y, esp);
  }

  lemma SoundStays(r: nat, x: nat, y: int, esp: int, ys: seq<nat>)
    requires InPhase(r, x, y, esp, ys, Sound) && x <= y && r > MAX_RADIUS && esp < 0
    ensures InPhase(r, x + 1, NextY(y, esp), NextEsp(x, y, esp), ys + [y], Sound)
  {
    ColumnsGrow(r, ys, y, esp);
    SqAgainst(x, 128);
    OctantStays(r, x, y, esp);
    SqNext(x);
  }

  lemma SoundWraps(r: nat, x: nat, y: int, esp: int, ys: seq<nat>)
    requires InPhase(r, x, y, esp, ys, Sound) && x <= y && r > MAX_RADIUS && esp >= 0
    ensures InPhase(r, x + 1, NextY(y, esp), NextEsp(x, y, esp), ys + [y], Ahead(1))
  {
    FirstDropWraps(r, x, esp);
    var k := I16Wraps(esp + 10 + 4 * (x - y));
  }

  /** A radius above 16385 drops at once. */
  lemma LiftedNext(r: nat, x: nat, y: int, esp: int, ys: seq<nat>) returns (ph: Phase)
    requires InPhase(r, x, y, esp, ys, Lifted) && x <= y
    ensures InPhase(r, x + 1, NextY(y, esp), NextEsp(x, y, esp), ys + [y], ph)
  {
    var v := esp + 10 + 4 * (x - y);
    var k := I16Wraps(v);
    SqNext(x);
    ph := Ahead(1 + k);
  }

  /** While the error term is ahead, x stays small, so the next drop comes too early. */
  lemma AheadNext(r: nat, x: nat, y: int, esp: int, ys: seq<nat>, j: int) returns (ph: Phase)
    requires InPhase(r, x, y, esp, ys, Ahead(j)) && x <= y
    ensures InPhase(r, x + 1, NextY(y, esp), NextEsp(x, y, esp), ys + [y], ph)
  {
    AheadNarrow(r, x, y, esp, ys, j);
    SqNext(x);
    SqNext(r - 1);
    ph := if esp < 0 then Ahead(j) else Spoiled(x + 1);
  }

  lemma AheadNarrow(r: nat, x: nat, y: int, esp: int, ys: seq<nat>, j: int)
    requires InPhase(r, x, y, esp, ys, Ahead(j))
    ensures x <= 286 && 2 * Sq(x) + 4 * x + 4 <= 4 * r
  {
    SqAgainst(x, 287);
  }

  lemma SpoiledNext(r: nat, x: nat, y: int, esp: int, ys: seq<nat>, k: nat)
    requires InPhase(r, x, y, esp, ys, Spoiled(k)) && x <= y
    ensures InPhase(r, x + 1, NextY(y, esp), NextEsp(x, y, esp), ys + [y], Spoiled(k))
  {
  }

  lemma PhaseStarts(r: nat)
    requires r < 32768
    ensures InPhase(r, 0, r, I16(3 - 2 * r), [], if r <= 16385 then Sound else Lifted)
  {
    OctantStarts(r);
    var k := I16Wraps(3 - 2 * r);
  }

  lemma PhaseNext(r: nat, x: nat, y: int, esp: int, ys: seq<nat>, ph: Phase) returns (ph': Phase)
    requires InPhase(r, x, y, esp, ys, ph) && x <= y
    ensures InPhase(r, x + 1, NextY(y, esp), NextEsp(x, y, esp), ys + [y], ph') && x + 1 < 32768
  {
    match ph {
      case Sound =>
        ph' := if r <= MAX_RADIUS || esp < 0 then Sound else Ahead(1);
        if r <= MAX_RADIUS { SoundKeeps(r, x, y, esp, ys); }
        else if esp < 0 { SoundStays(r, x, y, esp, ys); }
        else { SoundWraps(r, x, y, esp, ys); }
      case Lifted => ph' := LiftedNext(r, x, y, esp, ys);
      case Ahead(j) => ph' := AheadNext(r, x, y, esp, ys, j);
      case Spoiled(k) =>
        SpoiledNext(r, x, y, esp, ys, k);
        ph' := ph;
    }
  }

  // ----- eight-fold symmetry

  /** The eight calls for one point of the octant. */
  function Eight(x: int, s: int): seq<Offset> {
    [Offset(x, s), Offset(-x, s), Offset(-s, x), Offset(-s, -x),
     Offset(-x, -s), Offset(x, -s), Offset(s, -x), Offset(s, x)]
  }

  function Small(o: Offset): nat { Min(Abs(o.u), Abs(o.v)) }
  function Large(o: Offset): nat { Max(Abs(o.u), Abs(o.v)) }

  lemma EightAre(x: nat, s: nat, o: Offset)
    requires x <= s
    ensures o in Eight(x, s) <==> Small(o) == x && Large(o) == s
  {
  }

  /** `ys` lists, column by column, the y at which the walk was: from the radius down, at most one per column. */
  ghost predicate Columns(r: nat, ys: seq<nat>) {
    |ys| > 0 ==>
      var n := |ys| - 1;
      Columns(r, ys[..n]) && Column(r, n, ys[n]) && Follows(r, ys[..n], ys[n])
  }

  ghost predicate Column(r: nat, x: nat, y: nat) {
    x <= y <= r && 0 - y <= Gap(r, x, y) <= y && (r > 0 ==> Gap(r, x, y) < y)
  }

  lemma {:induction false} ColumnAt(r: nat, ys: seq<nat>, k: nat)
    requires Columns(r, ys) && k < |ys|
    ensures Column(r, k, ys[k]) && (if k == 0 then ys[0] == r else ys[k] <= ys[k - 1] <= ys[k] + 1)
    decreases |ys|
  {
    if k < |ys| - 1 {
      ColumnAt(r, ys[..|ys| - 1], k);
    }
  }

  lemma ColumnsGrow(r: nat, ys: seq<nat>, y: int, esp: int)
    requires Columns(r, ys) && Octant(r, |ys|, y, esp) && |ys| <= y && Follows(r, ys, y)
    ensures Columns(r, ys + [y])
  {
    assert (ys + [y])[..|ys|] == ys;
  }

  /** A walk of one octant that has reached the diagonal and passed it. */
  ghost predicate Walked(r: nat, ys: seq<nat>) {
    Columns(r, ys) && 2 * Sq(|ys|) - |ys| >= Sq(r) && |ys| > 0 && ys[|ys| - 1] <= |ys|
  }

  /** A walk with a column that is too short. */
  ghost predicate Spoilt(r: nat, ys: seq<nat>) {
    exists k :: 0 <= k < |ys| && Short(r, k, ys[k])
  }

  lemma PhaseEnds(r: nat, x: nat, y: int, esp: int, ys: seq<nat>, ph: Phase)
    requires InPhase(r, x, y, esp, ys, ph) && x > y
    ensures if r <= MAX_RADIUS then Walked(r, ys) else Spoilt(r, ys)
  {
    SqPositive(x);
    match ph {
      case Sound =>
        if r <= MAX_RADIUS {
          SqNext(y);
          PronicMono(y + 1, x);
        }
      case Ahead(j) => AheadNarrow(r, x, y, esp, ys, j);
      case _ =>
    }
  }

  /** The offset is in the columns, under them or on them. */
  predicate Under(ys: seq<nat>, o: Offset) {
    Small(o) < |ys| && Large(o) <= ys[Small(o)]
  }

  predicate On(ys: seq<nat>, o: Offset) {
    Small(o) < |ys| && Large(o) == ys[Small(o)]
  }

  /** The offsets passed so far are exactly those under the columns, or on them. */
  ghost predicate Exactly(offsets: seq<Offset>, ys: seq<nat>, filled: bool) {
    forall o :: o in offsets <==> if filled then Under(ys, o) else On(ys, o)
  }

  lemma GrowFilled(offsets: seq<Offset>, out: seq<Offset>, ys: seq<nat>, y: nat)
    requires Exactly(offsets, ys, true)
    requires forall o :: o in out <==> o in offsets || (Small(o) == |ys| && Large(o) <= y)
    ensures Exactly(out, ys + [y], true)
  {
    forall o
      ensures o in out <==> Under(ys + [y], o)
    {
      assert o in offsets <==> Under(ys, o);
    }
  }

  lemma GrowHollow(offsets: seq<Offset>, ys: seq<nat>, y: nat)
    requires Exactly(offsets, ys, false) && |ys| <= y
    ensures Exactly(offsets + Eight(|ys|, y), ys + [y], false)
  {
    forall o
      ensures o in offsets + Eight(|ys|, y) <==> On(ys + [y], o)
    {
      assert o in offsets <==> On(ys, o);
      EightAre(|ys|, y, o);
    }
  }

  lemma FillNext(offsets: seq<Offset>, out: seq<Offset>, x: nat, s: nat)
    requires x <= s
    requires forall o :: o in out <==> o in offsets || (Small(o) == x && Large(o) < s)
    ensures forall o :: o in out + Eight(x, s) <==> o in offsets || (Small(o) == x && Large(o) < s + 1)
  {
    forall o
      ensures o in out + Eight(x, s) <==> o in offsets || (Small(o) == x && Large(o) < s + 1)
    {
      EightAre(x, s, o);
      assert o in out <==> o in offsets || (Small(o) == x && Large(o) < s);
    }
  }

  /** The inner loop of the filled circle: one column. The counter is an int16_t. */
  method FillColumn(offsets: seq<Offset>, x: nat, y: nat) returns (out: seq<Offset>)
    requires x <= y < 32767
    ensures forall o :: o in out <==> o in offsets || (Small(o) == x && Large(o) <= y)
  {
    out := offsets;
    var s := x;
    while s <= y
      invariant x <= s <= y + 1
      invariant forall o :: o in out <==> o in offsets || (Small(o) == x && Large(o) < s)
    {
      FillNext(offsets, out, x, s);
      out := out + Eight(x, s);
      s := I16(s + 1);
    }
  }

  /** The counter never exceeds 32767, so a column of that height never ends. */
  lemma FillNeverEnds(x: int, n: nat)
    ensures I16(x + n) <= 32767
  {
  }

  /** The points drawn for the current column. */
  method DrawColumn(offsets: seq<Offset>, x: nat, y: nat, filled: bool, ghost ys: seq<nat>) returns (out: seq<Offset>)
    requires Exactly(offsets, ys, filled) && |ys| == x <= y && (filled ==> y < 32767)
    ensures Exactly(out, ys + [y], filled)
  {
    if filled {
      out := FillColumn(offsets, x, y);
      GrowFilled(offsets, out, ys, y);
    } else {
      out := offsets + Eight(x, y);
      GrowHollow(offsets, ys, y);
    }
  }

  /** The update at the bottom of both loops, whether or not it wraps. */
  method StepOctant(x: nat, y: int, esp: int, ghost r: nat, ghost ys: seq<nat>, ghost ph: Phase)
    returns (x': nat, y': int, esp': int, ghost ph': Phase)
    requires InPhase(r, x, y, esp, ys, ph) && x <= y
    ensures InPhase(r, x', y', esp', ys + [y], ph') && x' == x + 1 && y - 1 <= y' <= y
  {
    ph' := PhaseNext(r, x, y, esp, ys, ph);
    if esp < 0 {
      esp', y' := I16(esp + 4 * x + 6), y;
    } else {
      esp', y' := I16(esp + 10 + 4 * (x - y)), I16(y - 1);
    }
    x' := I16(x + 1);
  }

  /** The loops of Paint_DrawCircle from their start values; `ys` is the walk they make along one octant. A filled
      column of height 32767 would keep the inner loop running for ever, see FillNeverEnds. */
  method WalkOctant(r: nat, esp0: int, filled: bool, ghost ph0: Phase)
    returns (offsets: seq<Offset>, ends: bool, ghost ys: seq<nat>)
    requires InPhase(r, 0, r, esp0, [], ph0)
    ensures ends <==> !(filled && r == 32767)
    ensures ends ==> Exactly(offsets, ys, filled) && if r <= MAX_RADIUS then Walked(r, ys) else Spoilt(r, ys)
  {
    offsets, ends, ys := [], true, [];
    var x: nat, y: int, esp := 0, r, esp0;
    ghost var ph := ph0;
    while x <= y
      invariant InPhase(r, x, y, esp, ys, ph) && Exactly(offsets, ys, filled)
      invariant (x == 0 ==> y == r) && (filled && r == 32767 ==> x == 0)
      decreases y - x + 1
    {
      if filled && y == 32767 {
        ends := false;
        return;
      }
      offsets := DrawColumn(offsets, x, y, filled, ys);
      ghost var column := y;
      x, y, esp, ph := StepOctant(x, y, esp, r, ys, ph);
      ys := ys + [column];
    }
    PhaseEnds(r, x, y, esp, ys, ph);
  }

  // ----- what the two circles look like

  lemma SqAbs(n: int)
    ensures Sq(n) == Sq(Abs(n))
  {
    SqIsSquare(n);
    SqIsSquare(Abs(n));
  }

  lemma SmallLarge(o: Offset)
    ensures Sq(o.u) + Sq(o.v) == Sq(Small(o)) + Sq(Large(o))
  {
    SqAbs(o.u);
    SqAbs(o.v);
  }

  lemma GapOf(r: nat, o: Offset)
    ensures o.u * o.u + o.v * o.v - r * r == Gap(r, Small(o), Large(o))
  {
    SqIsSquare(o.u);
    SqIsSquare(o.v);
    SqIsSquare(r);
    SmallLarge(o);
  }

  /** The offsets of the filled circle, and of the hollow one. */
  predicate InDisc(r: nat, o: Offset) {
    if r == 0 then o == Offset(0, 0) else o.u * o.u + o.v * o.v < r * r + Large(o)
  }

  predicate OnCircle(r: nat, o: Offset) {
    if r == 0 then o == Offset(0, 0) else 0 - Large(o) <= o.u * o.u + o.v * o.v - r * r < Large(o)
  }

  /** A column is as high as the disc: the next point up is outside, this one and those below are inside. */
  lemma ColumnExact(r: nat, p: nat, y: nat, q: nat)
    requires r > 0 && Column(r, p, y)
    ensures q <= y <==> Gap(r, p, q) < q
    ensures q == y <==> 0 - q <= Gap(r, p, q) < q
  {
    SqNext(y);
    SqNext(q);
    if q <= y {
      PronicMono(q, y);
      if q < y { PronicMono(q + 1, y); }
    } else {
      PronicMono(y + 1, q);
    }
  }

  lemma BeyondDiagonal(r: nat, ys: seq<nat>, p: nat, q: nat)
    requires Walked(r, ys) && |ys| <= p <= q
    ensures Gap(r, p, q) >= q
  {
    PronicMono(|ys|, p);
    PronicMono(|ys|, q);
  }

  lemma PointWalk(ys: seq<nat>, o: Offset)
    requires Walked(0, ys)
    ensures (Under(ys, o) <==> o == Offset(0, 0)) && (On(ys, o) <==> o == Offset(0, 0))
  {
    ColumnAt(0, ys, |ys| - 1);
    ColumnAt(0, ys, 0);
  }

  /** The walk of one octant determines both figures, for every radius that does not wrap. */
  lemma WalkExact(r: nat, ys: seq<nat>, o: Offset)
    requires Walked(r, ys)
    ensures Under(ys, o) <==> InDisc(r, o)
    ensures On(ys, o) <==> OnCircle(r, o)
  {
    if r == 0 {
      PointWalk(ys, o);
    } else {
      var p, q := Small(o), Large(o);
      GapOf(r, o);
      if p < |ys| {
        ColumnAt(r, ys, p);
        ColumnExact(r, p, ys[p], q);
      } else {
        BeyondDiagonal(r, ys, p, q);
      }
    }
  }

  /** The filled circle includes every lattice offset with u^2 + v^2 <= r^2 and none with u^2 + v^2 > r^2 + r. */
  lemma FilledCircle(r: nat, ys: seq<nat>, o: Offset)
    requires Walked(r, ys)
    ensures o.u * o.u + o.v * o.v <= r * r ==> Under(ys, o)
    ensures Under(ys, o) ==> o.u * o.u + o.v * o.v <= r * r + r
  {
    GapOf(r, o);
    var p, q := Small(o), Large(o);
    if p < |ys| {
      ColumnAt(r, ys, p);
    }
    if Under(ys, o) {
      SqMono(q, ys[p]);
    } else if p >= |ys| {
      SqMono(|ys|, p);
      SqMono(p, q);
    } else {
      SqNext(ys[p]);
      SqMono(ys[p] + 1, q);
    }
  }

  /** Each offset of the hollow circle misses the circle by no more than its larger coordinate, in squares. */
  lemma HollowNear(r: nat, ys: seq<nat>, o: Offset)
    requires Walked(r, ys) && On(ys, o)
    ensures 0 - Large(o) <= o.u * o.u + o.v * o.v - r * r <= Large(o)
  {
    GapOf(r, o);
    ColumnAt(r, ys, Small(o));
  }

  lemma SameColumn(ys: seq<nat>, o: Offset, p: Offset)
    requires Small(o) == Small(p) && Large(o) == Large(p)
    ensures On(ys, o) <==> On(ys, p)
  {
  }

  /** From each of its points up to the diagonal it goes on to the next column, at most one lower. */
  lemma HollowNext(r: nat, ys: seq<nat>, o: Offset)
    requires Walked(r, ys) && On(ys, o) && 0 <= o.u < o.v - 1
    ensures On(ys, Offset(o.u + 1, o.v)) || On(ys, Offset(o.u + 1, o.v - 1))
  {
    assert Small(o) == o.u && Large(o) == o.v;
    ColumnAt(r, ys, o.u + 1);
  }

  /** The figure is near the circle and symmetric; it passes through the top and goes on from each of its points up to
      the diagonal, so with the symmetry it is closed. */
  lemma HollowCircle(r: nat, ys: seq<nat>, o: Offset)
    requires Walked(r, ys)
    ensures On(ys, o) ==> 0 - Large(o) <= o.u * o.u + o.v * o.v - r * r <= Large(o)
    ensures On(ys, o) <==> On(ys, Offset(o.v, o.u))
    ensures On(ys, o) <==> On(ys, Offset(-o.u, o.v))
    ensures On(ys, Offset(0, r))
    ensures On(ys, o) && 0 <= o.u < o.v - 1 ==> On(ys, Offset(o.u + 1, o.v)) || On(ys, Offset(o.u + 1, o.v - 1))
    ensures 2 * (o.u * o.u) <= r * r ==> Abs(o.u) < |ys| && On(ys, Offset(o.u, ys[Abs(o.u)]))
  {
    ColumnAt(r, ys, 0);
    SameColumn(ys, o, Offset(o.v, o.u));
    SameColumn(ys, o, Offset(-o.u, o.v));
    if On(ys, o) {
      HollowNear(r, ys, o);
      if 0 <= o.u < o.v - 1 { HollowNext(r, ys, o); }
    }
    if 2 * (o.u * o.u) <= r * r { ColumnPresent(r, ys, o.u); }
  }

  /** Exactly the offsets of the filled circle: all of the disc of radius r, and none more than r outside it, measured
      in squares. */
  ghost predicate IsDisc(r: nat, offsets: seq<Offset>) {
    forall o: Offset ::
      && (o in offsets <==> InDisc(r, o))
      && (o.u * o.u + o.v * o.v <= r * r ==> o in offsets)
      && (o in offsets ==> o.u * o.u + o.v * o.v <= r * r + r)
  }

  /** Exactly the offsets of the hollow circle: a closed symmetric figure through the top, near the circle, with every
      column up to the diagonal. */
  ghost predicate IsCircle(r: nat, offsets: seq<Offset>) {
    && (forall o: Offset :: o in offsets <==> OnCircle(r, o))
    && Offset(0, r) in offsets && (forall o: Offset :: o in offsets ==> GoesOn(r, offsets, o))
    && forall u: int :: 2 * (u * u) <= r * r ==> HasColumn(offsets, u)
  }

  ghost predicate HasColumn(offsets: seq<Offset>, u: int) {
    exists v :: Offset(u, v) in offsets
  }

  /** The offset is near the circle, has its mirror images, and up to the diagonal it has a successor in the next
      column, at most one lower. */
  ghost predicate GoesOn(r: nat, offsets: seq<Offset>, o: Offset) {
    && 0 - Large(o) <= o.u * o.u + o.v * o.v - r * r <= Large(o)
    && Offset(o.v, o.u) in offsets && Offset(-o.u, o.v) in offsets
    && (0 <= o.u < o.v - 1 ==> Offset(o.u + 1, o.v) in offsets || Offset(o.u + 1, o.v - 1) in offsets)
  }

  lemma WalkedDisc(r: nat, ys: seq<nat>, offsets: seq<Offset>)
    requires Walked(r, ys) && Exactly(offsets, ys, true)
    ensures IsDisc(r, offsets)
  {
    forall o: Offset
      ensures o in offsets <==> InDisc(r, o)
      ensures o.u * o.u + o.v * o.v <= r * r ==> o in offsets
      ensures o in offsets ==> o.u * o.u + o.v * o.v <= r * r + r
    {
      WalkExact(r, ys, o);
      FilledCircle(r, ys, o);
      assert o in offsets <==> Under(ys, o);
    }
  }

  /** Every column up to the diagonal is present. */
  lemma ColumnPresent(r: nat, ys: seq<nat>, u: int)
    requires Walked(r, ys) && 2 * (u * u) <= r * r
    ensures Abs(u) < |ys| && On(ys, Offset(u, ys[Abs(u)]))
  {
    SqIsSquare(u);
    SqIsSquare(r);
    SqAbs(u);
    if Abs(u) >= |ys| {
      SqMono(|ys|, Abs(u));
    } else {
      ColumnAt(r, ys, Abs(u));
    }
  }

  lemma ColumnDrawn(r: nat, ys: seq<nat>, offsets: seq<Offset>, u: int)
    requires Walked(r, ys) && Exactly(offsets, ys, false) && 2 * (u * u) <= r * r
    ensures HasColumn(offsets, u)
  {
    ColumnPresent(r, ys, u);
    assert Offset(u, ys[Abs(u)]) in offsets;
  }

  lemma OnGoesOn(r: nat, ys: seq<nat>, offsets: seq<Offset>, o: Offset)
    requires Walked(r, ys) && Exactly(offsets, ys, false) && o in offsets
    ensures GoesOn(r, offsets, o)
  {
    HollowCircle(r, ys, o);
  }

  lemma WalkedCircle(r: nat, ys: seq<nat>, offsets: seq<Offset>)
    requires Walked(r, ys) && Exactly(offsets, ys, false)
    ensures IsCircle(r, offsets)
  {
    ColumnAt(r, ys, 0);
    assert On(ys, Offset(0, r));
    forall o: Offset
      ensures o in offsets <==> OnCircle(r, o)
    {
      WalkExact(r, ys, o);
      assert o in offsets <==> On(ys, o);
    }
    forall o: Offset | o in offsets
      ensures GoesOn(r, offsets, o)
    {
      OnGoesOn(r, ys, offsets, o);
    }
    forall u: int | 2 * (u * u) <= r * r
      ensures HasColumn(offsets, u)
    {
      ColumnDrawn(r, ys, offsets, u);
    }
  }

  /** A column that is too short leaves out a point of the disc, and is itself too far inside the circle. */
  lemma SpoiltFigure(r: nat, ys: seq<nat>, offsets: seq<Offset>, filled: bool)
    requires Spoilt(r, ys) && Exactly(offsets, ys, filled)
    ensures !Figure(r, offsets, filled)
  {
    var k :| 0 <= k < |ys| && Short(r, k, ys[k]);
    var above, on := Offset(k, ys[k] + 1), Offset(k, ys[k]);
    GapOf(r, above);
    GapOf(r, on);
    SqNext(ys[k]);
    if filled {
      assert !Under(ys, above);
      assert above !in offsets;
    } else {
      assert On(ys, on);
      assert on in offsets && !GoesOn(r, offsets, on);
    }
  }

  lemma NoFigure(r: nat, offsets: seq<Offset>, filled: bool)
    requires Exactly(offsets, [], filled)
    ensures !Figure(r, offsets, filled)
  {
    var o := if filled then Offset(0, 0) else Offset(0, r);
    MulMono(r, 0, r);
    assert o !in offsets;
  }

  method Start(r: nat) returns (y: int, esp: int, ghost ph: Phase)
    requires r < 65536
    ensures if r < 32768 then y == r && InPhase(r, 0, r, esp, [], ph) else y < 0
  {
    y, esp := I16(r), I16(3 - 2 * r);
    ph := if r <= 16385 then Sound else Lifted;
    if r < 32768 {
      PhaseStarts(r);
    }
  }

  /** The start values, and the walk; a radius that turns negative as an int16_t starts no loop. */
  method WalkAll(r: nat, filled: bool) returns (offsets: seq<Offset>, ends: bool, ghost ys: seq<nat>)
    requires r < 65536
    ensures ends <==> !(filled && r == 32767)
    ensures ends ==> Outcome(r, ys, offsets, filled)
  {
    var y, esp, ph := Start(r);
    offsets, ends, ys := [], true, [];
    if y >= 0 {
      offsets, ends, ys := WalkOctant(y, esp, filled, ph);
    }
  }

  ghost predicate Outcome(r: nat, ys: seq<nat>, offsets: seq<Offset>, filled: bool) {
    && Exactly(offsets, ys, filled)
    && if r <= MAX_RADIUS then Walked(r, ys) else if r < 32768 then Spoilt(r, ys) else ys == []
  }

  /** The figure asked for. */
  ghost predicate Figure(r: nat, offsets: seq<Offset>, filled: bool) {
    if filled then IsDisc(r, offsets) else IsCircle(r, offsets)
  }

  lemma FigureExactly(r: nat, ys: seq<nat>, offsets: seq<Offset>, filled: bool)
    requires Outcome(r, ys, offsets, filled)
    ensures r <= MAX_RADIUS <==> Figure(r, offsets, filled)
  {
    if r <= MAX_RADIUS {
      if filled { WalkedDisc(r, ys, offsets); } else { WalkedCircle(r, ys, offsets); }
    } else if r < 32768 {
      SpoiltFigure(r, ys, offsets, filled);
    } else {
      NoFigure(r, offsets, filled);
    }
  }

  /** Paint_DrawCircle, for every radius an UWORD can hold: the call returns except for the filled circle of radius
      32767, and the figure is right if and only if the radius is at most 8345. */
  method DrawCircle(width: nat, height: nat, xCenter: nat, yCenter: nat, r: nat, filled: bool)
    returns (offsets: seq<Offset>, ends: bool)
    requires r < 65536
    ensures xCenter > width || yCenter >= height ==> ends && offsets == []
    ensures !(xCenter > width || yCenter >= height) ==> (ends <==> !(filled && r == 32767))
    ensures !(xCenter > width || yCenter >= height) && ends ==> (r <= 8345 <==> Figure(r, offsets, filled))
  {
    if xCenter > width || yCenter >= height {
      return [], true;
    }
    ghost var ys;
    offsets, ends, ys := WalkAll(r, filled);
    if ends {
      FigureExactly(r, ys, offsets, filled);
    }
  }
}
