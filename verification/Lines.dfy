/** Paint_DrawLine and Paint_DrawRectangle (Device/GUI_Paint.c), over the points they pass to Paint_DrawPoint. */
module Lines {
  import opened Arith

  const BACKGROUND: nat := 1

  datatype Point = Point(x: int, y: int)

  /** One call of Paint_DrawPoint. */
  datatype Dot = Dot(p: Point, color: nat)

  datatype Screen = Screen(width: nat, height: nat) {
    /** What the entry guards accept. */
    predicate Accepts(x: nat, y: nat) { x <= width && y <= height }
  }

  /** A segment, with its extent and its directions of travel. */
  datatype Segment = Segment(xs: nat, ys: nat, xe: nat, ye: nat) {
    function Dx(): nat { Abs(xe - xs) }
    function Dy(): nat { Abs(ye - ys) }
    function Sx(): int { if xs < xe then 1 else -1 }
    function Sy(): int { if ys < ye then 1 else -1 }

    /** The point reached after `jx` steps in x and `jy` steps in y. */
    function At(jx: nat, jy: nat): Point {
      Point(if xs < xe then xs + jx else xs - jx, if ys < ye then ys + jy else ys - jy)
    }

    function End(): Point { Point(xe, ye) }
  }

  lemma AtEnd(l: Segment, jx: nat, jy: nat)
    requires jx <= l.Dx() && jy <= l.Dy()
    ensures l.At(jx, jy).x == l.xe <==> jx == l.Dx()
    ensures l.At(jx, jy).y == l.ye <==> jy == l.Dy()
  {
  }

  // ----- the error term, with a = dx and b = |dy|

  /** The cumulative error after `jx` steps in x and `jy` steps in y: minus |dy| for each, plus dx for each. */
  function Esp(a: nat, b: nat, jx: nat, jy: nat): int
    decreases jx + jy
  {
    if jx > 0 then Esp(a, b, jx - 1, jy) - b else if jy > 0 then Esp(a, b, jx, jy - 1) + a else a - b
  }

  lemma {:induction false} EspClosed(a: nat, b: nat, jx: nat, jy: nat)
    ensures Esp(a, b, jx, jy) == (jy + 1) * a - (jx + 1) * b
    decreases jx + jy
  {
    if jx > 0 {
      EspClosed(a, b, jx - 1, jy);
      assert (jx + 1) * b == jx * b + b;
    } else if jy > 0 {
      EspClosed(a, b, jx, jy - 1);
      assert (jy + 1) * a == jy * a + a;
    }
  }

  /** The rule that fixes the position, with e = 2(jy*a - jx*b): on a steep line the column of each row is the one
      nearest the ideal line, the larger one on a tie; on a flat line the row of each column is the largest one that is
      not above the diagonal and has e <= a + 2b. */
  predicate Ruled(a: nat, b: nat, jx: nat, jy: nat, e: int) {
    if a <= b then b > 0 ==> 0 - b <= e < b
    else jy <= jx && e <= a + 2 * b && (jy == jx || e > 2 * b - a)
  }

  /** Steep lines are numbered by rows, flat ones by columns. */
  function Number(a: nat, b: nat, p: (nat, nat)): nat {
    if a <= b then p.1 else p.0
  }

  /** What holds whenever a point is about to be drawn. */
  ghost predicate Walking(a: nat, b: nat, jx: nat, jy: nat, esp: int) {
    && jx <= a && jy <= b
    && esp == Esp(a, b, jx, jy)
    && -Max(a, b) <= 2 * (esp - a + b) <= a + 2 * b
    && (a <= b ==> 2 * esp <= 2 * a - b)
    && (a > b ==> esp >= 1)
    && (b < a <= 2 * b ==> !(jx == a && jy == b))
    && Ruled(a, b, jx, jy, 2 * (esp - a + b))
  }

  /** How far a position is from the ideal line. */
  ghost predicate Near(a: nat, b: nat, jx: nat, jy: nat) {
    var e := 2 * (Esp(a, b, jx, jy) - a + b);
    jx <= a && jy <= b && -Max(a, b) <= e <= a + 2 * b && Ruled(a, b, jx, jy, e)
  }

  lemma NearMeans(a: nat, b: nat, jx: nat, jy: nat)
    ensures var e := 2 * (jy * a - jx * b);
            Near(a, b, jx, jy) <==> jx <= a && jy <= b && -Max(a, b) <= e <= a + 2 * b && Ruled(a, b, jx, jy, e)
  {
    EspClosed(a, b, jx, jy);
    assert (jy + 1) * a == jy * a + a && (jx + 1) * b == jx * b + b;
  }

  /** With 16-bit extents no value of the loop leaves 32 bits. */
  lemma WalkingFits(a: nat, b: nat, jx: nat, jy: nat, esp: int)
    requires Walking(a, b, jx, jy, esp) && a < 65536 && b < 65536
    ensures -0x8000_0000 <= 2 * esp < 0x8000_0000 && -0x8000_0000 <= 2 * (esp - b) && esp + a < 0x8000_0000
  {
  }

  lemma WalkingStarts(a: nat, b: nat)
    ensures Walking(a, b, 0, 0, a - b)
  {
  }

  /** The error term one step away in x, and in y. */
  lemma EspSteps(a: nat, b: nat, jx: nat, jy: nat)
    ensures Esp(a, b, jx + 1, jy) == Esp(a, b, jx, jy) - b
    ensures Esp(a, b, jx, jy + 1) == Esp(a, b, jx, jy) + a
  {
    EspClosed(a, b, jx, jy);
    EspClosed(a, b, jx, jy + 1);
    assert (jy + 2) * a == (jy + 1) * a + a;
  }

  /** Its value at the end and at the three positions before it. */
  lemma EspNearEnd(a: nat, b: nat)
    ensures Esp(a, b, a, b) == a - b
    ensures a >= 1 ==> Esp(a, b, a - 1, b) == a
    ensures b >= 1 ==> Esp(a, b, a, b - 1) == 0 - b
    ensures a >= 1 && b >= 1 ==> Esp(a, b, a - 1, b - 1) == 0
  {
    EspClosed(a, b, a, b);
    assert (b + 1) * a - (a + 1) * b == a - b;
    if a >= 1 { EspSteps(a, b, a - 1, b); }
    if b >= 1 { EspSteps(a, b, a, b - 1); }
    if a >= 1 && b >= 1 { EspSteps(a, b, a - 1, b - 1); }
  }

  /** A stop in the x test happens on the end point. */
  lemma StopX(a: nat, b: nat, jx: nat, jy: nat, esp: int)
    requires Walking(a, b, jx, jy, esp) && jx == a && 2 * esp + b >= 0
    ensures jy == b
  {
    EspClosed(a, b, jx, jy);
    assert (a + 1) * b == a * b + b;
    if jy < b {
      MulMono(a, jy + 1, b);
    }
  }

  /** A stop in the y test happens on the end column. */
  lemma StopY(a: nat, b: nat, jx: nat, jy: nat, esp: int)
    requires jx <= a && jy == b && esp == Esp(a, b, jx, jy) && 2 * esp <= a
    ensures jx == a
  {
    EspClosed(a, b, jx, jy);
    assert (b + 1) * a == a * b + a;
    if jx < a {
      MulMono(b, jx + 1, a);
    }
  }

  /** A step in both directions, in x only, in y only. */
  lemma StepBoth(a: nat, b: nat, jx: nat, jy: nat, esp: int)
    requires Walking(a, b, jx, jy, esp) && 2 * esp + b >= 0 && jx < a && 2 * (esp - b) <= a && jy < b
    ensures Walking(a, b, jx + 1, jy + 1, esp - b + a)
    ensures Number(a, b, (jx + 1, jy + 1)) == Number(a, b, (jx, jy)) + 1
  {
    EspSteps(a, b, jx, jy);
    EspSteps(a, b, jx + 1, jy);
    EspNearEnd(a, b);
  }

  lemma StepX(a: nat, b: nat, jx: nat, jy: nat, esp: int)
    requires Walking(a, b, jx, jy, esp) && 2 * esp + b >= 0 && jx < a && 2 * (esp - b) > a
    ensures Walking(a, b, jx + 1, jy, esp - b)
    ensures Number(a, b, (jx + 1, jy)) == Number(a, b, (jx, jy)) + 1
  {
    EspSteps(a, b, jx, jy);
    EspNearEnd(a, b);
  }

  lemma StepY(a: nat, b: nat, jx: nat, jy: nat, esp: int)
    requires Walking(a, b, jx, jy, esp) && 2 * esp + b < 0 && jy < b
    ensures Walking(a, b, jx, jy + 1, esp + a)
    ensures Number(a, b, (jx, jy + 1)) == Number(a, b, (jx, jy)) + 1
  {
    EspSteps(a, b, jx, jy);
    EspNearEnd(a, b);
  }

  /** If the loop stops in the y test right after a step in x, the end point is reached but not drawn. */
  lemma StopAfterX(a: nat, b: nat, jx: nat, jy: nat, esp: int)
    requires Walking(a, b, jx, jy, esp) && 2 * esp + b >= 0 && jx < a && 2 * (esp - b) <= a && jy == b
    ensures jx == a - 1 && b < a <= 2 * b
  {
    EspSteps(a, b, jx, jy);
    StopY(a, b, jx + 1, jy, esp - b);
    EspNearEnd(a, b);
  }

  // ----- the walk

  predicate KingMove(p: (nat, nat), q: (nat, nat)) {
    p != q && (q.0 == p.0 || q.0 == p.0 + 1) && (q.1 == p.1 || q.1 == p.1 + 1)
  }

  /** The position about to be drawn continues the trail: it is the start, or one king's move further on. */
  predicate Continues(steps: seq<(nat, nat)>, next: (nat, nat)) {
    if |steps| == 0 then next == (0, 0) else KingMove(steps[|steps| - 1], next)
  }

  /** The positions drawn so far, in order: from the start, one king's move at a time, all near the ideal line. */
  ghost predicate Trail(a: nat, b: nat, steps: seq<(nat, nat)>) {
    |steps| > 0 ==>
      var n := |steps| - 1;
      && Trail(a, b, steps[..n]) && Continues(steps[..n], steps[n])
      && Near(a, b, steps[n].0, steps[n].1) && Number(a, b, steps[n]) == n
  }

  lemma TrailGrows(a: nat, b: nat, steps: seq<(nat, nat)>, next: (nat, nat))
    requires Trail(a, b, steps) && Continues(steps, next) && Near(a, b, next.0, next.1)
    requires Number(a, b, next) == |steps|
    ensures Trail(a, b, steps + [next])
  {
    assert (steps + [next])[..|steps|] == steps;
  }

  /** The colours of a line: every third point of a dotted one is background. */
  function ColorAt(i: nat, color: nat, dotted: bool): nat {
    if dotted && i % 3 == 2 then BACKGROUND else color
  }

  /** What a drawn line is: `steps` are its positions, and the end point is drawn unless |dy| < dx <= 2|dy|. */
  ghost predicate Line(l: Segment, color: nat, dotted: bool, dots: seq<Dot>, steps: seq<(nat, nat)>) {
    var a, b := l.Dx(), l.Dy();
    && 0 < |dots| == |steps| <= a + b + 1 && Trail(a, b, steps)
    && Dotted(l, color, dotted, dots, steps)
    && ((a, b) in steps <==> !(b < a <= 2 * b))
    && var last := steps[|steps| - 1];
       last.1 == b && last.0 == if b < a <= 2 * b then a - 1 else a
  }

  /** The two tests at the bottom of the loop of Paint_DrawLine: move to the next point, or stop. */
  method Advance(l: Segment, x: int, y: int, esp: int, dx: int, dy: int, ghost jx: nat, ghost jy: nat)
    returns (stop: bool, x': int, y': int, esp': int, ghost jx': nat, ghost jy': nat)
    requires dx == l.Dx() && dy == 0 - l.Dy()
    requires Walking(l.Dx(), l.Dy(), jx, jy, esp) && Point(x, y) == l.At(jx, jy)
    ensures Point(x', y') == l.At(jx', jy')
    ensures !stop ==> Walking(l.Dx(), l.Dy(), jx', jy', esp') && KingMove((jx, jy), (jx', jy'))
    ensures !stop ==> Number(l.Dx(), l.Dy(), (jx', jy')) == Number(l.Dx(), l.Dy(), (jx, jy)) + 1
    ensures !stop ==> (jx, jy) != (l.Dx(), l.Dy())
    ensures stop ==> Point(x', y') == l.End() && Stopped(l.Dx(), l.Dy(), jx, jy)
  {
    stop, x', y', esp', jx', jy' := false, x, y, esp, jx, jy;
    ghost var a, b := l.Dx(), l.Dy();
    AtEnd(l, jx, jy);
    AtNext(l, jx, jy);
    if 2 * esp' >= dy {
      if x' == l.xe {
        StopX(a, b, jx, jy, esp);
        stop := true;
        return;
      }
      esp' := esp' + dy;
      x' := x' + l.Sx();
      jx' := jx' + 1;
    }
    if 2 * esp' <= dx {
      if y' == l.ye {
        StopInY(a, b, jx, jy, esp, jx');
        stop := true;
        return;
      }
      StepInY(a, b, jx, jy, esp, jx');
      esp' := esp' + dx;
      y' := y' + l.Sy();
      jy' := jy' + 1;
    } else {
      StepX(a, b, jx, jy, esp);
    }
  }

  /** The second test, after a step in x or without one. */
  lemma StopInY(a: nat, b: nat, jx: nat, jy: nat, esp: int, jx': nat)
    requires Walking(a, b, jx, jy, esp) && jy == b
    requires if 2 * esp + b >= 0 then jx < a && jx' == jx + 1 && 2 * (esp - b) <= a else jx' == jx && 2 * esp <= a
    ensures Stopped(a, b, jx, jy) && jx' == a
  {
    if jx' == jx { StopY(a, b, jx, jy, esp); } else { StopAfterX(a, b, jx, jy, esp); }
  }

  lemma StepInY(a: nat, b: nat, jx: nat, jy: nat, esp: int, jx': nat)
    requires Walking(a, b, jx, jy, esp) && jy < b
    requires if 2 * esp + b >= 0 then jx < a && jx' == jx + 1 && 2 * (esp - b) <= a else jx' == jx && 2 * esp <= a
    ensures Walking(a, b, jx', jy + 1, (if jx' == jx then esp else esp - b) + a)
    ensures Number(a, b, (jx', jy + 1)) == Number(a, b, (jx, jy)) + 1
  {
    if jx' == jx { StepY(a, b, jx, jy, esp); } else { StepBoth(a, b, jx, jy, esp); }
  }

  /** One step on from a position inside the segment's box. */
  lemma AtNext(l: Segment, jx: nat, jy: nat)
    ensures jx < l.Dx() ==> l.At(jx + 1, jy).x == l.At(jx, jy).x + l.Sx()
    ensures jy < l.Dy() ==> l.At(jx, jy + 1).y == l.At(jx, jy).y + l.Sy()
    ensures jx <= l.Dx() && jy <= l.Dy() && (jx, jy) == (l.Dx(), l.Dy()) ==> l.At(jx, jy) == l.End()
  {
  }

  /** Where the last point is when the loop stops. */
  ghost predicate Stopped(a: nat, b: nat, jx: nat, jy: nat) {
    jy == b && if b < a <= 2 * b then jx == a - 1 else jx == a
  }

  /** The dots are the steps, coloured. */
  ghost predicate Dotted(l: Segment, color: nat, dotted: bool, dots: seq<Dot>, steps: seq<(nat, nat)>) {
    && |dots| == |steps|
    && (|dots| > 0 ==>
          var n := |dots| - 1;
          && Dotted(l, color, dotted, dots[..n], steps[..n])
          && dots[n] == Dot(l.At(steps[n].0, steps[n].1), ColorAt(n, color, dotted)))
  }

  lemma {:induction false} DottedAt(l: Segment, color: nat, dotted: bool, dots: seq<Dot>, steps: seq<(nat, nat)>,
                                    i: nat)
    requires Dotted(l, color, dotted, dots, steps) && i < |dots|
    ensures dots[i] == Dot(l.At(steps[i].0, steps[i].1), ColorAt(i, color, dotted))
    decreases |dots|
  {
    if i < |dots| - 1 {
      DottedAt(l, color, dotted, dots[..|dots| - 1], steps[..|dots| - 1], i);
    }
  }

  /** Before a point is drawn. */
  ghost predicate Going(l: Segment, color: nat, dotted: bool, dots: seq<Dot>, steps: seq<(nat, nat)>, p: (nat, nat)) {
    && Trail(l.Dx(), l.Dy(), steps) && Dotted(l, color, dotted, dots, steps)
    && Continues(steps, p) && (l.Dx(), l.Dy()) !in steps && |steps| == Number(l.Dx(), l.Dy(), p)
  }

  /** After the point `p` has been drawn. */
  ghost predicate Drawn(l: Segment, color: nat, dotted: bool, dots: seq<Dot>, steps: seq<(nat, nat)>, p: (nat, nat)) {
    && Trail(l.Dx(), l.Dy(), steps) && Dotted(l, color, dotted, dots, steps)
    && |steps| == Number(l.Dx(), l.Dy(), p) + 1 && steps[|steps| - 1] == p && (l.Dx(), l.Dy()) !in steps[..|steps| - 1]
  }

  lemma DrawOne(l: Segment, color: nat, dotted: bool, dots: seq<Dot>, steps: seq<(nat, nat)>, p: (nat, nat),
                esp: int, shade: nat)
    requires Going(l, color, dotted, dots, steps, p) && Walking(l.Dx(), l.Dy(), p.0, p.1, esp)
    requires shade == ColorAt(|dots|, color, dotted)
    ensures Drawn(l, color, dotted, dots + [Dot(l.At(p.0, p.1), shade)], steps + [p], p)
  {
    TrailGrows(l.Dx(), l.Dy(), steps, p);
    assert (steps + [p])[..|steps|] == steps;
    var next := dots + [Dot(l.At(p.0, p.1), shade)];
    assert next[..|dots|] == dots;
  }

  lemma GoOn(l: Segment, color: nat, dotted: bool, dots: seq<Dot>, steps: seq<(nat, nat)>, p: (nat, nat), q: (nat, nat))
    requires Drawn(l, color, dotted, dots, steps, p) && KingMove(p, q) && p != (l.Dx(), l.Dy())
    requires Number(l.Dx(), l.Dy(), q) == Number(l.Dx(), l.Dy(), p) + 1
    ensures Going(l, color, dotted, dots, steps, q)
  {
    assert steps == steps[..|steps| - 1] + [p];
  }

  lemma Finish(l: Segment, color: nat, dotted: bool, dots: seq<Dot>, steps: seq<(nat, nat)>, p: (nat, nat))
    requires Drawn(l, color, dotted, dots, steps, p) && Stopped(l.Dx(), l.Dy(), p.0, p.1)
    requires p.0 <= l.Dx() && p.1 <= l.Dy()
    ensures Line(l, color, dotted, dots, steps)
  {
    assert steps == steps[..|steps| - 1] + [p];
  }

  /** The dotted-line counter at the top of the loop. */
  method NextShade(color: nat, dotted: bool, dottedLen: nat, ghost n: nat) returns (shade: nat, len: nat)
    requires dotted ==> dottedLen == n % 3
    ensures shade == ColorAt(n, color, dotted) && (dotted ==> len == (n + 1) % 3)
  {
    shade, len := color, dottedLen + 1;
    if dotted && len % 3 == 0 {
      shade, len := BACKGROUND, 0;
    }
  }

  /** Paint_DrawLine */
  method DrawLine(s: Screen, l: Segment, color: nat, dotted: bool)
    returns (dots: seq<Dot>, ghost steps: seq<(nat, nat)>)
    ensures !(s.Accepts(l.xs, l.ys) && s.Accepts(l.xe, l.ye)) ==> dots == []
    ensures s.Accepts(l.xs, l.ys) && s.Accepts(l.xe, l.ye) ==> Line(l, color, dotted, dots, steps)
    ensures s.Accepts(l.xs, l.ys) && s.Accepts(l.xe, l.ye) ==> IsLine(l, color, dotted, dots)
  {
    dots, steps := [], [];
    if l.xs > s.width || l.ys > s.height || l.xe > s.width || l.ye > s.height {
      return;
    }
    dots, steps := WalkLine(l, color, dotted);
    LineIsLine(l, color, dotted, dots, steps);
  }

  /** Its loop. */
  method WalkLine(l: Segment, color: nat, dotted: bool) returns (dots: seq<Dot>, ghost steps: seq<(nat, nat)>)
    ensures Line(l, color, dotted, dots, steps)
  {
    dots, steps := [], [];
    var x, y := l.xs as int, l.ys as int;
    var dx, dy := Abs(l.xe - l.xs) as int, 0 - Abs(l.ye - l.ys);
    var esp, dottedLen := dx + dy, 0;
    ghost var jx: nat, jy: nat := 0, 0;
    WalkingStarts(l.Dx(), l.Dy());
    var stop := false;
    while !stop
      invariant if stop then Line(l, color, dotted, dots, steps)
                else Ready(l, color, dotted, dots, steps, x, y, esp, dottedLen, jx, jy)
      decreases !stop, l.Dx() + l.Dy() - jx - jy
    {
      dots, stop, x, y, esp, dottedLen, steps, jx, jy :=
        DrawNext(l, color, dotted, dots, x, y, esp, dx, dy, dottedLen, steps, jx, jy);
    }
  }

  /** What holds at the top of the loop. */
  ghost predicate Ready(l: Segment, color: nat, dotted: bool, dots: seq<Dot>, steps: seq<(nat, nat)>,
                        x: int, y: int, esp: int, dottedLen: nat, jx: nat, jy: nat)
  {
    && Walking(l.Dx(), l.Dy(), jx, jy, esp) && Point(x, y) == l.At(jx, jy)
    && Going(l, color, dotted, dots, steps, (jx, jy)) && (dotted ==> dottedLen == |dots| % 3)
  }

  /** One turn of the loop. */
  method DrawNext(l: Segment, color: nat, dotted: bool, dots: seq<Dot>, x: int, y: int, esp: int, dx: int, dy: int,
                  dottedLen: nat, ghost steps: seq<(nat, nat)>, ghost jx: nat, ghost jy: nat)
    returns (dots': seq<Dot>, stop: bool, x': int, y': int, esp': int, len: nat,
             ghost steps': seq<(nat, nat)>, ghost jx': nat, ghost jy': nat)
    requires dx == l.Dx() && dy == 0 - l.Dy() && Ready(l, color, dotted, dots, steps, x, y, esp, dottedLen, jx, jy)
    ensures if stop then Line(l, color, dotted, dots', steps')
            else Ready(l, color, dotted, dots', steps', x', y', esp', len, jx', jy') && jx + jy < jx' + jy'
  {
    var shade;
    shade, len := NextShade(color, dotted, dottedLen, |dots|);
    DrawOne(l, color, dotted, dots, steps, (jx, jy), esp, shade);
    dots', steps' := dots + [Dot(Point(x, y), shade)], steps + [(jx, jy)];
    stop, x', y', esp', jx', jy' := Advance(l, x, y, esp, dx, dy, jx, jy);
    if stop {
      Finish(l, color, dotted, dots', steps', (jx, jy));
    } else {
      GoOn(l, color, dotted, dots', steps', (jx, jy), (jx', jy'));
    }
  }

  // ----- what a line looks like

  lemma {:induction false} TrailAt(a: nat, b: nat, steps: seq<(nat, nat)>, i: nat)
    requires Trail(a, b, steps) && i < |steps|
    ensures Near(a, b, steps[i].0, steps[i].1) && Number(a, b, steps[i]) == i
    ensures if i == 0 then steps[0] == (0, 0) else KingMove(steps[i - 1], steps[i])
    decreases |steps|
  {
    if i < |steps| - 1 {
      TrailAt(a, b, steps[..|steps| - 1], i);
    }
  }

  /** Some call passes the point `p`. */
  ghost predicate Hits(dots: seq<Dot>, p: Point) {
    exists i :: 0 <= i < |dots| && dots[i].p == p
  }

  predicate Between(v: int, from: int, to: int) {
    from <= v <= to || to <= v <= from
  }

  /** Point number `i` lies in the bounding box and near the ideal line, next to the one before, in the row or column of
      that number and where the rule puts it, in its colour: white for every third point of a dotted line. */
  ghost predicate DotOfLine(l: Segment, color: nat, dotted: bool, dots: seq<Dot>, i: nat)
    requires i < |dots|
  {
    var p := dots[i].p;
    && Spot(l, p, i)
    && (i == 0 ==> p == Point(l.xs, l.ys))
    && (i > 0 ==> p != dots[i - 1].p && Abs(p.x - dots[i - 1].p.x) <= 1 && Abs(p.y - dots[i - 1].p.y) <= 1)
    && dots[i].color == if dotted && i % 3 == 2 then 1 else color
  }

  /** The place of point number `i`. */
  ghost predicate Spot(l: Segment, p: Point, i: nat) {
    var a, b, jx, jy := l.Dx(), l.Dy(), Abs(p.x - l.xs), Abs(p.y - l.ys);
    && Between(p.x, l.xs, l.xe) && Between(p.y, l.ys, l.ye)
    && -Max(a, b) <= 2 * (jy * a - jx * b) <= a + 2 * b
    && i == (if a <= b then jy else jx) && Ruled(a, b, jx, jy, 2 * (jy * a - jx * b))
  }

  /** Every row of a steep line and every column of a flat one, less the last if the end point is not drawn. */
  function PointCount(a: nat, b: nat): nat {
    if a <= b then b + 1 else if a <= 2 * b then a else a + 1
  }

  /** What a drawn line is, in terms of its points alone. */
  ghost predicate IsLine(l: Segment, color: nat, dotted: bool, dots: seq<Dot>) {
    && 0 < |dots| <= l.Dx() + l.Dy() + 1
    && |dots| == PointCount(l.Dx(), l.Dy())
    && (forall i :: 0 <= i < |dots| ==> DotOfLine(l, color, dotted, dots, i))
    && (Hits(dots, l.End()) <==> !(l.Dy() < l.Dx() <= 2 * l.Dy()))
  }

  lemma LineIsLine(l: Segment, color: nat, dotted: bool, dots: seq<Dot>, steps: seq<(nat, nat)>)
    requires Line(l, color, dotted, dots, steps)
    ensures IsLine(l, color, dotted, dots)
  {
    EndPointDrawn(l, color, dotted, dots, steps);
    TrailAt(l.Dx(), l.Dy(), steps, |steps| - 1);
    forall i | 0 <= i < |dots|
      ensures DotOfLine(l, color, dotted, dots, i)
    {
      LineMeaning(l, color, dotted, dots, steps, i);
    }
  }

  /** Every point of a line lies in the bounding box and within the stated distance of the ideal line; the line
      starts at the start, moves by at most one pixel in each direction, and is coloured in threes if dotted. */
  lemma LineMeaning(l: Segment, color: nat, dotted: bool, dots: seq<Dot>, steps: seq<(nat, nat)>, i: nat)
    requires Line(l, color, dotted, dots, steps) && i < |dots|
    ensures DotOfLine(l, color, dotted, dots, i)
  {
    var jx, jy := steps[i].0, steps[i].1;
    TrailAt(l.Dx(), l.Dy(), steps, i);
    DottedAt(l, color, dotted, dots, steps, i);
    SpotOf(l, jx, jy, i);
    if i > 0 {
      TrailAt(l.Dx(), l.Dy(), steps, i - 1);
      DottedAt(l, color, dotted, dots, steps, i - 1);
      DotMove(l, steps[i - 1], steps[i]);
    }
  }

  lemma SpotOf(l: Segment, jx: nat, jy: nat, i: nat)
    requires Near(l.Dx(), l.Dy(), jx, jy) && Number(l.Dx(), l.Dy(), (jx, jy)) == i
    ensures Spot(l, l.At(jx, jy), i)
  {
    NearMeans(l.Dx(), l.Dy(), jx, jy);
    DotPlace(l, jx, jy);
  }

  lemma DotPlace(l: Segment, jx: nat, jy: nat)
    requires jx <= l.Dx() && jy <= l.Dy()
    ensures var p := l.At(jx, jy);
            Between(p.x, l.xs, l.xe) && Between(p.y, l.ys, l.ye) && Abs(p.x - l.xs) == jx && Abs(p.y - l.ys) == jy
  {
  }

  lemma DotMove(l: Segment, j: (nat, nat), k: (nat, nat))
    requires KingMove(j, k)
    ensures var p, q := l.At(j.0, j.1), l.At(k.0, k.1); p != q && Abs(q.x - p.x) <= 1 && Abs(q.y - p.y) <= 1
  {
  }

  /** The rule leaves one position for each number. */
  lemma RuledUnique(a: nat, b: nat, jx: nat, jy: nat, kx: nat, ky: nat)
    requires jx <= a && jy <= b && kx <= a && ky <= b && Number(a, b, (jx, jy)) == Number(a, b, (kx, ky))
    requires Ruled(a, b, jx, jy, 2 * (jy * a - jx * b)) && Ruled(a, b, kx, ky, 2 * (ky * a - kx * b))
    ensures (jx, jy) == (kx, ky)
  {
    if a <= b {
      if jx < kx { ColumnsApart(a, b, jy, jx, kx); } else if kx < jx { ColumnsApart(a, b, jy, kx, jx); }
    } else {
      if jy < ky { RowsApart(a, b, jx, jy, ky); } else if ky < jy { RowsApart(a, b, jx, ky, jy); }
    }
  }

  lemma ColumnsApart(a: nat, b: nat, jy: nat, jx: nat, kx: nat)
    requires jx < kx
    ensures 2 * (jy * a - kx * b) <= 2 * (jy * a - jx * b) - 2 * b
  {
    MulMono(b, jx + 1, kx);
    assert (jx + 1) * b == jx * b + b;
  }

  lemma RowsApart(a: nat, b: nat, jx: nat, jy: nat, ky: nat)
    requires jy < ky
    ensures 2 * (ky * a - jx * b) >= 2 * (jy * a - jx * b) + 2 * a
  {
    MulMono(a, jy + 1, ky);
    assert (jy + 1) * a == jy * a + a;
  }

  lemma PointOf(l: Segment, p: Point, q: Point)
    requires Between(p.x, l.xs, l.xe) && Between(p.y, l.ys, l.ye)
    requires Between(q.x, l.xs, l.xe) && Between(q.y, l.ys, l.ye)
    requires Abs(p.x - l.xs) == Abs(q.x - l.xs) && Abs(p.y - l.ys) == Abs(q.y - l.ys)
    ensures p == q
  {
  }

  /** Only one sequence of points meets the contract of Paint_DrawLine. */
  lemma LineUnique(l: Segment, color: nat, dotted: bool, dots: seq<Dot>, dots': seq<Dot>)
    requires IsLine(l, color, dotted, dots) && IsLine(l, color, dotted, dots')
    ensures dots == dots'
  {
    forall i | 0 <= i < |dots|
      ensures dots[i] == dots'[i]
    {
      DotUnique(l, color, dotted, dots, dots', i);
    }
  }

  lemma DotUnique(l: Segment, color: nat, dotted: bool, dots: seq<Dot>, dots': seq<Dot>, i: nat)
    requires i < |dots| == |dots'|
    requires DotOfLine(l, color, dotted, dots, i) && DotOfLine(l, color, dotted, dots', i)
    ensures dots[i] == dots'[i]
  {
    SpotUnique(l, dots[i].p, dots'[i].p, i);
  }

  lemma SpotUnique(l: Segment, p: Point, q: Point, i: nat)
    requires Spot(l, p, i) && Spot(l, q, i)
    ensures p == q
  {
    RuledUnique(l.Dx(), l.Dy(), Abs(p.x - l.xs), Abs(p.y - l.ys), Abs(q.x - l.xs), Abs(q.y - l.ys));
    PointOf(l, p, q);
  }

  /** The end point is drawn exactly if not |dy| < dx <= 2|dy|. */
  lemma EndPointDrawn(l: Segment, color: nat, dotted: bool, dots: seq<Dot>, steps: seq<(nat, nat)>)
    requires Line(l, color, dotted, dots, steps)
    ensures Hits(dots, l.End()) <==> !(l.Dy() < l.Dx() <= 2 * l.Dy())
  {
    var a, b := l.Dx(), l.Dy();
    if (a, b) in steps {
      var i :| 0 <= i < |steps| && steps[i] == (a, b);
      DottedAt(l, color, dotted, dots, steps, i);
      assert dots[i].p == l.End();
    }
    if Hits(dots, l.End()) {
      var i :| 0 <= i < |dots| && dots[i].p == l.End();
      DottedAt(l, color, dotted, dots, steps, i);
      TrailAt(a, b, steps, i);
      AtEnd(l, steps[i].0, steps[i].1);
    }
  }

  /** The line from (0, 0) to (2, 1) does not draw its end point. */
  lemma EndPointMissed(color: nat, dotted: bool, dots: seq<Dot>)
    requires IsLine(Segment(0, 0, 2, 1), color, dotted, dots)
    ensures !Hits(dots, Point(2, 1))
  {
  }

  lemma {:induction false} FlatTrail(a: nat, b: nat, steps: seq<(nat, nat)>, i: nat)
    requires Trail(a, b, steps) && i < |steps| && (a == 0 || b == 0)
    ensures steps[i] == if b == 0 then (i, 0) else (0, i)
  {
    TrailAt(a, b, steps, i);
    if i > 0 {
      FlatTrail(a, b, steps, i - 1);
    }
  }

  /** A horizontal or vertical line passes exactly its closed segment. */
  lemma AxisLine(l: Segment, color: nat, dotted: bool, dots: seq<Dot>, steps: seq<(nat, nat)>, p: Point)
    requires Line(l, color, dotted, dots, steps) && (l.xs == l.xe || l.ys == l.ye)
    ensures Hits(dots, p) <==> Between(p.x, l.xs, l.xe) && Between(p.y, l.ys, l.ye)
  {
    var a, b := l.Dx(), l.Dy();
    var n := |steps| - 1;
    FlatTrail(a, b, steps, n);
    assert n == a + b;
    if Hits(dots, p) {
      var i :| 0 <= i < |dots| && dots[i].p == p;
      LineMeaning(l, color, dotted, dots, steps, i);
    }
    if Between(p.x, l.xs, l.xe) && Between(p.y, l.ys, l.ye) {
      var i := Abs(p.x - l.xs) + Abs(p.y - l.ys);
      FlatTrail(a, b, steps, i);
      DottedAt(l, color, dotted, dots, steps, i);
      assert dots[i].p == p;
    }
  }

  lemma HitsConcat(u: seq<Dot>, v: seq<Dot>, p: Point)
    ensures Hits(u + v, p) <==> Hits(u, p) || Hits(v, p)
  {
    var w := u + v;
    if Hits(w, p) {
      var i :| 0 <= i < |w| && w[i].p == p;
      if i < |u| { assert u[i].p == p; } else { assert v[i - |u|].p == p; }
    }
    if Hits(u, p) {
      var i :| 0 <= i < |u| && u[i].p == p;
      assert w[i].p == p;
    }
    if Hits(v, p) {
      var i :| 0 <= i < |v| && v[i].p == p;
      assert w[|u| + i].p == p;
    }
  }

  /** A line of a rectangle: accepted by the screen and parallel to an axis. */
  method DrawSide(s: Screen, xs: nat, ys: nat, xe: nat, ye: nat, color: nat) returns (dots: seq<Dot>)
    requires s.Accepts(xs, ys) && s.Accepts(xe, ye) && (xs == xe || ys == ye)
    ensures forall p :: Hits(dots, p) <==> Between(p.x, xs, xe) && Between(p.y, ys, ye)
    ensures forall i :: 0 <= i < |dots| ==> dots[i].color == color
  {
    var l := Segment(xs, ys, xe, ye);
    ghost var steps;
    dots, steps := DrawLine(s, l, color, false);
    forall i | 0 <= i < |dots|
      ensures dots[i].color == color
    {
      DottedAt(l, color, false, dots, steps, i);
    }
    forall p
      ensures Hits(dots, p) <==> Between(p.x, xs, xe) && Between(p.y, ys, ye)
    {
      AxisLine(l, color, false, dots, steps, p);
    }
  }

  method Append(u: seq<Dot>, v: seq<Dot>) returns (w: seq<Dot>)
    ensures w == u + v && forall p :: Hits(w, p) <==> Hits(u, p) || Hits(v, p)
  {
    w := u + v;
    forall p
      ensures Hits(w, p) <==> Hits(u, p) || Hits(v, p)
    {
      HitsConcat(u, v, p);
    }
  }

  /** Paint_DrawRectangle: the perimeter, or, filled, the closed x range times the rows from ys up to but not
      including ye; every point in the given colour. */
  method DrawRectangle(s: Screen, xs: nat, ys: nat, xe: nat, ye: nat, color: nat, filled: bool) returns (dots: seq<Dot>)
    ensures !(s.Accepts(xs, ys) && s.Accepts(xe, ye)) ==> dots == []
    ensures forall i :: 0 <= i < |dots| ==> dots[i].color == color
    ensures s.Accepts(xs, ys) && s.Accepts(xe, ye) && filled ==>
              forall p :: Hits(dots, p) <==> Between(p.x, xs, xe) && ys <= p.y < ye
    ensures s.Accepts(xs, ys) && s.Accepts(xe, ye) && !filled ==>
              forall p :: Hits(dots, p) <==>
                (Between(p.x, xs, xe) && (p.y == ys || p.y == ye)) || ((p.x == xs || p.x == xe) && Between(p.y, ys, ye))
  {
    dots := [];
    if xs > s.width || ys > s.height || xe > s.width || ye > s.height {
      return;
    }
    if filled {
      var y := ys;
      while y < ye
        invariant ys <= y && (ys <= ye ==> y <= ye) && (ys > ye ==> y == ys)
        invariant forall p :: Hits(dots, p) <==> Between(p.x, xs, xe) && ys <= p.y < y
        invariant forall i :: 0 <= i < |dots| ==> dots[i].color == color
      {
        var row := DrawSide(s, xs, y, xe, y, color);
        dots := Append(dots, row);
        y := y + 1;
      }
    } else {
      var side := DrawSide(s, xs, ys, xe, ys, color);
      dots := Append(dots, side);
      side := DrawSide(s, xs, ys, xs, ye, color);
      dots := Append(dots, side);
      side := DrawSide(s, xe, ye, xe, ys, color);
      dots := Append(dots, side);
      side := DrawSide(s, xe, ye, xs, ye, color);
      dots := Append(dots, side);
    }
  }
}
