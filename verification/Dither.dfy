/** Floyd-Steinberg error diffusion (tools/彩图转四色距离法和灰度法合成big.py), over real numbers. */
module Dither {
  type Grid = seq<seq<real>>

  predicate Shape(g: Grid, h: nat, w: nat) {
    |g| == h && forall y :: 0 <= y < h ==> |g[y]| == w
  }

  function Zeros(h: nat, w: nat): (g: Grid)
    ensures Shape(g, h, w)
  {
    seq(h, _ => seq(w, _ => 0.0))
  }

  function Set(g: Grid, y: nat, x: nat, v: real): Grid
    requires y < |g| && x < |g[y]|
  {
    g[y := g[y][x := v]]
  }

  // ----- sums, in scan order

  function RowSum(r: seq<real>, n: nat): real
    requires n <= |r|
  {
    if n == 0 then 0.0 else RowSum(r, n - 1) + r[n - 1]
  }

  function RowsSum(g: Grid, n: nat): real
    requires n <= |g|
  {
    if n == 0 then 0.0 else RowsSum(g, n - 1) + RowSum(g[n - 1], |g[n - 1]|)
  }

  /** The sum of the cells before (y, x) in scan order. */
  function SumTo(g: Grid, y: nat, x: nat): real
    requires y < |g| && x <= |g[y]|
  {
    RowsSum(g, y) + RowSum(g[y], x)
  }

  /** Two grids that agree on those cells. */
  ghost predicate Agree(g: Grid, g': Grid, h: nat, w: nat, cy: nat, cx: nat) {
    && Shape(g, h, w) && Shape(g', h, w)
    && forall y, x :: 0 <= y < h && 0 <= x < w && Done(y, x, cy, cx) ==> g[y][x] == g'[y][x]
  }

  predicate Done(y: int, x: int, cy: int, cx: int) {
    y < cy || (y == cy && x < cx)
  }

  lemma {:induction false} RowSumAgree(r: seq<real>, r': seq<real>, n: nat)
    requires n <= |r| && n <= |r'| && forall x :: 0 <= x < n ==> r[x] == r'[x]
    ensures RowSum(r, n) == RowSum(r', n)
  {
    if n > 0 {
      RowSumAgree(r, r', n - 1);
    }
  }

  lemma {:induction false} RowsSumAgree(g: Grid, g': Grid, h: nat, w: nat, cy: nat, cx: nat, n: nat)
    requires Agree(g, g', h, w, cy, cx) && n <= cy <= h
    ensures RowsSum(g, n) == RowsSum(g', n)
  {
    if n > 0 {
      RowsSumAgree(g, g', h, w, cy, cx, n - 1);
      RowSumAgree(g[n - 1], g'[n - 1], w);
    }
  }

  lemma SumToAgree(g: Grid, g': Grid, h: nat, w: nat, cy: nat, cx: nat)
    requires Agree(g, g', h, w, cy, cx) && cy < h && cx <= w
    ensures SumTo(g, cy, cx) == SumTo(g', cy, cx)
  {
    RowsSumAgree(g, g', h, w, cy, cx, cy);
    RowSumAgree(g[cy], g'[cy], cx);
  }

  function Total(g: Grid): real {
    RowsSum(g, |g|)
  }

  lemma {:induction false} RowSumSet(r: seq<real>, x: nat, v: real, n: nat)
    requires x < |r| && n <= |r|
    ensures RowSum(r[x := v], n) == RowSum(r, n) + (if x < n then v - r[x] else 0.0)
  {
    if n > 0 {
      RowSumSet(r, x, v, n - 1);
    }
  }

  lemma {:induction false} RowsSumSet(g: Grid, y: nat, x: nat, v: real, n: nat)
    requires y < |g| && x < |g[y]| && n <= |g|
    ensures RowsSum(Set(g, y, x, v), n) == RowsSum(g, n) + (if y < n then v - g[y][x] else 0.0)
  {
    if n > 0 {
      RowsSumSet(g, y, x, v, n - 1);
      if y == n - 1 {
        RowSumSet(g[y], x, v, |g[y]|);
      }
    }
  }

  lemma SumToSet(g: Grid, y: nat, x: nat, v: real, cy: nat, cx: nat)
    requires y < |g| && x < |g[y]| && cy < |g| && cx <= |g[cy]|
    ensures SumTo(Set(g, y, x, v), cy, cx)
         == SumTo(g, cy, cx) + (if y < cy || (y == cy && x < cx) then v - g[y][x] else 0.0)
  {
    RowsSumSet(g, y, x, v, cy);
    if y == cy {
      RowSumSet(g[y], x, v, cx);
    }
  }

  // ----- where the error goes

  /** The share, in sixteenths, that the pixel `dy` rows down and `dx` columns right receives. */
  function Share(dy: int, dx: int): int {
    if dy == 0 && dx == 1 then 7
    else if dy == 1 && dx == -1 then 3
    else if dy == 1 && dx == 0 then 5
    else if dy == 1 && dx == 1 then 1
    else 0
  }

  /** The part of a pixel's error, in sixteenths, that stays inside the image. */
  function Inside(h: nat, w: nat, y: nat, x: nat): int {
    (if x + 1 < w then 7 else 0) + Below(h, w, y, x)
  }

  function Below(h: nat, w: nat, y: nat, x: nat): int {
    if y + 1 < h then (if x > 0 then 3 else 0) + 5 + (if x + 1 < w then 1 else 0) else 0
  }

  /** Sixteenths of an error. */
  function Part(e: real, sixteenths: int): real {
    e * sixteenths as real / 16.0
  }

  lemma PartSum(e: real, a: int, b: int)
    ensures Part(e, a) + Part(e, b) == Part(e, a + b)
    ensures Part(e, 0) == 0.0 && Part(e, 16) == e
  {
  }

  /** `after` is `before` with the shares of the error `e` of pixel (y, x) that go to row `row` added. */
  ghost predicate SpreadRow(before: Grid, after: Grid, h: nat, w: nat, y: nat, x: nat, e: real, row: int) {
    && Shape(before, h, w) && Shape(after, h, w)
    && forall y', x' :: 0 <= y' < h && 0 <= x' < w ==>
         after[y'][x'] == before[y'][x'] + (if y' == row then Part(e, Share(y' - y, x' - x)) else 0.0)
  }

  /** `after` is `before` with the error `e` of pixel (y, x) spread over its neighbours. */
  ghost predicate Spread(before: Grid, after: Grid, h: nat, w: nat, y: nat, x: nat, e: real) {
    && Shape(before, h, w) && Shape(after, h, w)
    && forall y', x' :: 0 <= y' < h && 0 <= x' < w ==>
         after[y'][x'] == before[y'][x'] + Part(e, Share(y' - y, x' - x))
  }

  lemma SpreadRows(before: Grid, middle: Grid, after: Grid, h: nat, w: nat, y: nat, x: nat, e: real)
    requires SpreadRow(before, middle, h, w, y, x, e, y) && SpreadRow(middle, after, h, w, y, x, e, y + 1)
    ensures Spread(before, after, h, w, y, x, e)
  {
    PartSum(e, 0, 0);
  }

  /** One addition to the error array. */
  method Add(g: Grid, h: nat, w: nat, y: nat, x: nat, d: real) returns (g': Grid)
    requires Shape(g, h, w) && y < h && x < w
    ensures g' == Set(g, y, x, g[y][x] + d) && Shape(g', h, w) && Total(g') == Total(g) + d
  {
    RowsSumSet(g, y, x, g[y][x] + d, |g|);
    g' := Set(g, y, x, g[y][x] + d);
  }

  method DiffuseRight(g: Grid, h: nat, w: nat, y: nat, x: nat, e: real) returns (g': Grid)
    requires Shape(g, h, w) && y < h && x < w
    ensures SpreadRow(g, g', h, w, y, x, e, y)
    ensures Total(g') == Total(g) + Part(e, if x + 1 < w then 7 else 0)
  {
    PartSum(e, 0, 0);
    g' := g;
    if x < w - 1 {
      g' := Add(g', h, w, y, x + 1, Part(e, 7));
    }
  }

  method DiffuseBelow(g: Grid, h: nat, w: nat, y: nat, x: nat, e: real) returns (g': Grid)
    requires Shape(g, h, w) && y < h && x < w
    ensures SpreadRow(g, g', h, w, y, x, e, y + 1)
    ensures Total(g') == Total(g) + Part(e, Below(h, w, y, x))
  {
    PartSum(e, 3, 5);
    PartSum(e, 5, 1);
    PartSum(e, 8, 1);
    g' := g;
    if y < h - 1 {
      if x > 0 {
        g' := Add(g', h, w, y + 1, x - 1, Part(e, 3));
      }
      g' := Add(g', h, w, y + 1, x, Part(e, 5));
      if x < w - 1 {
        g' := Add(g', h, w, y + 1, x + 1, Part(e, 1));
      }
    }
  }

  /** The four guarded additions. */
  method Diffuse(g: Grid, h: nat, w: nat, y: nat, x: nat, e: real) returns (g': Grid)
    requires Shape(g, h, w) && y < h && x < w
    ensures Spread(g, g', h, w, y, x, e)
    ensures Total(g') == Total(g) + Part(e, Inside(h, w, y, x))
  {
    var middle := DiffuseRight(g, h, w, y, x, e);
    g' := DiffuseBelow(middle, h, w, y, x, e);
    SpreadRows(g, middle, g', h, w, y, x, e);
    PartSum(e, if x + 1 < w then 7 else 0, Below(h, w, y, x));
  }

  // ----- stability: what a pixel has received so far

  /** The sixteenths that (y, x) has received from the pixels before (cy, cx). */
  function Received(w: nat, y: nat, x: nat, cy: nat, cx: nat): (s: int)
    ensures 0 <= s <= 16
  {
    (if x > 0 && Done(y, x - 1, cy, cx) then 7 else 0)
    + (if y > 0 && x + 1 < w && Done(y - 1, x + 1, cy, cx) then 3 else 0)
    + (if y > 0 && Done(y - 1, x, cy, cx) then 5 else 0)
    + (if y > 0 && x > 0 && Done(y - 1, x - 1, cy, cx) then 1 else 0)
  }

  lemma ReceivedNext(w: nat, y: nat, x: nat, cy: nat, cx: nat)
    requires x < w && cx < w
    ensures Received(w, y, x, cy, cx + 1) == Received(w, y, x, cy, cx) + Share(y - cy, x - cx)
  {
  }

  lemma ReceivedRow(w: nat, y: nat, x: nat, cy: nat)
    requires x < w
    ensures Received(w, y, x, cy + 1, 0) == Received(w, y, x, cy, w)
  {
  }

  /** The received error is within the shares of the extreme errors. */
  predicate Bounded(v: real, s: int, t: real) {
    Part(t - 255.0, s) <= v <= Part(t, s)
  }

  lemma BoundedNext(v: real, s: int, share: int, e: real, t: real)
    requires Bounded(v, s, t) && share >= 0 && t - 255.0 <= e <= t
    ensures Bounded(v + Part(e, share), s + share, t)
  {
    PartMono(t - 255.0, e, share);
    PartMono(e, t, share);
    PartSum(t - 255.0, s, share);
    PartSum(t, s, share);
  }

  lemma PartMono(a: real, b: real, s: int)
    requires a <= b && s >= 0
    ensures Part(a, s) <= Part(b, s)
  {
    assert (b - a) * s as real >= 0.0;
    assert b * s as real - a * s as real == (b - a) * s as real;
  }

  lemma BoundedWhole(v: real, s: int, t: real)
    requires Bounded(v, s, t) && 0 <= s <= 16 && 0.0 <= t <= 255.0
    ensures t - 255.0 <= v <= t
  {
    PartMono(0.0, t, 16 - s);
    PartMono(t - 255.0, 0.0, 16 - s);
    PartSum(t, s, 16 - s);
    PartSum(t - 255.0, s, 16 - s);
    PartSum(0.0, 0, 0);
    assert Part(0.0, 16 - s) == 0.0;
  }

  ghost predicate Stable(error: Grid, h: nat, w: nat, cy: nat, cx: nat, t: real) {
    && Shape(error, h, w)
    && forall y, x :: 0 <= y < h && 0 <= x < w ==> Bounded(error[y][x], Received(w, y, x, cy, cx), t)
  }

  lemma StableStarts(h: nat, w: nat, t: real)
    ensures Stable(Zeros(h, w), h, w, 0, 0, t)
  {
    PartSum(t, 0, 0);
    PartSum(t - 255.0, 0, 0);
  }

  lemma StableNext(before: Grid, after: Grid, h: nat, w: nat, cy: nat, cx: nat, e: real, t: real)
    requires Stable(before, h, w, cy, cx, t) && Spread(before, after, h, w, cy, cx, e) && cx < w
    requires t - 255.0 <= e <= t
    ensures Stable(after, h, w, cy, cx + 1, t)
  {
    forall y, x | 0 <= y < h && 0 <= x < w
      ensures Bounded(after[y][x], Received(w, y, x, cy, cx + 1), t)
    {
      ReceivedNext(w, y, x, cy, cx);
      BoundedNext(before[y][x], Received(w, y, x, cy, cx), Share(y - cy, x - cx), e, t);
    }
  }

  lemma StableRow(error: Grid, h: nat, w: nat, cy: nat, t: real)
    requires Stable(error, h, w, cy, w, t)
    ensures Stable(error, h, w, cy + 1, 0, t)
  {
    forall y, x | 0 <= y < h && 0 <= x < w
      ensures Bounded(error[y][x], Received(w, y, x, cy + 1, 0), t)
    {
      ReceivedRow(w, y, x, cy);
    }
  }

  // ----- where a pixel's received error comes from

  /** The shares (y, x) receives of the quantisation errors `q` of those neighbours that come before (cy, cx). */
  function Incoming(q: Grid, h: nat, w: nat, y: nat, x: nat, cy: nat, cx: nat): real
    requires Shape(q, h, w) && y < h && x < w
  {
    (if x > 0 && Done(y, x - 1, cy, cx) then Part(q[y][x - 1], 7) else 0.0)
    + (if y > 0 && x + 1 < w && Done(y - 1, x + 1, cy, cx) then Part(q[y - 1][x + 1], 3) else 0.0)
    + (if y > 0 && Done(y - 1, x, cy, cx) then Part(q[y - 1][x], 5) else 0.0)
    + (if y > 0 && x > 0 && Done(y - 1, x - 1, cy, cx) then Part(q[y - 1][x - 1], 1) else 0.0)
  }

  /** All of them: by the time a pixel is reached its four senders are done. */
  function Arrived(q: Grid, h: nat, w: nat, y: nat, x: nat): real
    requires Shape(q, h, w) && y < h && x < w
  {
    Incoming(q, h, w, y, x, y, x)
  }

  ghost predicate Sourced(error: Grid, q: Grid, h: nat, w: nat, cy: nat, cx: nat) {
    && Shape(error, h, w) && Shape(q, h, w)
    && forall y, x :: 0 <= y < h && 0 <= x < w ==> error[y][x] == Incoming(q, h, w, y, x, cy, cx)
  }

  lemma IncomingNext(q: Grid, h: nat, w: nat, y: nat, x: nat, cy: nat, cx: nat, e: real)
    requires Shape(q, h, w) && y < h && x < w && cy < h && cx < w
    ensures Incoming(Set(q, cy, cx, e), h, w, y, x, cy, cx + 1)
         == Incoming(q, h, w, y, x, cy, cx) + Part(e, Share(y - cy, x - cx))
  {
    PartSum(e, 0, 0);
  }

  lemma SourcedNext(error: Grid, error': Grid, q: Grid, h: nat, w: nat, cy: nat, cx: nat, e: real)
    requires Sourced(error, q, h, w, cy, cx) && Spread(error, error', h, w, cy, cx, e) && cy < h && cx < w
    ensures Sourced(error', Set(q, cy, cx, e), h, w, cy, cx + 1)
  {
    forall y, x | 0 <= y < h && 0 <= x < w
      ensures error'[y][x] == Incoming(Set(q, cy, cx, e), h, w, y, x, cy, cx + 1)
    {
      IncomingNext(q, h, w, y, x, cy, cx, e);
    }
  }

  lemma SourcedRow(error: Grid, q: Grid, h: nat, w: nat, cy: nat)
    requires Sourced(error, q, h, w, cy, w)
    ensures Sourced(error, q, h, w, cy + 1, 0)
  {
  }

  lemma ArrivedKept(q: Grid, h: nat, w: nat, y: nat, x: nat, cy: nat, cx: nat, e: real)
    requires Shape(q, h, w) && y < h && x < w && cy < h && cx < w && Done(y, x, cy, cx + 1)
    ensures Arrived(Set(q, cy, cx, e), h, w, y, x) == Arrived(q, h, w, y, x)
  {
  }

  // ----- conservation

  /** Pixel, received error, output and quantisation error balance over the pixels done, and the errors handed out
      are those received or still waiting plus those lost over the border. */
  ghost predicate Balanced(img: Grid, out: Grid, error: Grid, q: Grid, lost: Grid, h: nat, w: nat, cy: nat, cx: nat) {
    && Shape(img, h, w) && Shape(out, h, w) && Shape(error, h, w) && Shape(q, h, w) && Shape(lost, h, w)
    && cy < h && cx <= w
    && SumTo(img, cy, cx) + SumTo(error, cy, cx) == SumTo(out, cy, cx) + SumTo(q, cy, cx)
    && Total(error) + SumTo(lost, cy, cx) == SumTo(q, cy, cx)
  }

  /** Setting the next cell adds it to the sum. */
  lemma SumToNext(g: Grid, h: nat, w: nat, cy: nat, cx: nat, v: real)
    requires Shape(g, h, w) && cy < h && cx < w
    ensures Shape(Set(g, cy, cx, v), h, w)
    ensures SumTo(Set(g, cy, cx, v), cy, cx + 1) == SumTo(g, cy, cx) + v
  {
    SumToSet(g, cy, cx, v, cy, cx + 1);
  }

  lemma SpreadAgrees(before: Grid, after: Grid, h: nat, w: nat, cy: nat, cx: nat, e: real)
    requires Spread(before, after, h, w, cy, cx, e) && cx < w
    ensures Agree(before, after, h, w, cy, cx + 1)
  {
    PartSum(e, 0, 0);
  }

  lemma BalancedNext(img: Grid, out: Grid, error: Grid, error': Grid, q: Grid, lost: Grid,
                     h: nat, w: nat, cy: nat, cx: nat, new_: real, e: real)
    requires Balanced(img, out, error, q, lost, h, w, cy, cx) && cx < w
    requires img[cy][cx] + error[cy][cx] == new_ + e
    requires Spread(error, error', h, w, cy, cx, e) && Total(error') == Total(error) + Part(e, Inside(h, w, cy, cx))
    ensures Balanced(img, Set(out, cy, cx, new_), error', Set(q, cy, cx, e),
                     Set(lost, cy, cx, Part(e, 16 - Inside(h, w, cy, cx))), h, w, cy, cx + 1)
  {
    SumToNext(out, h, w, cy, cx, new_);
    SumToNext(q, h, w, cy, cx, e);
    SumToNext(lost, h, w, cy, cx, Part(e, 16 - Inside(h, w, cy, cx)));
    SpreadAgrees(error, error', h, w, cy, cx, e);
    SumToAgree(error, error', h, w, cy, cx + 1);
    PartSum(e, Inside(h, w, cy, cx), 16 - Inside(h, w, cy, cx));
  }

  /** At the end of a row the sums continue on the next one; at the end of the last row they are the totals. */
  lemma SumToRow(g: Grid, h: nat, w: nat, cy: nat)
    requires Shape(g, h, w) && cy < h
    ensures cy + 1 < h ==> SumTo(g, cy + 1, 0) == SumTo(g, cy, w)
    ensures cy + 1 == h ==> Total(g) == SumTo(g, cy, w)
  {
  }

  lemma BalancedRow(img: Grid, out: Grid, error: Grid, q: Grid, lost: Grid, h: nat, w: nat, cy: nat)
    requires Balanced(img, out, error, q, lost, h, w, cy, w)
    ensures cy + 1 < h ==> Balanced(img, out, error, q, lost, h, w, cy + 1, 0)
    ensures cy + 1 == h ==> Total(img) == Total(out) + Total(lost)
  {
    SumToRow(img, h, w, cy);
    SumToRow(out, h, w, cy);
    SumToRow(error, h, w, cy);
    SumToRow(q, h, w, cy);
    SumToRow(lost, h, w, cy);
  }

  lemma {:induction false} ZerosSum(h: nat, w: nat, n: nat)
    requires n <= h
    ensures RowsSum(Zeros(h, w), n) == 0.0
  {
    if n > 0 {
      ZerosSum(h, w, n - 1);
      ZeroRowSum(w, w);
    }
  }

  lemma {:induction false} ZeroRowSum(w: nat, n: nat)
    requires n <= w
    ensures RowSum(seq(w, _ => 0.0), n) == 0.0
  {
    if n > 0 {
      ZeroRowSum(w, n - 1);
    }
  }

  // ----- the algorithm

  ghost predicate InRange(img: Grid, h: nat, w: nat) {
    Shape(img, h, w) && forall y, x :: 0 <= y < h && 0 <= x < w ==> 0.0 <= img[y][x] <= 255.0
  }

  /** A finished pixel: what it was and what it received make its output and its quantisation error, the output is
      black exactly below the threshold, the error is bounded, and the part of it that leaves the image is recorded. */
  ghost predicate Finished(img: Grid, out: Grid, q: Grid, lost: Grid, h: nat, w: nat, y: nat, x: nat, t: real)
    requires Shape(img, h, w) && Shape(out, h, w) && Shape(q, h, w) && Shape(lost, h, w) && y < h && x < w
  {
    && out[y][x] == (if img[y][x] + Arrived(q, h, w, y, x) < t then 0.0 else 255.0)
    && img[y][x] + Arrived(q, h, w, y, x) == out[y][x] + q[y][x]
    && t - 255.0 <= q[y][x] <= t
    && lost[y][x] == Part(q[y][x], 16 - Inside(h, w, y, x))
  }

  /** The pixels before (cy, cx) are finished and the others untouched. */
  ghost predicate Quantised(img: Grid, out: Grid, q: Grid, lost: Grid, h: nat, w: nat, cy: nat, cx: nat, t: real) {
    && Shape(img, h, w) && Shape(out, h, w) && Shape(q, h, w) && Shape(lost, h, w)
    && forall y, x :: 0 <= y < h && 0 <= x < w ==>
         if Done(y, x, cy, cx) then Finished(img, out, q, lost, h, w, y, x, t) else out[y][x] == img[y][x]
  }

  lemma QuantisedNext(img: Grid, out: Grid, q: Grid, lost: Grid, h: nat, w: nat, cy: nat, cx: nat, t: real,
                      new_: real, e: real)
    requires Quantised(img, out, q, lost, h, w, cy, cx, t) && cy < h && cx < w
    requires new_ == (if img[cy][cx] + Arrived(q, h, w, cy, cx) < t then 0.0 else 255.0)
    requires img[cy][cx] + Arrived(q, h, w, cy, cx) == new_ + e && t - 255.0 <= e <= t
    ensures Quantised(img, Set(out, cy, cx, new_), Set(q, cy, cx, e),
                      Set(lost, cy, cx, Part(e, 16 - Inside(h, w, cy, cx))), h, w, cy, cx + 1, t)
  {
    var out', q' := Set(out, cy, cx, new_), Set(q, cy, cx, e);
    var lost' := Set(lost, cy, cx, Part(e, 16 - Inside(h, w, cy, cx)));
    forall y, x | 0 <= y < h && 0 <= x < w
      ensures if Done(y, x, cy, cx + 1) then Finished(img, out', q', lost', h, w, y, x, t) else out'[y][x] == img[y][x]
    {
      if Done(y, x, cy, cx + 1) {
        ArrivedKept(q, h, w, y, x, cy, cx, e);
      }
    }
  }

  lemma QuantisedRow(img: Grid, out: Grid, q: Grid, lost: Grid, h: nat, w: nat, cy: nat, t: real)
    requires Quantised(img, out, q, lost, h, w, cy, w, t)
    ensures Quantised(img, out, q, lost, h, w, cy + 1, 0, t)
  {
  }

  /** One pixel: its new value and its quantisation error, which is bounded because the received error is. */
  method Quantise(pixel: real, received: real, t: real) returns (new_: real, e: real)
    requires 0.0 <= pixel <= 255.0 && 0.0 <= t <= 255.0 && t - 255.0 <= received <= t
    ensures new_ == (if pixel + received < t then 0.0 else 255.0)
    ensures pixel + received == new_ + e && t - 255.0 <= e <= t
  {
    var old_ := pixel + received;
    new_ := if old_ < t then 0.0 else 255.0;
    e := old_ - new_;
  }

  /** `out` is the dithered image: some quantisation errors `q` account for it pixel by pixel, all between t - 255 and
      t, and the input sum is the output sum plus exactly the error shares `lost` that fell outside the image. */
  ghost predicate Dithered(img: Grid, out: Grid, h: nat, w: nat, t: real) {
    exists q, lost :: Quantised(img, out, q, lost, h, w, h, 0, t) && Total(img) == Total(out) + Total(lost)
  }

  /** floyd_steinberg_dither */
  method FloydSteinberg(img: Grid, h: nat, w: nat, t: real) returns (out: Grid)
    requires InRange(img, h, w) && 0.0 <= t <= 255.0
    ensures Dithered(img, out, h, w, t)
  {
    out := img;
    var error := Zeros(h, w);
    ghost var q, lost := Zeros(h, w), Zeros(h, w);
    StableStarts(h, w, t);
    ZerosSum(h, w, h);
    ZerosSum(h, w, 0);
    for y := 0 to h
      invariant Stable(error, h, w, y, 0, t) && Sourced(error, q, h, w, y, 0)
      invariant Quantised(img, out, q, lost, h, w, y, 0, t)
      invariant y < h ==> Balanced(img, out, error, q, lost, h, w, y, 0)
      invariant y == h ==> Total(img) == Total(out) + Total(lost)
    {
      for x := 0 to w
        invariant Stable(error, h, w, y, x, t) && Sourced(error, q, h, w, y, x)
        invariant Quantised(img, out, q, lost, h, w, y, x, t)
        invariant Balanced(img, out, error, q, lost, h, w, y, x)
      {
        BoundedWhole(error[y][x], Received(w, y, x, y, x), t);
        var new_, e := Quantise(out[y][x], error[y][x], t);
        var error' := Diffuse(error, h, w, y, x, e);
        BalancedNext(img, out, error, error', q, lost, h, w, y, x, new_, e);
        QuantisedNext(img, out, q, lost, h, w, y, x, t, new_, e);
        SourcedNext(error, error', q, h, w, y, x, e);
        StableNext(error, error', h, w, y, x, e, t);
        out, error := Set(out, y, x, new_), error';
        q, lost := Set(q, y, x, e), Set(lost, y, x, Part(e, 16 - Inside(h, w, y, x)));
      }
      BalancedRow(img, out, error, q, lost, h, w, y);
      QuantisedRow(img, out, q, lost, h, w, y, t);
      StableRow(error, h, w, y, t);
      SourcedRow(error, q, h, w, y);
    }
  }

  /** Nothing is lost away from the left, right and bottom borders. */
  lemma NothingLostInside(h: nat, w: nat, y: nat, x: nat)
    requires 0 < x && x + 1 < w && y + 1 < h
    ensures Inside(h, w, y, x) == 16
  {
  }

  /** Finished pixels have only one possible output and error. */
  lemma {:induction false} FinishedUnique(img: Grid, out: Grid, q: Grid, lost: Grid, out': Grid, q': Grid, lost': Grid,
                                          h: nat, w: nat, t: real, y: nat, x: nat)
    requires Quantised(img, out, q, lost, h, w, h, 0, t) && Quantised(img, out', q', lost', h, w, h, 0, t)
    requires y < h && x < w
    ensures out[y][x] == out'[y][x] && q[y][x] == q'[y][x]
    decreases y, x
  {
    if x > 0 { FinishedUnique(img, out, q, lost, out', q', lost', h, w, t, y, x - 1); }
    if y > 0 && x + 1 < w { FinishedUnique(img, out, q, lost, out', q', lost', h, w, t, y - 1, x + 1); }
    if y > 0 { FinishedUnique(img, out, q, lost, out', q', lost', h, w, t, y - 1, x); }
    if y > 0 && x > 0 { FinishedUnique(img, out, q, lost, out', q', lost', h, w, t, y - 1, x - 1); }
    assert Arrived(q, h, w, y, x) == Arrived(q', h, w, y, x);
    assert Finished(img, out, q, lost, h, w, y, x, t) && Finished(img, out', q', lost', h, w, y, x, t);
  }

  /** The contract of FloydSteinberg determines its result. */
  lemma DitheredUnique(img: Grid, out: Grid, out': Grid, h: nat, w: nat, t: real)
    requires Dithered(img, out, h, w, t) && Dithered(img, out', h, w, t)
    ensures out == out'
  {
    var q, lost :| Quantised(img, out, q, lost, h, w, h, 0, t) && Total(img) == Total(out) + Total(lost);
    var q', lost' :| Quantised(img, out', q', lost', h, w, h, 0, t) && Total(img) == Total(out') + Total(lost');
    forall y, x | 0 <= y < h && 0 <= x < w
      ensures out[y][x] == out'[y][x]
    {
      FinishedUnique(img, out, q, lost, out', q', lost', h, w, t, y, x);
    }
    SameGrid(out, out', h, w);
  }

  lemma SameGrid(g: Grid, g': Grid, h: nat, w: nat)
    requires Shape(g, h, w) && Shape(g', h, w)
    requires forall y, x :: 0 <= y < h && 0 <= x < w ==> g[y][x] == g'[y][x]
    ensures g == g'
  {
    forall y | 0 <= y < h
      ensures g[y] == g'[y]
    {
      assert |g[y]| == |g'[y]|;
    }
  }
}
