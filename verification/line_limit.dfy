/**
 * The clamped line-width counter: the `increaseLineLimit` / `decreaseLineLimit`
 * actions of the UI store (frontend/src/stores/useUIStore.ts) and the
 * `adjustLineLimit` handler of the single-text app (src/App.tsx).
 */
module LineLimit {
  import opened TextNorm

  /** The UI store's initial width, in characters. */
  const InitialLineLimit: int := 48

  predicate InRange(l: int) {
    LineLimitMin <= l <= LineLimitMax
  }

  /** `increaseLineLimit`: one step wider, capped at the maximum; a no-op at or above it. */
  function IncreaseLineLimit(l: int): (r: int)
    ensures l >= LineLimitMax ==> r == l
    ensures l < LineLimitMax ==> l < r <= LineLimitMax && r <= l + LineLimitStep
    ensures l < LineLimitMax ==> (r == l + LineLimitStep || r == LineLimitMax)
  {
    if l < LineLimitMax then
      if l + LineLimitStep < LineLimitMax then l + LineLimitStep else LineLimitMax
    else l
  }

  /** `decreaseLineLimit`: one step narrower, floored at the minimum; a no-op at or below it. */
  function DecreaseLineLimit(l: int): (r: int)
    ensures l <= LineLimitMin ==> r == l
    ensures l > LineLimitMin ==> LineLimitMin <= r < l && r >= l - LineLimitStep
    ensures l > LineLimitMin ==> (r == l - LineLimitStep || r == LineLimitMin)
  {
    if l > LineLimitMin then
      if l - LineLimitStep > LineLimitMin then l - LineLimitStep else LineLimitMin
    else l
  }

  /** The toolbar's two buttons. */
  datatype WidthButton = Wider | Narrower

  function Press(l: int, b: WidthButton): int {
    match b
    case Wider => IncreaseLineLimit(l)
    case Narrower => DecreaseLineLimit(l)
  }

  function PressAll(l: int, bs: seq<WidthButton>): int
    decreases |bs|
  {
    if |bs| == 0 then l else PressAll(Press(l, bs[0]), bs[1..])
  }

  /** The initial width is inside the bounds and on the step grid. */
  lemma InitialLineLimitOnGrid()
    ensures InRange(InitialLineLimit)
    ensures (InitialLineLimit - LineLimitMin) % LineLimitStep == 0
  {
  }

  /** Any sequence of presses from a width in range stays in range. */
  lemma {:induction false} PressAllInRange(l: int, bs: seq<WidthButton>)
    requires InRange(l)
    ensures InRange(PressAll(l, bs))
    decreases |bs|
  {
    if |bs| > 0 {
      PressAllInRange(Press(l, bs[0]), bs[1..]);
    }
  }

  /** A width on the step grid stays on it: the caps are never hit mid-step. */
  lemma {:induction false} PressAllOnGrid(l: int, bs: seq<WidthButton>)
    requires InRange(l) && (l - LineLimitMin) % LineLimitStep == 0
    ensures (PressAll(l, bs) - LineLimitMin) % LineLimitStep == 0
    decreases |bs|
  {
    if |bs| > 0 {
      var l' := Press(l, bs[0]);
      assert InRange(l') && (l' - LineLimitMin) % LineLimitStep == 0 by {
        assert l' == l || l' == l + LineLimitStep || l' == l - LineLimitStep;
      }
      PressAllOnGrid(l', bs[1..]);
    }
  }

  /** Wider then narrower is the identity when the wider step is not capped. */
  lemma IncreaseThenDecrease(l: int)
    requires LineLimitMin <= l && l + LineLimitStep <= LineLimitMax
    ensures DecreaseLineLimit(IncreaseLineLimit(l)) == l
  {
  }

  /** Narrower then wider is the identity when the narrower step is not floored. */
  lemma DecreaseThenIncrease(l: int)
    requires l - LineLimitStep >= LineLimitMin && l <= LineLimitMax
    ensures IncreaseLineLimit(DecreaseLineLimit(l)) == l
  {
  }

  /** `adjustLineLimit(delta)` of the single-text app: add `delta`, then clamp into the bounds. */
  function AdjustLineLimit(previous: int, delta: int): (r: int)
    ensures InRange(r)
    ensures InRange(previous + delta) ==> r == previous + delta
    ensures previous + delta < LineLimitMin ==> r == LineLimitMin
    ensures previous + delta > LineLimitMax ==> r == LineLimitMax
  {
    var floored := if previous + delta > LineLimitMin then previous + delta else LineLimitMin;
    if floored < LineLimitMax then floored else LineLimitMax
  }

  /** Inside the bounds, the single-text app's buttons and the UI store's actions agree. */
  lemma AdjustAgreesWithStore(l: int)
    requires InRange(l)
    ensures AdjustLineLimit(l, LineLimitStep) == IncreaseLineLimit(l)
    ensures AdjustLineLimit(l, -LineLimitStep) == DecreaseLineLimit(l)
  {
  }
}
