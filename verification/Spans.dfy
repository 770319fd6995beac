/** Consecutive slots of equal width in a buffer. */
module Spans {
  import opened Bits

  /** Where slot n of width w begins: n * w, unfolded one slot at a time. */
  function Span(n: nat, w: nat): nat {
    if n == 0 then 0 else Span(n - 1, w) + w
  }

  lemma {:induction false} SpanIsProduct(n: nat, w: nat)
    ensures Span(n, w) == n * w == w * n
  {
    if n > 0 {
      SpanIsProduct(n - 1, w);
      assert n * w == (n - 1) * w + w;
    }
  }

  lemma {:induction false} SpanMonotone(x: nat, y: nat, w: nat)
    ensures x <= y ==> Span(x, w) <= Span(y, w)
    decreases y
  {
    if x < y { SpanMonotone(x, y - 1, w); }
  }

  /** A slot ends where the next one begins, and lies inside the slots it is one of. */
  lemma SlotFits(c: nat, w: nat, count: nat)
    ensures Span(c + 1, w) == Span(c, w) + w
    ensures c < count ==> Span(c, w) + w <= Span(count, w)
    ensures c <= count ==> Span(c, w) <= Span(count, w)
  {
    SpanMonotone(c + 1, count, w);
    SpanMonotone(c, count, w);
  }

  /** Every position has a slot and a place in it. */
  lemma PositionSplits(i: nat, w: nat)
    requires w > 0
    ensures i == Span(i / w, w) + i % w
  {
    SpanIsProduct(i / w, w);
    assert i == w * (i / w) + i % w;
  }

  lemma SlotOf(i: nat, w: nat, count: nat)
    requires w > 0 && i < Span(count, w)
    ensures i / w < count && i == Span(i / w, w) + i % w
  {
    PositionSplits(i, w);
    SpanMonotone(count, i / w, w);
  }

  /** Positions are divided by the width the way slots are counted. */
  lemma PlaceInSlot(c: nat, w: nat, r: nat)
    requires r < w
    ensures (Span(c, w) + r) / w == c && (Span(c, w) + r) % w == r
  {
    SpanIsProduct(c, w);
    ModUnique(Span(c, w) + r, w, c, r);
  }

  lemma {:induction false} SpanAdds(x: nat, y: nat, w: nat)
    ensures Span(x + y, w) == Span(x, w) + Span(y, w)
  {
    if y > 0 { SpanAdds(x, y - 1, w); }
  }

  /** Slots of slots. */
  lemma {:induction false} SpanOfSpans(b: nat, n: nat, w: nat)
    ensures Span(b, Span(n, w)) == Span(Span(b, n), w)
  {
    if b > 0 {
      SpanOfSpans(b - 1, n, w);
      SpanAdds(Span(b - 1, n), n, w);
    }
  }
}
