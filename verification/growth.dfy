/** The capacity rule shared by the growable arrays of the frame list and
    the converter's arenas: a full array doubles, and an array that has
    reserved nothing yet starts at a fixed first capacity. */
module Growth {

  /** The capacity a full array grows to: twice the old one, or `first`
      when nothing was reserved yet. */
  function Grow(capacity: nat, first: nat): (c: nat)
    requires 0 < first
    ensures capacity < c
    ensures c == first || c == 2 * capacity
  {
    if capacity > 0 then capacity * 2 else first
  }

  /** Reference capacity after `n` appends to an array that started empty:
      the smallest `first * 2^k` that holds `n` elements. */
  function Doubled(first: nat, n: nat): (c: nat)
    requires 0 < first
    ensures first <= c && n <= c
    ensures c == first || (first < n && c < 2 * n && c % 2 == 0)
    decreases n
  {
    if n <= first then first else 2 * Doubled(first, (n + 1) / 2)
  }

  /** One more append: the reference capacity moves exactly when the
      array was full, and then by the growth rule. */
  lemma {:induction false} DoubledStep(first: nat, n: nat)
    requires 0 < first && 0 < n
    ensures Doubled(first, n + 1) == if Doubled(first, n) == n then Grow(n, first) else Doubled(first, n)
    decreases n
  {
    if n < first {
    } else if n == first {
      assert (n + 2) / 2 <= first;
    } else if n % 2 == 0 {
      var m := n / 2;
      assert (n + 1) / 2 == m && (n + 2) / 2 == m + 1;
      DoubledStep(first, m);
    } else {
      assert (n + 1) / 2 == (n + 2) / 2;
    }
  }
}
