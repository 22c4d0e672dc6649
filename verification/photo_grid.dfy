/** The photo grid's zoom carousel. The zoomed index is `number | null`;
    next and previous wrap around with JavaScript's `%`. */
module PhotoGrid {
  import opened Wrappers
  import opened JsNumber

  /** `a + k` on a JavaScript number: NaN stays NaN. */
  function Add(a: Num, k: int): Num {
    match a
    case NaN => NaN
    case Int(x) => Int(x + k)
  }

  /** JavaScript's `a % n`: the sign follows the dividend, and a zero
      divisor or a NaN dividend gives NaN. */
  function JsRem(a: Num, n: int): (r: Num)
    ensures a.Int? && n != 0 ==> r.Int? && -(if n < 0 then -n else n) < r.value < (if n < 0 then -n else n)
    ensures a.Int? && n != 0 && a.value >= 0 ==> r.Int? && r.value >= 0
    ensures a.Int? && n != 0 && a.value < 0 ==> r.Int? && r.value <= 0
    ensures a.Int? && n != 0 ==> r.Int? && (a.value - r.value) % (if n < 0 then -n else n) == 0
    ensures a.NaN? || n == 0 ==> r == NaN
  {
    match a
    case NaN => NaN
    case Int(x) =>
      var m := if n < 0 then -n else n;
      if n == 0 then NaN
      else if x >= 0 then
        ModUnique(x - x % m, m, x / m, 0);
        Int(x % m)
      else
        ModUnique(x + (-x) % m, m, -((-x) / m), 0);
        Int(-((-x) % m))
  }

  /** `handleZoom(index)` */
  function Zoom(index: int): Option<Num> {
    Some(Int(index))
  }

  /** `closeZoom` */
  function Close(): Option<Num> {
    None
  }

  /** `nextPhoto`, over `n` photos. */
  function Next(z: Option<Num>, n: nat): (r: Option<Num>)
    ensures z.None? <==> r.None?
    ensures z.Some? && z.value.Int? && 0 <= z.value.value < n ==>
      r.Some? && r.value.Int? && 0 <= r.value.value < n
  {
    match z
    case None => None
    case Some(x) => Some(JsRem(Add(x, 1), n))
  }

  /** `prevPhoto`, over `n` photos. */
  function Prev(z: Option<Num>, n: nat): (r: Option<Num>)
    ensures z.None? <==> r.None?
    ensures z.Some? && z.value.Int? && 0 <= z.value.value < n ==>
      r.Some? && r.value.Int? && 0 <= r.value.value < n
  {
    match z
    case None => None
    case Some(x) => Some(JsRem(Add(Add(x, -1), n), n))
  }

  lemma {:induction false} MulAtLeast(d: int, m: int)
    requires d >= 1 && m > 0
    ensures d * m >= m
  {
    assert d * m == m + (d - 1) * m;
  }

  /** The remainder is the unique `r` in `[0, m)` with `x == q * m + r`. */
  lemma {:induction false} ModUnique(x: int, m: int, q: int, r: int)
    requires m > 0 && 0 <= r < m && x == q * m + r
    ensures x % m == r
  {
    var d := q - x / m;
    assert d * m == x % m - r by {
      assert x == (x / m) * m + x % m;
      assert d * m == q * m - (x / m) * m;
    }
    if d >= 1 {
      MulAtLeast(d, m);
    } else if d <= -1 {
      MulAtLeast(-d, m);
    }
  }

  /** One more step on a remainder wraps at `m`. */
  lemma {:induction false} ModStep(x: int, m: int)
    requires m > 0
    ensures (x + 1) % m == (if x % m + 1 == m then 0 else x % m + 1)
  {
    var q, r := x / m, x % m;
    assert x == q * m + r;
    if r + 1 == m {
      assert x + 1 == (q + 1) * m + 0;
      ModUnique(x + 1, m, q + 1, 0);
    } else {
      ModUnique(x + 1, m, q, r + 1);
    }
  }

  /** On a valid index, next is `(i + 1) % n`: one step on, wrapping to 0. */
  lemma {:induction false} NextIsModular(i: int, n: nat)
    requires 0 <= i < n
    ensures Next(Zoom(i), n) == Zoom(if i + 1 == n then 0 else i + 1)
  {
    if i + 1 == n {
      ModUnique(i + 1, n, 1, 0);
    } else {
      ModUnique(i + 1, n, 0, i + 1);
    }
  }

  /** On a valid index, prev is `(i - 1 + n) % n`: one step back, wrapping
      to `n - 1`. */
  lemma {:induction false} PrevIsModular(i: int, n: nat)
    requires 0 <= i < n
    ensures Prev(Zoom(i), n) == Zoom(if i == 0 then n - 1 else i - 1)
  {
    if i == 0 {
      ModUnique(i - 1 + n, n, 0, n - 1);
    } else {
      ModUnique(i - 1 + n, n, 1, i - 1);
    }
  }

  lemma {:induction false} PrevUndoesNext(i: int, n: nat)
    requires 0 <= i < n
    ensures Prev(Next(Zoom(i), n), n) == Zoom(i)
  {
    NextIsModular(i, n);
    PrevIsModular(if i + 1 == n then 0 else i + 1, n);
  }

  lemma {:induction false} NextUndoesPrev(i: int, n: nat)
    requires 0 <= i < n
    ensures Next(Prev(Zoom(i), n), n) == Zoom(i)
  {
    PrevIsModular(i, n);
    NextIsModular(if i == 0 then n - 1 else i - 1, n);
  }

  /** `k` presses of next. */
  function NextTimes(z: Option<Num>, n: nat, k: nat): Option<Num>
    decreases k
  {
    if k == 0 then z else Next(NextTimes(z, n, k - 1), n)
  }

  /** `k` presses of next from index `i` land on `(i + k) % n`. */
  lemma {:induction false} NextTimesIsModular(i: int, n: nat, k: nat)
    requires 0 <= i < n
    ensures NextTimes(Zoom(i), n, k) == Zoom((i + k) % n)
    decreases k
  {
    if k > 0 {
      NextTimesIsModular(i, n, k - 1);
      var j := (i + k - 1) % n;
      NextIsModular(j, n);
      ModStep(i + k - 1, n);
    }
  }

  /** `n` presses of next go all the way round. */
  lemma {:induction false} NextCycles(i: int, n: nat)
    requires 0 <= i < n
    ensures NextTimes(Zoom(i), n, n) == Zoom(i)
  {
    NextTimesIsModular(i, n, n);
    ModUnique(i + n, n, 1, i);
  }

  /** With one photo both buttons stay on it. */
  lemma {:induction false} SinglePhotoStays(z: Option<Num>)
    requires z == Zoom(0)
    ensures Next(z, 1) == z && Prev(z, 1) == z
  {
    NextIsModular(0, 1);
    PrevIsModular(0, 1);
  }

  /** Not zoomed, the buttons do nothing. */
  lemma {:induction false} NotZoomedUnchanged(n: nat)
    ensures Next(Close(), n) == Close() && Prev(Close(), n) == Close()
  {
  }

  /** With no photos at all the index would become NaN; the grid offers no
      photo to zoom in that case. */
  lemma {:induction false} EmptyGridGivesNaN(i: int)
    ensures Next(Zoom(i), 0) == Some(NaN) && Prev(Zoom(i), 0) == Some(NaN)
  {
  }
}
