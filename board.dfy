/** The playing field: a grid of integer cells, where 0 is an empty cell and
    any other value a filled one, and the row sweep that clears full rows. */
module Board {

  type Row = seq<int>
  type Grid = seq<Row>

  const BoardWidth: nat := 14
  const BoardHeight: nat := 30

  /** `b` has `h` rows of `w` cells each. */
  predicate Sized(b: Grid, h: nat, w: nat) {
    |b| == h && forall r :: 0 <= r < |b| ==> |b[r]| == w
  }

  function Zeros(w: nat): Row {
    seq(w, _ => 0)
  }

  /** `n` empty rows of width `w`. */
  function Blank(n: nat, w: nat): (g: Grid)
    ensures Sized(g, n, w)
  {
    seq(n, _ => Zeros(w))
  }

  /** Every row filled with 0 in place, each keeping its own length. */
  function Zeroed(b: Grid): Grid {
    seq(|b|, r requires 0 <= r < |b| => Zeros(|b[r]|))
  }

  lemma ZeroedIsBlank(b: Grid, h: nat, w: nat)
    requires Sized(b, h, w)
    ensures Zeroed(b) == Blank(h, w)
  {
  }

  /** The game-over test: the top row holds a positive cell. */
  predicate TopRowFilled(b: Grid)
    requires |b| > 0
  {
    exists c :: 0 <= c < |b[0]| && b[0][c] > 0
  }

  /** A row the sweep removes: no cell of it is 0. */
  predicate Full(row: Row) {
    forall c :: 0 <= c < |row| ==> row[c] != 0
  }

  /** Scans a row from the left for a 0: the inner loop of the sweep. */
  method IsFull(row: Row) returns (full: bool)
    ensures full <==> Full(row)
  {
    var x := 0;
    while x < |row|
      invariant 0 <= x <= |row|
      invariant forall c :: 0 <= c < x ==> row[c] != 0
    {
      if row[x] == 0 {
        return false;
      }
      x := x + 1;
    }
    return true;
  }

  /** Some row below the top one is full: the sweep has work to do. */
  predicate FullBelowTop(b: Grid) {
    exists r :: 1 <= r < |b| && Full(b[r])
  }

  /** The rows that are not full, in their original order. */
  function Survivors(rows: Grid): (s: Grid)
    ensures |s| <= |rows|
    ensures forall i :: 0 <= i < |s| ==> !Full(s[i]) && s[i] in rows
  {
    if rows == [] then []
    else if Full(rows[0]) then Survivors(rows[1..])
    else [rows[0]] + Survivors(rows[1..])
  }

  /** Rows come out in the order they went in. */
  lemma {:induction false} SurvivorsAppend(a: Grid, b: Grid)
    ensures Survivors(a + b) == Survivors(a) + Survivors(b)
  {
    if a == [] {
      assert a + b == b;
    } else {
      assert (a + b)[1..] == a[1..] + b;
      SurvivorsAppend(a[1..], b);
    }
  }

  /** Nothing is dropped exactly when no row is full, and then nothing moves. */
  lemma {:induction false} SurvivorsKeepAll(rows: Grid)
    ensures |Survivors(rows)| == |rows| <==> forall i :: 0 <= i < |rows| ==> !Full(rows[i])
    ensures |Survivors(rows)| == |rows| ==> Survivors(rows) == rows
  {
    if rows != [] {
      SurvivorsKeepAll(rows[1..]);
      if !Full(rows[0]) && |Survivors(rows)| == |rows| {
        forall i | 0 <= i < |rows| ensures !Full(rows[i]) {
          if i > 0 { assert rows[i] == rows[1..][i - 1]; }
        }
      }
    }
  }

  /** Number of rows the sweep of `b` clears. */
  function Cleared(b: Grid): (n: nat)
    ensures n <= |b|
    ensures n > 0 <==> FullBelowTop(b)
  {
    SurvivorsKeepAll(b);
    if FullBelowTop(b) then |b| - |Survivors(b)| else 0
  }

  /** The board a complete sweep leaves. If no row below the top is full the board
      stays as it is; otherwise every full row goes, the top row included, since
      once a clear has shifted it down it is examined like the others, and as many
      empty rows enter at the top. */
  function Swept(b: Grid, w: nat): Grid {
    if FullBelowTop(b) then Blank(|b| - |Survivors(b)|, w) + Survivors(b) else b
  }

  /** The board part-way through the sweep: `k` empty rows entered at the top,
      then the rows `ob[..j]` not yet examined, then what survived of the rest. */
  function Sweeping(ob: Grid, j: nat, k: nat, w: nat): Grid
    requires j <= |ob|
  {
    Blank(k, w) + ob[..j] + Survivors(ob[j..])
  }

  lemma SweepingAt(ob: Grid, j: nat, k: nat, w: nat, y: nat)
    requires j <= |ob|
    ensures y < k ==> Sweeping(ob, j, k, w)[y] == Zeros(w)
    ensures k <= y < k + j ==> Sweeping(ob, j, k, w)[y] == ob[y - k]
  {
  }

  /** Passing over a row that is not full changes nothing. */
  lemma SweepingSkip(ob: Grid, j: nat, k: nat, w: nat)
    requires 1 <= j <= |ob| && !Full(ob[j - 1])
    ensures Sweeping(ob, j, k, w) == Sweeping(ob, j - 1, k, w)
  {
    assert ob[j - 1..][1..] == ob[j..];
    assert ob[..j] == ob[..j - 1] + [ob[j - 1]];
  }

  /** Clearing the full row just above the examined part adds one empty row on top. */
  lemma SweepingClear(ob: Grid, j: nat, k: nat, w: nat)
    requires 1 <= j <= |ob| && Full(ob[j - 1])
    ensures k + j - 1 < |Sweeping(ob, j, k, w)|
    ensures ClearRow(Sweeping(ob, j, k, w), k + j - 1, w) == Sweeping(ob, j - 1, k + 1, w)
  {
    var g := Sweeping(ob, j, k, w);
    assert ob[j - 1..][1..] == ob[j..];
    assert g[..k + j - 1] == Blank(k, w) + ob[..j - 1];
    assert g[k + j..] == Survivors(ob[j..]);
    assert Blank(k + 1, w) == [Zeros(w)] + Blank(k, w);
  }

  /** The sweep ends in one of two ways. Either every row has been examined and
      some were cleared ... */
  lemma SweepingDoneAll(ob: Grid, k: nat, w: nat)
    requires |Sweeping(ob, 0, k, w)| == |ob|
    requires k > 0 && FullBelowTop(ob)
    ensures Sweeping(ob, 0, k, w) == Swept(ob, w)
    ensures k == Cleared(ob)
  {
    assert ob[..0] == [] && ob[0..] == ob;
  }

  /** ... or nothing was cleared and only the top row is left unexamined. */
  lemma SweepingDoneNone(ob: Grid, w: nat)
    requires 1 <= |ob| && |Sweeping(ob, 1, 0, w)| == |ob|
    ensures Sweeping(ob, 1, 0, w) == Swept(ob, w) == ob
    ensures Cleared(ob) == 0
  {
    var rest := ob[1..];
    SurvivorsKeepAll(rest);
    assert Survivors(rest) == rest;
    forall r | 1 <= r < |ob| ensures !Full(ob[r]) {
      assert ob[r] == rest[r - 1];
    }
    assert !FullBelowTop(ob);
    assert Blank(0, w) == [];
    assert ob == ob[..1] + rest;
  }

  /** The state of the bottom-up sweep of `ob` with row `y` next to examine:
      `k` rows cleared, `ob[..j]` not yet examined, and either `y` is the last
      of those rows or only empty rows are left above `y`. */
  ghost predicate SweepState(ob: Grid, b: Grid, y: int, j: nat, k: nat, w: nat) {
    j <= |ob| && 0 <= y < |b| && Sized(b, |ob|, w) &&
    (y + 1 == k + j || (j == 0 && y + 1 < k)) &&
    b == Sweeping(ob, j, k, w) && (k > 0 ==> FullBelowTop(ob))
  }

  lemma SweepStart(ob: Grid, w: nat)
    requires Sized(ob, |ob|, w) && |ob| > 0
    ensures SweepState(ob, ob, |ob| - 1, |ob|, 0, w)
  {
    assert ob[|ob|..] == [] && ob[..|ob|] == ob;
    assert Blank(0, w) == [];
  }

  /** A row that is not full is passed over. */
  lemma SweepSkipStep(ob: Grid, b: Grid, y: int, j: nat, k: nat, w: nat)
    requires SweepState(ob, b, y, j, k, w) && y > 0 && !Full(b[y])
    ensures SweepState(ob, b, y - 1, if j > 0 then j - 1 else 0, k, w)
  {
    SweepingAt(ob, j, k, w, y);
    if j > 0 {
      SweepingSkip(ob, j, k, w);
    }
  }

  /** A full row is cleared, and it is one of the rows of `ob` not yet examined. */
  lemma SweepClearStep(ob: Grid, b: Grid, y: int, j: nat, k: nat, w: nat)
    requires SweepState(ob, b, y, j, k, w) && y > 0 && w > 0 && Full(b[y])
    ensures j > 0 && SweepState(ob, ClearRow(b, y, w), y, j - 1, k + 1, w)
  {
    SweepingAt(ob, j, k, w, y);
    assert Zeros(w)[0] == 0;
    assert b[y] == ob[j - 1];
    assert 1 <= j - 1 + 1 < |ob| ==> FullBelowTop(ob);
    SweepingClear(ob, j, k, w);
    ClearRowSize(b, y, |ob|, w);
  }

  /** At row 0 the sweep is done: the board is the sweep's result. */
  lemma SweepEnd(ob: Grid, b: Grid, j: nat, k: nat, w: nat)
    requires SweepState(ob, b, 0, j, k, w)
    ensures b == Swept(ob, w) && k == Cleared(ob)
  {
    if j == 0 {
      SweepingDoneAll(ob, k, w);
    } else {
      SweepingDoneNone(ob, w);
    }
  }

  /** One clear: row `y` leaves, an empty row enters at the top, the rows above
      `y` move one down and the rows below it stay put. */
  function ClearRow(b: Grid, y: nat, w: nat): (g: Grid)
    requires y < |b|
    ensures |g| == |b|
    ensures g[0] == Zeros(w)
    ensures forall i :: 0 <= i < y ==> g[i + 1] == b[i]
    ensures forall i :: y < i < |b| ==> g[i] == b[i]
  {
    [Zeros(w)] + b[..y] + b[y + 1..]
  }

  lemma ClearRowSize(b: Grid, y: nat, h: nat, w: nat)
    requires Sized(b, h, w) && y < h
    ensures Sized(ClearRow(b, y, w), h, w)
  {
    var g := ClearRow(b, y, w);
    forall r | 0 <= r < h ensures |g[r]| == w {
      if r == 0 {
      } else if r <= y {
        assert g[r] == b[r - 1];
      } else {
        assert g[r] == b[r];
      }
    }
  }

  /** The sweep keeps the board's dimensions. */
  lemma SweptSize(b: Grid, h: nat, w: nat)
    requires Sized(b, h, w)
    ensures Sized(Swept(b, w), h, w)
  {
    if FullBelowTop(b) {
      var s := Survivors(b);
      var g := Blank(|b| - |s|, w) + s;
      forall r | 0 <= r < |g| ensures |g[r]| == w {
        if r >= |b| - |s| {
          assert g[r] == s[r - (|b| - |s|)];
        }
      }
    }
  }

  /** After the sweep every row below the top one holds an empty cell. */
  lemma SweptLeavesNoFullRow(b: Grid, h: nat, w: nat, r: nat)
    requires Sized(b, h, w) && w >= 1
    requires 1 <= r < h
    ensures exists c :: 0 <= c < w && Swept(b, w)[r][c] == 0
  {
    SweptSize(b, h, w);
    var g := Swept(b, w);
    if FullBelowTop(b) {
      var s := Survivors(b);
      var k := |b| - |s|;
      if r < k {
        assert g[r][0] == 0;
      } else {
        assert g[r] == s[r - k];
        assert !Full(g[r]);
      }
    } else {
      assert !Full(b[r]);
    }
  }

  lemma BlankNoFullRow(n: nat, w: nat)
    requires w >= 1
    ensures !FullBelowTop(Blank(n, w))
  {
    var g := Blank(n, w);
    forall r | 1 <= r < n ensures !Full(g[r]) {
      assert g[r][0] == 0;
    }
  }

  /** The sweep leaves the board alone exactly when no row below the top is full,
      which is also exactly when it clears nothing. */
  lemma SweptIdleIff(b: Grid, h: nat, w: nat)
    requires Sized(b, h, w) && w >= 1
    ensures Swept(b, w) == b <==> !FullBelowTop(b)
    ensures Cleared(b) == 0 <==> !FullBelowTop(b)
  {
    if FullBelowTop(b) {
      var r :| 1 <= r < |b| && Full(b[r]);
      SweptLeavesNoFullRow(b, h, w, r);
      var c :| 0 <= c < w && Swept(b, w)[r][c] == 0;
      assert Swept(b, w)[r] != b[r];
      SurvivorsKeepAll(b);
    }
  }

  /** A second sweep finds nothing to do. */
  lemma SweptIdempotent(b: Grid, h: nat, w: nat)
    requires Sized(b, h, w) && w >= 1
    ensures Swept(Swept(b, w), w) == Swept(b, w)
  {
    var g := Swept(b, w);
    SweptSize(b, h, w);
    forall r | 1 <= r < h ensures !Full(g[r]) {
      SweptLeavesNoFullRow(b, h, w, r);
    }
  }

  /** A stretch of rows none of which is full survives the sweep whole. */
  lemma SurvivorsOfFreeSlice(b: Grid, lo: nat, hi: nat)
    requires lo <= hi <= |b|
    requires forall i :: lo <= i < hi ==> !Full(b[i])
    ensures Survivors(b[lo..hi]) == b[lo..hi]
  {
    var s := b[lo..hi];
    forall i | 0 <= i < |s| ensures !Full(s[i]) {
      assert s[i] == b[lo + i];
    }
    SurvivorsKeepAll(s);
  }

  lemma SplitAt(b: Grid, y: nat)
    requires y < |b|
    ensures b == b[0..y] + [b[y]] + b[y + 1..|b|]
    ensures b[0..y] == b[..y] && b[y + 1..|b|] == b[y + 1..]
  {
    assert b == b[..y] + [b[y]] + b[y + 1..];
  }

  /** A full row between two stretches of rows leaves no trace in the survivors. */
  lemma SurvivorsSkipFull(a: Grid, r: Row, c: Grid)
    requires Full(r)
    ensures Survivors(a + [r] + c) == Survivors(a) + Survivors(c)
  {
    SurvivorsAppend(a + [r], c);
    SurvivorsAppend(a, [r]);
    assert [r][1..] == [];
  }

  /** With a single full row `y`, the surviving rows are all the others. */
  lemma SurvivorsDropOne(b: Grid, y: nat)
    requires y < |b| && Full(b[y])
    requires forall i :: 0 <= i < |b| && i != y ==> !Full(b[i])
    ensures Survivors(b) == b[..y] + b[y + 1..]
  {
    SplitAt(b, y);
    SurvivorsOfFreeSlice(b, 0, y);
    SurvivorsOfFreeSlice(b, y + 1, |b|);
    SurvivorsSkipFull(b[0..y], b[y], b[y + 1..|b|]);
  }

  /** With a single full row `y` (and no other, the top row included) the sweep
      is one clear of that row. */
  lemma SweptOneRow(b: Grid, w: nat, y: nat)
    requires 1 <= y < |b| && Full(b[y])
    requires forall i :: 0 <= i < |b| && i != y ==> !Full(b[i])
    ensures Swept(b, w) == ClearRow(b, y, w)
    ensures Cleared(b) == 1
  {
    SurvivorsDropOne(b, y);
    var rest := b[..y] + b[y + 1..];
    assert FullBelowTop(b) && |b| - |Survivors(b)| == 1;
    assert Blank(1, w) == [Zeros(w)];
    assert [Zeros(w)] + rest == [Zeros(w)] + b[..y] + b[y + 1..];
  }

  /** 2 to the power `n`: what the sweep returns after `n` clears. */
  function Pow2(n: nat): nat {
    if n == 0 then 1 else 2 * Pow2(n - 1)
  }
}
