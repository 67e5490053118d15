/**
  The `BingoBoard` inner class: a 5x5 grid of words drawn from a dictionary
  around a fixed free square, the operation that marks a square, and the
  padded text rendering of the grid.

  `java.util.Random` is replaced by the sequence of values its `nextInt`
  calls return, supplied by the caller.
*/
module BingoBoard {
  import opened Outcomes

  /** `BOARD_SIZE`: the grid has this many rows and columns. */
  const Size: int := 5
  /** Row and column of the free square. */
  const Centre: int := 2
  /** Number of squares filled from the dictionary (all but the centre). */
  const Draws: int := 24
  /** Position of the centre square when the 25 squares are listed row by row. */
  const CentreIndex: int := Size * Centre + Centre
  const FreeSquare: string := "FREE SQUARE"
  const Marker: string := "X"

  /** The grid, row-major, and the width every square is padded to. */
  datatype Board = Board(grid: seq<seq<string>>, longestWord: int)

  predicate Shaped(b: Board) {
    |b.grid| == Size && forall i | 0 <= i < Size :: |b.grid[i]| == Size
  }

  /** No square is wider than the padding width. */
  predicate Fits(b: Board)
    requires Shaped(b)
  {
    forall i, j | 0 <= i < Size && 0 <= j < Size :: |b.grid[i][j]| <= b.longestWord
  }

  predicate Distinct<T(==)>(xs: seq<T>) {
    forall p, q | 0 <= p < q < |xs| :: xs[p] != xs[q]
  }

  // ---------------------------------------------------------------------------
  // Construction
  // ---------------------------------------------------------------------------

  /**
    The range a draw is taken from: `AsWritten` is the constructor's
    `nextInt(dict.size() - 1)`, `Corrected` the full `nextInt(dict.size())`.
  */
  datatype Sampler = AsWritten | Corrected

  /** The argument passed to `nextInt` when `size` entries remain. */
  function Bound(s: Sampler, size: int): int {
    match s
    case AsWritten => size - 1
    case Corrected => size
  }

  /**
    `cs` are values `nextInt` may return for successive draws from a
    dictionary of `size` entries: each lies in `[0, bound)` for the bound in
    force at that draw. A draw whose bound is not positive throws instead,
    so its value is never used and is not constrained.
  */
  predicate ValidChoices(s: Sampler, size: int, cs: seq<int>) {
    forall t | 0 <= t < |cs| && Bound(s, size - t) > 0 :: 0 <= cs[t] < Bound(s, size - t)
  }

  /** After the first draw, the remaining draws fit the dictionary one entry smaller. */
  lemma ValidChoicesTail(s: Sampler, size: int, cs: seq<int>)
    requires ValidChoices(s, size, cs) && cs != []
    ensures ValidChoices(s, size - 1, cs[1..])
  {
    forall t | 0 <= t < |cs[1..]| && Bound(s, size - 1 - t) > 0
      ensures 0 <= cs[1..][t] < Bound(s, size - 1 - t)
    {
      assert size - 1 - t == size - (t + 1);
    }
  }

  /** `nextInt` with a non-positive bound throws `IllegalArgumentException`. */
  datatype BuildError = BoundNotPositive

  /** `List.remove(int)`: the entry at `k` leaves, later entries shift down. */
  function RemoveAt<T>(xs: seq<T>, k: int): (r: seq<T>)
    requires 0 <= k < |xs|
    ensures |r| == |xs| - 1
  {
    xs[..k] + xs[k + 1..]
  }

  /** Removal keeps every other entry, in order: earlier ones in place, later ones one down. */
  lemma RemoveAtContents<T>(xs: seq<T>, k: int)
    requires 0 <= k < |xs|
    ensures multiset(RemoveAt(xs, k)) + multiset{xs[k]} == multiset(xs)
    ensures forall i | 0 <= i < k :: RemoveAt(xs, k)[i] == xs[i]
    ensures forall i | k <= i < |xs| - 1 :: RemoveAt(xs, k)[i] == xs[i + 1]
  {
    assert xs == xs[..k] + [xs[k]] + xs[k + 1..];
  }

  /**
    Successive draws: each takes the entry at the chosen index and removes it.
    Yields the drawn words in order and what is left of the dictionary.
  */
  function Draw(s: Sampler, dict: seq<string>, cs: seq<int>): (r: Result<(seq<string>, seq<string>), BuildError>)
    requires ValidChoices(s, |dict|, cs)
    ensures r.Ok? <==> cs == [] || Bound(s, |dict| - |cs| + 1) > 0
    ensures r.Ok? ==> |r.value.0| == |cs| && |r.value.1| == |dict| - |cs|
    decreases |cs|
  {
    if cs == [] then Ok(([], dict))
    else if Bound(s, |dict|) <= 0 then Thrown(BoundNotPositive)
    else
      var k := cs[0];
      var rest := RemoveAt(dict, k);
      ValidChoicesTail(s, |dict|, cs);
      match Draw(s, rest, cs[1..])
      case Thrown(e) => Thrown(e)
      case Ok(drawn) =>
        Ok(([dict[k]] + drawn.0, drawn.1))
  }

  /** The drawn words and what is left of the dictionary are, together, a permutation of the dictionary. */
  lemma {:induction false} DrawPermutes(s: Sampler, dict: seq<string>, cs: seq<int>)
    requires ValidChoices(s, |dict|, cs) && Draw(s, dict, cs).Ok?
    ensures multiset(Draw(s, dict, cs).value.0) + multiset(Draw(s, dict, cs).value.1) == multiset(dict)
    decreases |cs|
  {
    if cs != [] {
      var rest := RemoveAt(dict, cs[0]);
      DrawCons(s, dict, cs);
      RemoveAtContents(dict, cs[0]);
      DrawPermutes(s, rest, cs[1..]);
      var r := Draw(s, dict, cs).value;
      var r' := Draw(s, rest, cs[1..]).value;
      assert multiset(r.0) == multiset{dict[cs[0]]} + multiset(r'.0);
    }
  }

  /** The 25 squares in row-major order: the draws with the free square at the centre. */
  function Layout(drawn: seq<string>): (cells: seq<string>)
    requires |drawn| == Draws
    ensures |cells| == Size * Size
    ensures cells[CentreIndex] == FreeSquare
    ensures forall p | 0 <= p < CentreIndex :: cells[p] == drawn[p]
    ensures forall p | CentreIndex < p < Size * Size :: cells[p] == drawn[p - 1]
  {
    drawn[..CentreIndex] + [FreeSquare] + drawn[CentreIndex..]
  }

  /** Cuts 25 row-major squares into the 5x5 grid. */
  function Rows(cells: seq<string>): (grid: seq<seq<string>>)
    requires |cells| == Size * Size
    ensures |grid| == Size
    ensures forall i | 0 <= i < Size :: |grid[i]| == Size
    ensures forall i, j | 0 <= i < Size && 0 <= j < Size :: grid[i][j] == cells[Size * i + j]
  {
    seq(Size, i requires 0 <= i < Size => cells[Size * i..Size * i + Size])
  }

  /** The constructor's running update of `longestWord`, applied to each square in turn. */
  function RunningLongest(cells: seq<string>, acc: int): int {
    if cells == [] then acc
    else RunningLongest(cells[1..], if |cells[0]| > acc then |cells[0]| else acc)
  }

  /** The running update ends at the maximum of its start value and every square's length. */
  lemma {:induction false} RunningLongestIsMax(cells: seq<string>, acc: int)
    ensures RunningLongest(cells, acc) >= acc
    ensures forall p | 0 <= p < |cells| :: |cells[p]| <= RunningLongest(cells, acc)
    ensures RunningLongest(cells, acc) == acc
         || exists p | 0 <= p < |cells| :: |cells[p]| == RunningLongest(cells, acc)
  {
    if cells != [] {
      var acc' := if |cells[0]| > acc then |cells[0]| else acc;
      RunningLongestIsMax(cells[1..], acc');
      var m := RunningLongest(cells, acc);
      assert m == RunningLongest(cells[1..], acc');
      forall p | 0 <= p < |cells| ensures |cells[p]| <= m {
        if p > 0 { assert cells[p] == cells[1..][p - 1]; }
      }
      if m != acc {
        if m == acc' {
          assert |cells[0]| == m;
        } else {
          var p :| 0 <= p < |cells[1..]| && |cells[1..][p]| == m;
          assert cells[p + 1] == cells[1..][p];
        }
      }
    }
  }

  /** A constructed board and what is left of the dictionary. */
  datatype Built = Built(board: Board, rest: seq<string>)

  /** The constructor, for either sampler. */
  function Build(s: Sampler, dict: seq<string>, cs: seq<int>): (r: Result<Built, BuildError>)
    requires |cs| == Draws && ValidChoices(s, |dict|, cs)
    ensures r.Ok? <==> Bound(s, |dict| - Draws + 1) > 0
    ensures r.Ok? ==> Shaped(r.value.board)
    ensures r.Ok? ==> r.value.board.grid[Centre][Centre] == FreeSquare
    ensures r.Ok? ==> |r.value.rest| == |dict| - Draws
  {
    match Draw(s, dict, cs)
    case Thrown(e) => Thrown(e)
    case Ok(drawn) =>
      var cells := Layout(drawn.0);
      Ok(Built(Board(Rows(cells), RunningLongest(cells, 0)), drawn.1))
  }

  /** `new BingoBoard(dict)` exactly as written: draws come from `nextInt(dict.size() - 1)`. */
  function NewBoard(dict: seq<string>, cs: seq<int>): (r: Result<Built, BuildError>)
    requires |cs| == Draws && ValidChoices(AsWritten, |dict|, cs)
    ensures r.Ok? <==> |dict| >= Draws + 1
    ensures r.Ok? ==> Shaped(r.value.board) && r.value.board.grid[Centre][Centre] == FreeSquare
  {
    Build(AsWritten, dict, cs)
  }

  /** The constructor with draws from `nextInt(dict.size())`, as evidently intended. */
  function NewBoardFixed(dict: seq<string>, cs: seq<int>): (r: Result<Built, BuildError>)
    requires |cs| == Draws && ValidChoices(Corrected, |dict|, cs)
    ensures r.Ok? <==> |dict| >= Draws
    ensures r.Ok? ==> Shaped(r.value.board) && r.value.board.grid[Centre][Centre] == FreeSquare
  {
    Build(Corrected, dict, cs)
  }

  // ---------------------------------------------------------------------------
  // What construction guarantees
  // ---------------------------------------------------------------------------

  /** The 25 squares of a board in row-major order. */
  function Squares(b: Board): (cells: seq<string>)
    requires Shaped(b)
    ensures |cells| == Size * Size
    ensures forall i, j | 0 <= i < Size && 0 <= j < Size :: b.grid[i][j] == cells[Size * i + j]
  {
    seq(Size * Size, p requires 0 <= p < Size * Size => b.grid[p / Size][p % Size])
  }

  /** The 24 squares other than the centre, row-major: the ones filled by draws. */
  function NonCentre(b: Board): (cells: seq<string>)
    requires Shaped(b)
    ensures |cells| == Draws
  {
    Squares(b)[..CentreIndex] + Squares(b)[CentreIndex + 1..]
  }

  /** The full row-major list is the drawn squares with the centre square put back in place. */
  lemma SquaresAroundCentre(b: Board)
    requires Shaped(b)
    ensures Squares(b) == NonCentre(b)[..CentreIndex] + [b.grid[Centre][Centre]] + NonCentre(b)[CentreIndex..]
  {
    var cells := Squares(b);
    assert cells[CentreIndex] == b.grid[Centre][Centre];
    assert cells == cells[..CentreIndex] + [cells[CentreIndex]] + cells[CentreIndex + 1..];
  }

  /** The first `t` draws are indices that exist in the dictionary as it then stands. */
  predicate InRange(size: int, cs: seq<int>, t: nat)
    requires t <= |cs|
  {
    forall u | 0 <= u < t :: 0 <= cs[u] < size - u
  }

  /** The dictionary as it stands after the first `t` draws have each removed their entry. */
  function Pool(dict: seq<string>, cs: seq<int>, t: nat): (pool: seq<string>)
    requires t <= |cs| && InRange(|dict|, cs, t)
    ensures |pool| == |dict| - t
  {
    if t == 0 then dict else RemoveAt(Pool(dict, cs, t - 1), cs[t - 1])
  }

  /** After the first draw, the next `t` draws are in range for the dictionary one entry smaller. */
  lemma InRangeTail(size: int, cs: seq<int>, t: nat)
    requires t + 1 <= |cs| && InRange(size, cs, t + 1)
    ensures InRange(size - 1, cs[1..], t)
  {
    forall u | 0 <= u < t ensures 0 <= cs[1..][u] < size - 1 - u {
      assert cs[1..][u] == cs[u + 1];
    }
  }

  /** Removing the first drawn entry, then `t` more, is removing `t + 1` entries. */
  lemma {:induction false} PoolShift(dict: seq<string>, cs: seq<int>, t: nat)
    requires t + 1 <= |cs| && InRange(|dict|, cs, t + 1)
    ensures InRange(|dict| - 1, cs[1..], t)
    ensures Pool(dict, cs, t + 1) == Pool(RemoveAt(dict, cs[0]), cs[1..], t)
  {
    InRangeTail(|dict|, cs, t);
    var rest := RemoveAt(dict, cs[0]);
    if t > 0 {
      PoolShift(dict, cs, t - 1);
      assert cs[1..][t - 1] == cs[t];
      calc {
        Pool(dict, cs, t + 1);
        RemoveAt(Pool(dict, cs, t), cs[t]);
        RemoveAt(Pool(rest, cs[1..], t - 1), cs[t]);
        Pool(rest, cs[1..], t);
      }
    }
  }

  /** A successful run of draws only used indices the pool of the moment has. */
  lemma DrawInRange(s: Sampler, dict: seq<string>, cs: seq<int>)
    requires ValidChoices(s, |dict|, cs) && Draw(s, dict, cs).Ok?
    ensures InRange(|dict|, cs, |cs|)
  {
    forall u | 0 <= u < |cs| ensures 0 <= cs[u] < |dict| - u {
      assert Bound(s, |dict| - u) >= Bound(s, |dict| - |cs| + 1) > 0;
    }
  }

  /** A successful run of draws is the first draw followed by a successful run on what it leaves. */
  lemma DrawCons(s: Sampler, dict: seq<string>, cs: seq<int>)
    requires ValidChoices(s, |dict|, cs) && cs != [] && Draw(s, dict, cs).Ok?
    ensures 0 <= cs[0] < |dict| && ValidChoices(s, |dict| - 1, cs[1..])
    ensures var rest := Draw(s, RemoveAt(dict, cs[0]), cs[1..]);
            && rest.Ok?
            && Draw(s, dict, cs).value.0 == [dict[cs[0]]] + rest.value.0
            && Draw(s, dict, cs).value.1 == rest.value.1
  {
    assert Bound(s, |dict|) > 0;
    ValidChoicesTail(s, |dict|, cs);
  }

  /** What a successful run of draws leaves is the pool after every removal. */
  lemma {:induction false} DrawLeavesPool(s: Sampler, dict: seq<string>, cs: seq<int>)
    requires ValidChoices(s, |dict|, cs) && Draw(s, dict, cs).Ok? && InRange(|dict|, cs, |cs|)
    ensures Draw(s, dict, cs).value.1 == Pool(dict, cs, |cs|)
    decreases |cs|
  {
    if cs != [] {
      var rest := RemoveAt(dict, cs[0]);
      DrawCons(s, dict, cs);
      PoolShift(dict, cs, |cs| - 1);
      DrawLeavesPool(s, rest, cs[1..]);
    }
  }

  /** Entry `cs[t]` of the pool after `t` draws, seen from the dictionary after the first draw. */
  lemma PoolStep(dict: seq<string>, cs: seq<int>, t: nat)
    requires 0 < t < |cs| && InRange(|dict|, cs, |cs|)
    ensures InRange(|dict| - 1, cs[1..], t - 1)
    ensures Pool(dict, cs, t)[cs[t]] == Pool(RemoveAt(dict, cs[0]), cs[1..], t - 1)[cs[1..][t - 1]]
  {
    PoolShift(dict, cs, t - 1);
  }

  /** The first `t` draws of a run that stays in range are themselves in range. */
  lemma InRangePrefix(size: int, cs: seq<int>, t: nat)
    requires t <= |cs| && InRange(size, cs, |cs|)
    ensures InRange(size, cs, t)
  {
  }

  /** The inductive step of `DrawTakesAt`: the t-th word of the run is the (t-1)-th word of the run after the first draw. */
  lemma DrawTakesLater(s: Sampler, dict: seq<string>, cs: seq<int>, t: nat)
    requires ValidChoices(s, |dict|, cs) && Draw(s, dict, cs).Ok? && InRange(|dict|, cs, |cs|)
    requires 0 < t < |cs|
    requires ValidChoices(s, |dict| - 1, cs[1..]) && Draw(s, RemoveAt(dict, cs[0]), cs[1..]).Ok?
    requires InRange(|dict| - 1, cs[1..], t - 1)
    requires Draw(s, RemoveAt(dict, cs[0]), cs[1..]).value.0[t - 1] == Pool(RemoveAt(dict, cs[0]), cs[1..], t - 1)[cs[1..][t - 1]]
    ensures InRange(|dict|, cs, t)
    ensures Draw(s, dict, cs).value.0[t] == Pool(dict, cs, t)[cs[t]]
  {
    DrawCons(s, dict, cs);
    var words := Draw(s, dict, cs).value.0;
    var later := Draw(s, RemoveAt(dict, cs[0]), cs[1..]).value.0;
    assert words == [dict[cs[0]]] + later;
    assert words[t] == later[t - 1];
    PoolStep(dict, cs, t);
  }

  /** The t-th word of a successful run of draws is the entry at the t-th index of the pool of the moment. */
  lemma {:induction false} DrawTakesAt(s: Sampler, dict: seq<string>, cs: seq<int>, t: nat)
    requires ValidChoices(s, |dict|, cs) && Draw(s, dict, cs).Ok? && InRange(|dict|, cs, |cs|)
    requires t < |cs|
    ensures Draw(s, dict, cs).value.0[t] == Pool(dict, cs, t)[cs[t]]
    decreases t
  {
    InRangePrefix(|dict|, cs, t);
    DrawCons(s, dict, cs);
    if t == 0 {
      assert Draw(s, dict, cs).value.0[0] == dict[cs[0]];
    } else {
      InRangeTail(|dict|, cs, |cs| - 1);
      DrawTakesAt(s, RemoveAt(dict, cs[0]), cs[1..], t - 1);
      InRangePrefix(|dict| - 1, cs[1..], t - 1);
      DrawTakesLater(s, dict, cs, t);
    }
  }

  /** Every word of a successful run of draws is the entry at its index in the pool of the moment. */
  lemma DrawTakesFromPool(s: Sampler, dict: seq<string>, cs: seq<int>)
    requires ValidChoices(s, |dict|, cs) && Draw(s, dict, cs).Ok? && InRange(|dict|, cs, |cs|)
    ensures forall t | 0 <= t < |cs| :: Draw(s, dict, cs).value.0[t] == Pool(dict, cs, t)[cs[t]]
  {
    forall t | 0 <= t < |cs| ensures Draw(s, dict, cs).value.0[t] == Pool(dict, cs, t)[cs[t]] {
      DrawTakesAt(s, dict, cs, t);
    }
  }

  /** A successful run of draws took each word at its index in the pool of the moment. */
  lemma DrawFollowsPool(s: Sampler, dict: seq<string>, cs: seq<int>)
    requires ValidChoices(s, |dict|, cs) && Draw(s, dict, cs).Ok?
    ensures InRange(|dict|, cs, |cs|)
    ensures Draw(s, dict, cs).value.1 == Pool(dict, cs, |cs|)
    ensures forall t | 0 <= t < |cs| :: Draw(s, dict, cs).value.0[t] == Pool(dict, cs, t)[cs[t]]
  {
    DrawInRange(s, dict, cs);
    DrawLeavesPool(s, dict, cs);
    DrawTakesFromPool(s, dict, cs);
  }

  /** The squares other than the centre are the draws, in order, and the dictionary keeps the rest. */
  lemma BuildKeepsDraws(s: Sampler, dict: seq<string>, cs: seq<int>)
    requires |cs| == Draws && ValidChoices(s, |dict|, cs) && Build(s, dict, cs).Ok?
    ensures NonCentre(Build(s, dict, cs).value.board) == Draw(s, dict, cs).value.0
    ensures Build(s, dict, cs).value.rest == Draw(s, dict, cs).value.1
  {
    var drawn := Draw(s, dict, cs).value.0;
    var cells := Layout(drawn);
    var b := Build(s, dict, cs).value.board;
    assert Squares(b) == cells by {
      forall p | 0 <= p < Size * Size ensures Squares(b)[p] == cells[p] {
        assert b.grid[p / Size][p % Size] == cells[Size * (p / Size) + p % Size];
      }
    }
    assert NonCentre(b) == drawn;
  }

  /** The drawn squares and what is left of the dictionary are a permutation of the dictionary. */
  lemma ConstructionPermutes(s: Sampler, dict: seq<string>, cs: seq<int>)
    requires |cs| == Draws && ValidChoices(s, |dict|, cs) && Build(s, dict, cs).Ok?
    ensures multiset(NonCentre(Build(s, dict, cs).value.board)) + multiset(Build(s, dict, cs).value.rest) == multiset(dict)
  {
    BuildKeepsDraws(s, dict, cs);
    DrawPermutes(s, dict, cs);
  }

  /**
    The centre square uses no entry; each other square holds the entry at its
    drawn index in the dictionary as it then stood, and that entry is removed:
    the 24 words plus what is left are a permutation of the dictionary.
  */
  lemma ConstructionConsumesDictionary(s: Sampler, dict: seq<string>, cs: seq<int>)
    requires |cs| == Draws && ValidChoices(s, |dict|, cs) && Build(s, dict, cs).Ok?
    ensures InRange(|dict|, cs, Draws)
    ensures forall t | 0 <= t < Draws :: NonCentre(Build(s, dict, cs).value.board)[t] == Pool(dict, cs, t)[cs[t]]
    ensures Build(s, dict, cs).value.rest == Pool(dict, cs, Draws)
    ensures |Build(s, dict, cs).value.rest| == |dict| - Draws
    ensures multiset(NonCentre(Build(s, dict, cs).value.board)) + multiset(Build(s, dict, cs).value.rest) == multiset(dict)
  {
    DrawFollowsPool(s, dict, cs);
    BuildKeepsDraws(s, dict, cs);
    ConstructionPermutes(s, dict, cs);
  }

  /** `longestWord` is the length of the longest square, so never below the free square's 11. */
  lemma ConstructionLongestIsMax(s: Sampler, dict: seq<string>, cs: seq<int>)
    requires |cs| == Draws && ValidChoices(s, |dict|, cs) && Build(s, dict, cs).Ok?
    ensures Fits(Build(s, dict, cs).value.board)
    ensures exists i, j | 0 <= i < Size && 0 <= j < Size ::
              |Build(s, dict, cs).value.board.grid[i][j]| == Build(s, dict, cs).value.board.longestWord
    ensures Build(s, dict, cs).value.board.longestWord >= |FreeSquare| == 11
  {
    var cells := Layout(Draw(s, dict, cs).value.0);
    var b := Build(s, dict, cs).value.board;
    RunningLongestIsMax(cells, 0);
    assert |cells[CentreIndex]| == |FreeSquare|;
    var p :| 0 <= p < |cells| && |cells[p]| == b.longestWord;
    assert b.grid[p / Size][p % Size] == cells[Size * (p / Size) + p % Size];
  }

  lemma {:induction false} DistinctCountsAtMostOne<T>(xs: seq<T>, x: T)
    requires Distinct(xs)
    ensures multiset(xs)[x] <= 1
  {
    if xs != [] {
      assert xs == [xs[0]] + xs[1..];
      assert Distinct(xs[1..]) by {
        forall p, q | 0 <= p < q < |xs[1..]| ensures xs[1..][p] != xs[1..][q] {
          assert xs[1..][p] == xs[p + 1] && xs[1..][q] == xs[q + 1];
        }
      }
      DistinctCountsAtMostOne(xs[1..], x);
      if xs[0] == x {
        assert x !in xs[1..] by {
          forall q | 0 <= q < |xs[1..]| ensures xs[1..][q] != x {
            assert xs[1..][q] == xs[q + 1];
          }
        }
      }
    }
  }

  /** A sequence whose multiset lies within that of a duplicate-free one is duplicate-free. */
  lemma SubMultisetDistinct<T>(ys: seq<T>, xs: seq<T>)
    requires Distinct(xs) && multiset(ys) <= multiset(xs)
    ensures Distinct(ys)
  {
    forall p, q | 0 <= p < q < |ys| ensures ys[p] != ys[q] {
      if ys[p] == ys[q] {
        assert ys == ys[..q] + ys[q..];
        assert ys[p] in ys[..q];
        assert ys[q] in ys[q..];
        assert multiset(ys)[ys[q]] >= 2;
        DistinctCountsAtMostOne(xs, ys[q]);
        assert false;
      }
    }
  }

  /** Inserting a new element into a duplicate-free sequence keeps it duplicate-free. */
  lemma InsertDistinct<T>(ys: seq<T>, x: T, k: int)
    requires Distinct(ys) && x !in ys && 0 <= k <= |ys|
    ensures Distinct(ys[..k] + [x] + ys[k..])
  {
    var zs := ys[..k] + [x] + ys[k..];
    forall p, q | 0 <= p < q < |zs| ensures zs[p] != zs[q] {
      var p' := if p < k then p else p - 1;
      var q' := if q <= k then q else q - 1;
      if p != k && q != k {
        assert zs[p] == ys[p'] && zs[q] == ys[q'] && p' < q';
      } else if p == k {
        assert zs[q] == ys[q'];
      } else {
        assert zs[p] == ys[p'];
      }
    }
  }

  /**
    A duplicate-free dictionary gives pairwise distinct drawn squares; if it
    also lacks the free-square text, all 25 squares are pairwise distinct.
  */
  lemma ConstructionDistinct(s: Sampler, dict: seq<string>, cs: seq<int>)
    requires |cs| == Draws && ValidChoices(s, |dict|, cs) && Build(s, dict, cs).Ok?
    requires Distinct(dict)
    ensures Distinct(NonCentre(Build(s, dict, cs).value.board))
    ensures FreeSquare !in dict ==> Distinct(Squares(Build(s, dict, cs).value.board))
  {
    var b := Build(s, dict, cs).value.board;
    var drawn := NonCentre(b);
    ConstructionPermutes(s, dict, cs);
    SubMultisetDistinct(drawn, dict);
    if FreeSquare !in dict {
      assert FreeSquare !in multiset(drawn);
      SquaresAroundCentre(b);
      InsertDistinct(drawn, FreeSquare, CentreIndex);
    }
  }

  /** Under `nextInt(size - 1)` no draw ever takes the last entry: it stays last. */
  lemma {:induction false} LastEntryStaysLast(dict: seq<string>, cs: seq<int>)
    requires |dict| > 0
    requires ValidChoices(AsWritten, |dict|, cs) && Draw(AsWritten, dict, cs).Ok?
    ensures |Draw(AsWritten, dict, cs).value.1| > 0
    ensures Draw(AsWritten, dict, cs).value.1[|Draw(AsWritten, dict, cs).value.1| - 1] == dict[|dict| - 1]
    decreases |cs|
  {
    if cs != [] {
      var k := cs[0];
      var rest := RemoveAt(dict, k);
      DrawCons(AsWritten, dict, cs);
      assert Bound(AsWritten, |dict|) > 0;
      assert k < |dict| - 1;
      assert rest[|rest| - 1] == dict[k + 1..][|dict| - k - 2];
      LastEntryStaysLast(rest, cs[1..]);
    }
  }

  /**
    The source's board never shows the dictionary's last entry (unless that
    entry is the free-square text itself), whatever `nextInt` returns.
  */
  lemma LastEntryNeverOnBoard(dict: seq<string>, cs: seq<int>)
    requires |cs| == Draws && ValidChoices(AsWritten, |dict|, cs) && NewBoard(dict, cs).Ok?
    requires Distinct(dict)
    ensures dict[|dict| - 1] !in NonCentre(NewBoard(dict, cs).value.board)
    ensures dict[|dict| - 1] in Squares(NewBoard(dict, cs).value.board) ==> dict[|dict| - 1] == FreeSquare
  {
    var last := dict[|dict| - 1];
    var built := NewBoard(dict, cs).value;
    LastEntryStaysLast(dict, cs);
    BuildKeepsDraws(AsWritten, dict, cs);
    ConstructionPermutes(AsWritten, dict, cs);
    DistinctCountsAtMostOne(dict, last);
    assert last in multiset(built.rest);
    SquaresAroundCentre(built.board);
  }

  /** A dictionary of exactly 24 entries is enough for the full range but not for the source's. */
  lemma TwentyFourEntries(dict: seq<string>, cs: seq<int>, cs': seq<int>)
    requires |dict| == Draws
    requires |cs| == Draws && ValidChoices(AsWritten, |dict|, cs)
    requires |cs'| == Draws && ValidChoices(Corrected, |dict|, cs')
    ensures NewBoard(dict, cs) == Thrown(BoundNotPositive)
    ensures NewBoardFixed(dict, cs').Ok?
  {
    var r := NewBoard(dict, cs);
    assert r.error.BoundNotPositive?;
  }

  /** The draws that put dictionary entry `k` first and then always take index 0. */
  function FirstPick(k: int): (cs: seq<int>)
    ensures |cs| == Draws && cs[0] == k
    ensures forall t | 0 < t < Draws :: cs[t] == 0
  {
    [k] + seq(Draws - 1, _ => 0)
  }

  /** With the full range, every entry of a 24-entry-or-larger dictionary can reach the board. */
  lemma EveryEntryReachable(dict: seq<string>, k: int)
    requires |dict| >= Draws && 0 <= k < |dict|
    ensures ValidChoices(Corrected, |dict|, FirstPick(k))
    ensures NewBoardFixed(dict, FirstPick(k)).Ok?
    ensures NewBoardFixed(dict, FirstPick(k)).value.board.grid[0][0] == dict[k]
  {
    var cs := FirstPick(k);
    var drawn := Draw(Corrected, dict, cs).value.0;
    BuildKeepsDraws(Corrected, dict, cs);
    DrawFollowsPool(Corrected, dict, cs);
    var b := NewBoardFixed(dict, cs).value.board;
    assert b.grid[0][0] == Squares(b)[0] == NonCentre(b)[0];
  }

  // ---------------------------------------------------------------------------
  // Marking
  // ---------------------------------------------------------------------------

  /**
    The two ways `setSquare` fails: its own `IllegalArgumentException` for a
    coordinate of 5 or more, and the array's `ArrayIndexOutOfBoundsException`
    for a negative one, which the method does not check.
  */
  datatype MarkError = InvalidCoordinates | IndexOutOfBounds

  /** `setSquare(x, y)`: overwrite square `(x, y)` with the marker. */
  function SetSquare(b: Board, x: int, y: int): (r: Result<Board, MarkError>)
    requires Shaped(b)
    ensures r.Ok? <==> 0 <= x < Size && 0 <= y < Size
    ensures r == Thrown(InvalidCoordinates) <==> x >= Size || y >= Size
    ensures r.Ok? ==> Shaped(r.value) && r.value.longestWord == b.longestWord
    ensures r.Ok? ==> r.value.grid[x][y] == Marker
    ensures r.Ok? ==> forall i, j | 0 <= i < Size && 0 <= j < Size && (i != x || j != y) ::
              r.value.grid[i][j] == b.grid[i][j]
  {
    if x >= Size || y >= Size then Thrown(InvalidCoordinates)
    else if x < 0 || y < 0 then Thrown(IndexOutOfBounds)
    else Ok(b.(grid := b.grid[x := b.grid[x][y := Marker]]))
  }

  /** Marking a square twice leaves the same board as marking it once. */
  lemma SetSquareIdempotent(b: Board, x: int, y: int)
    requires Shaped(b) && SetSquare(b, x, y).Ok?
    ensures SetSquare(SetSquare(b, x, y).value, x, y) == SetSquare(b, x, y)
  {
    var once := SetSquare(b, x, y).value;
    var twice := SetSquare(once, x, y).value;
    assert twice.grid == once.grid by {
      forall i | 0 <= i < Size ensures twice.grid[i] == once.grid[i] {
        assert forall j | 0 <= j < Size :: twice.grid[i][j] == once.grid[i][j];
      }
    }
  }

  /** Marks on two squares give the same board in either order. */
  lemma SetSquareCommutes(b: Board, x: int, y: int, x': int, y': int)
    requires Shaped(b) && SetSquare(b, x, y).Ok? && SetSquare(b, x', y').Ok?
    ensures SetSquare(SetSquare(b, x, y).value, x', y') == SetSquare(SetSquare(b, x', y').value, x, y)
  {
    var one := SetSquare(SetSquare(b, x, y).value, x', y').value;
    var two := SetSquare(SetSquare(b, x', y').value, x, y).value;
    assert one.grid == two.grid by {
      forall i | 0 <= i < Size ensures one.grid[i] == two.grid[i] {
        assert forall j | 0 <= j < Size :: one.grid[i][j] == two.grid[i][j];
      }
    }
  }

  /** Since the marker is one character wide, marking keeps every square within the padding width. */
  lemma SetSquareKeepsFit(b: Board, x: int, y: int)
    requires Shaped(b) && Fits(b) && b.longestWord >= |Marker|
    requires SetSquare(b, x, y).Ok?
    ensures Fits(SetSquare(b, x, y).value)
  {
  }

  // ---------------------------------------------------------------------------
  // Rendering
  // ---------------------------------------------------------------------------

  const Separator: string := "| "

  /** `n` spaces; none when `n` is not positive (the padding loop then never runs). */
  function Spaces(n: int): (r: string)
    ensures |r| == if n > 0 then n else 0
    ensures forall k | 0 <= k < |r| :: r[k] == ' '
    decreases n
  {
    if n <= 0 then "" else Spaces(n - 1) + " "
  }

  /** One square as `print` writes it: the word, padding up to `width`, then the separator. */
  function RenderCell(word: string, width: int): (r: string)
    ensures |r| == (if |word| > width then |word| else width) + |Separator|
  {
    word + Spaces(width - |word|) + Separator
  }

  /** A square is its word, then nothing but spaces, then the separator. */
  lemma RenderCellLayout(word: string, width: int)
    ensures var r := RenderCell(word, width);
            && r[..|word|] == word
            && (forall k | |word| <= k < |r| - |Separator| :: r[k] == ' ')
            && r[|r| - |Separator|..] == Separator
  {
    var r := RenderCell(word, width);
    assert r == word + Spaces(width - |word|) + Separator;
    assert r[..|word|] == word;
  }

  /** One row: its squares written one after another. */
  function RenderRow(row: seq<string>, width: int): string {
    if row == [] then "" else RenderCell(row[0], width) + RenderRow(row[1..], width)
  }

  /** A non-empty row ends with the separator of its last square. */
  lemma {:induction false} RenderRowEndsWithSeparator(row: seq<string>, width: int)
    requires row != []
    ensures var line := RenderRow(row, width);
            |line| >= |Separator| && line[|line| - |Separator|..] == Separator
  {
    var head := RenderCell(row[0], width);
    var tail := RenderRow(row[1..], width);
    assert RenderRow(row, width) == head + tail;
    if |row| > 1 {
      RenderRowEndsWithSeparator(row[1..], width);
      assert (head + tail)[|head + tail| - |Separator|..] == tail[|tail| - |Separator|..];
    } else {
      assert tail == [];
      assert head == (row[0] + Spaces(width - |row[0]|)) + Separator;
    }
  }

  /** `print`: one line per row of the grid, padded to `longestWord`. */
  function Render(b: Board): (lines: seq<string>)
    requires Shaped(b)
    ensures |lines| == Size
  {
    seq(Size, i requires 0 <= i < Size => RenderRow(b.grid[i], b.longestWord))
  }

  /** Where square `j` of a rendered row ends, when every square takes `width + 2` characters. */
  function SquareEnd(j: nat, width: nat): nat {
    (j + 1) * (width + 2)
  }

  /** The text of square `j` in a rendered row, when every square takes `width + 2` characters. */
  function Chunk(line: string, j: nat, width: nat): string
    requires SquareEnd(j, width) <= |line|
  {
    line[j * (width + 2)..SquareEnd(j, width)]
  }

  /** Drops trailing spaces. */
  function TrimRight(s: string): (r: string)
    ensures r <= s
    ensures r == [] || r[|r| - 1] != ' '
  {
    if s != [] && s[|s| - 1] == ' ' then TrimRight(s[..|s| - 1]) else s
  }

  /** Reads a word back from a rendered square: drop the separator, then the padding. */
  function Unpad(chunk: string): string
    requires |chunk| >= |Separator|
  {
    TrimRight(chunk[..|chunk| - |Separator|])
  }

  lemma {:induction false} TrimRightSpaces(word: string, n: int)
    requires word == [] || word[|word| - 1] != ' '
    ensures TrimRight(word + Spaces(n)) == word
    decreases n
  {
    if n > 0 {
      assert (word + Spaces(n))[..|word + Spaces(n)| - 1] == word + Spaces(n - 1);
      TrimRightSpaces(word, n - 1);
    } else {
      assert word + Spaces(n) == word;
    }
  }

  /** A square that fits the width and does not end in a space is read back exactly. */
  lemma UnpadRenderCell(word: string, width: int)
    requires |word| <= width
    requires word == [] || word[|word| - 1] != ' '
    ensures Unpad(RenderCell(word, width)) == word
  {
    var r := RenderCell(word, width);
    assert r[..|r| - |Separator|] == word + Spaces(width - |word|);
    TrimRightSpaces(word, width - |word|);
  }

  /** When every square fits, a rendered row takes `width + 2` characters per square. */
  lemma {:induction false} RenderRowLength(row: seq<string>, width: nat)
    requires forall j | 0 <= j < |row| :: |row[j]| <= width
    ensures |RenderRow(row, width)| == |row| * (width + 2)
  {
    if row != [] {
      RenderRowLength(row[1..], width);
      MulSucc(|row| - 1, width + 2);
    }
  }

  /** When every square fits, slice `j` of `width + 2` characters of a rendered row is square `j` rendered. */
  lemma {:induction false} RenderRowChunk(row: seq<string>, width: nat, j: nat)
    requires forall k | 0 <= k < |row| :: |row[k]| <= width
    requires j < |row|
    ensures SquareEnd(j, width) <= |RenderRow(row, width)|
    ensures Chunk(RenderRow(row, width), j, width) == RenderCell(row[j], width)
    decreases j
  {
    var head := RenderCell(row[0], width);
    var tail := RenderRow(row[1..], width);
    assert RenderRow(row, width) == head + tail;
    if j == 0 {
      ChunkFirst(head, tail, width);
    } else {
      RenderRowChunk(row[1..], width, j - 1);
      assert row[1..][j - 1] == row[j];
      ChunkAfterFirst(head, tail, j, width);
    }
  }

  /** When every square fits, a rendered row is evenly divided into one square per column. */
  lemma RenderRowAligned(row: seq<string>, width: nat)
    requires forall j | 0 <= j < |row| :: |row[j]| <= width
    ensures |RenderRow(row, width)| == |row| * (width + 2)
    ensures forall j | 0 <= j < |row| ::
              SquareEnd(j, width) <= |RenderRow(row, width)| &&
              Chunk(RenderRow(row, width), j, width) == RenderCell(row[j], width)
  {
    RenderRowLength(row, width);
    forall j | 0 <= j < |row|
      ensures SquareEnd(j, width) <= |RenderRow(row, width)| &&
              Chunk(RenderRow(row, width), j, width) == RenderCell(row[j], width)
    {
      RenderRowChunk(row, width, j);
    }
  }

  /** The first chunk of a line is its first square. */
  lemma ChunkFirst(head: string, tail: string, width: nat)
    requires |head| == width + 2
    ensures SquareEnd(0, width) <= |head + tail|
    ensures Chunk(head + tail, 0, width) == head
  {
    assert (head + tail)[..width + 2] == head;
  }

  /** Past a first square of width `width + 2`, chunks of a line are those of the rest. */
  lemma ChunkAfterFirst(head: string, tail: string, j: nat, width: nat)
    requires |head| == width + 2 && 0 < j && SquareEnd(j - 1, width) <= |tail|
    ensures SquareEnd(j, width) <= |head + tail|
    ensures Chunk(head + tail, j, width) == Chunk(tail, j - 1, width)
  {
    var w2 := width + 2;
    MulSucc(j, w2);
    MulSucc(j - 1, w2);
    var line := head + tail;
    assert line[w2 + (j - 1) * w2..w2 + j * w2] == tail[(j - 1) * w2..j * w2];
  }

  lemma MulSucc(j: int, w: int)
    ensures (j + 1) * w == j * w + w
  {
  }

  /**
    `line` prints `row` at `width`: one slice of `width + 2` characters per
    square, each slice that square rendered, and the word read back exactly
    from its slice when it has no trailing space.
  */
  predicate PrintsRow(line: string, row: seq<string>, width: nat) {
    && |line| == |row| * (width + 2)
    && forall j | 0 <= j < |row| ::
         && SquareEnd(j, width) <= |line|
         && Chunk(line, j, width) == RenderCell(row[j], width)
         && (row[j] == [] || row[j][|row[j]| - 1] != ' ' ==> Unpad(Chunk(line, j, width)) == row[j])
  }

  /** A rendered row whose squares fit prints it in the sense of `PrintsRow`. */
  lemma RenderRowReadsBack(row: seq<string>, width: nat)
    requires forall j | 0 <= j < |row| :: |row[j]| <= width
    ensures PrintsRow(RenderRow(row, width), row, width)
  {
    var line := RenderRow(row, width);
    RenderRowAligned(row, width);
    forall j | 0 <= j < |row|
      ensures SquareEnd(j, width) <= |line|
      ensures Chunk(line, j, width) == RenderCell(row[j], width)
      ensures row[j] == [] || row[j][|row[j]| - 1] != ' ' ==> Unpad(Chunk(line, j, width)) == row[j]
    {
      if row[j] == [] || row[j][|row[j]| - 1] != ' ' {
        UnpadRenderCell(row[j], width);
      }
    }
  }

  /**
    Rendering a board whose squares fit gives five lines, each printing its
    row: `5 * (longestWord + 2)` characters, one slice per square, and every
    square with no trailing space read back from its slice.
  */
  lemma RenderReadsBack(b: Board)
    requires Shaped(b) && Fits(b) && b.longestWord >= 0
    ensures forall i | 0 <= i < Size :: PrintsRow(Render(b)[i], b.grid[i], b.longestWord)
  {
    forall i | 0 <= i < Size ensures PrintsRow(Render(b)[i], b.grid[i], b.longestWord) {
      var row := b.grid[i];
      assert forall j | 0 <= j < |row| :: |row[j]| <= b.longestWord;
      assert Render(b)[i] == RenderRow(row, b.longestWord);
      RenderRowReadsBack(row, b.longestWord);
    }
  }
}
