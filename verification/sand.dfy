/**
 * The sandpile simulation (sand/sand.js): a toroidal grid of grain heights,
 * grains that slide to a neighbour when the drop is steep enough, and wind
 * that picks up a grain and sets it down `wind` cells further along its row
 * unless the cell is sheltered by higher sand upwind.
 *
 * The program keeps the grid and the sliders in globals; here they are the
 * `Grid` and `Config` arguments, and every operation returns the new grid.
 */
module Sand {

  /** Heights by row, then column: `grid[y][x]`. */
  type Grid = seq<seq<int>>

  /** The canvas size and the slider settings the operations read. */
  datatype Config = Config(
    width: int,
    height: int,
    avalanching: bool,
    threshold: int,
    sheltering: bool,
    shelterAngle: int,
    wind: nat)

  /** Depth at which avalanche stops cascading. */
  const MaxDepth: nat := 10

  /** `grid` has `height` rows of `width` cells each, on a non-empty canvas. */
  predicate Fits(cfg: Config, grid: Grid) {
    && cfg.width > 0
    && cfg.height > 0
    && |grid| == cfg.height
    && forall y :: 0 <= y < |grid| ==> |grid[y]| == cfg.width
  }

  predicate OnGrid(cfg: Config, x: int, y: int) {
    0 <= x < cfg.width && 0 <= y < cfg.height
  }

  /** JavaScript's `%`: the remainder takes the sign of the dividend. */
  function JsRem(v: int, m: int): int
    requires m > 0
  {
    if v >= 0 then v % m else -((-v) % m)
  }

  /**
   * `v % m`, then `+ m` if that is negative: the coordinate wrapped onto
   * the torus. It agrees with the mathematical (never negative) modulus.
   */
  function Wrap(v: int, m: int): (r: int)
    requires m > 0
    ensures 0 <= r < m
    ensures r == v % m
  {
    var q := JsRem(v, m);
    NegatedRemainder(if v < 0 then -v else v, m);
    if q < 0 then q + m else q
  }

  /** Dafny's `%` of `-a` in terms of the remainder of `a`. */
  lemma NegatedRemainder(a: int, m: int)
    requires a >= 0 && m > 0
    ensures (-a) % m == if a % m == 0 then 0 else m - a % m
  {
    var k, q := a / m, a % m;
    assert a == k * m + q;
    if q == 0 {
      assert -a == (-k) * m + 0;
      UniqueRemainder(-a, -k, 0, m);
    } else {
      assert -a == (-k - 1) * m + (m - q);
      UniqueRemainder(-a, -k - 1, m - q, m);
    }
  }

  /** Euclidean division leaves one remainder: any `v == k * m + q` with `0 <= q < m` names it. */
  lemma UniqueRemainder(v: int, k: int, q: int, m: int)
    requires m > 0 && 0 <= q < m && v == k * m + q
    ensures v % m == q
  {
    var k', q' := v / m, v % m;
    assert v == k' * m + q';
    var d := k - k';
    assert d * m == q' - q by {
      assert k * m - k' * m == (k - k') * m;
    }
    MultipleBounds(d, m);
  }

  lemma MultipleBounds(d: int, m: int)
    requires m > 0
    ensures d >= 1 ==> d * m >= m
    ensures d <= -1 ==> d * m <= -m
  {
    if d >= 1 {
      assert d * m == (d - 1) * m + m;
    } else if d <= -1 {
      assert d * m == (d + 1) * m - m;
    }
  }

  /** Sum of a row. */
  function RowTotal(row: seq<int>): int {
    if |row| == 0 then 0 else row[0] + RowTotal(row[1..])
  }

  /** Number of grains on the whole grid. */
  function Total(grid: Grid): int {
    if |grid| == 0 then 0 else RowTotal(grid[0]) + Total(grid[1..])
  }

  lemma {:induction false} RowTotalUpdate(row: seq<int>, x: int, v: int)
    requires 0 <= x < |row|
    ensures RowTotal(row[x := v]) == RowTotal(row) - row[x] + v
  {
    if x > 0 {
      assert row[x := v][1..] == row[1..][x - 1 := v];
      RowTotalUpdate(row[1..], x - 1, v);
    } else {
      assert row[x := v][1..] == row[1..];
    }
  }

  lemma {:induction false} TotalUpdate(grid: Grid, y: int, row: seq<int>)
    requires 0 <= y < |grid|
    ensures Total(grid[y := row]) == Total(grid) - RowTotal(grid[y]) + RowTotal(row)
  {
    if y > 0 {
      assert grid[y := row][1..] == grid[1..][y - 1 := row];
      TotalUpdate(grid[1..], y - 1, row);
    } else {
      assert grid[y := row][1..] == grid[1..];
    }
  }

  /**
   * `desert[y][x] += d`: one cell changes by `d`, every other cell keeps its
   * height, and the grid gains `d` grains.
   */
  function Raise(cfg: Config, grid: Grid, x: int, y: int, d: int): (r: Grid)
    requires Fits(cfg, grid) && OnGrid(cfg, x, y)
    ensures Fits(cfg, r)
    ensures Total(r) == Total(grid) + d
    ensures forall j, i :: 0 <= j < cfg.height && 0 <= i < cfg.width ==>
              r[j][i] == grid[j][i] + (if i == x && j == y then d else 0)
  {
    var row := grid[y][x := grid[y][x] + d];
    RowTotalUpdate(grid[y], x, grid[y][x] + d);
    TotalUpdate(grid, y, row);
    grid[y := row]
  }

  /** The drop from the (wrapped) top cell to the (wrapped) bottom cell reaches the threshold. */
  predicate Steep(cfg: Config, grid: Grid, topX: int, topY: int, botX: int, botY: int)
    requires Fits(cfg, grid)
  {
    var w, h := cfg.width, cfg.height;
    grid[Wrap(topY, h)][Wrap(topX, w)] - grid[Wrap(botY, h)][Wrap(botX, w)] >= cfg.threshold
  }

  /** `r` is `grid` with one grain taken from `(fromX, fromY)` and one added at `(toX, toY)`. */
  predicate MovesOne(cfg: Config, grid: Grid, r: Grid, fromX: int, fromY: int, toX: int, toY: int)
    requires Fits(cfg, grid) && Fits(cfg, r)
  {
    forall j, i :: 0 <= j < cfg.height && 0 <= i < cfg.width ==>
      r[j][i] == grid[j][i]
                 - (if i == fromX && j == fromY then 1 else 0)
                 + (if i == toX && j == toY then 1 else 0)
  }

  /** Lowering one cell and then raising another moves exactly one grain (none when the cells coincide). */
  lemma LowerThenRaise(cfg: Config, grid: Grid, fromX: int, fromY: int, toX: int, toY: int)
    requires Fits(cfg, grid) && OnGrid(cfg, fromX, fromY) && OnGrid(cfg, toX, toY)
    ensures var r := Raise(cfg, Raise(cfg, grid, fromX, fromY, -1), toX, toY, 1);
            MovesOne(cfg, grid, r, fromX, fromY, toX, toY)
  {
    var lowered := Raise(cfg, grid, fromX, fromY, -1);
    var r := Raise(cfg, lowered, toX, toY, 1);
    forall j, i | 0 <= j < cfg.height && 0 <= i < cfg.width
      ensures r[j][i] == grid[j][i] - (if i == fromX && j == fromY then 1 else 0) + (if i == toX && j == toY then 1 else 0)
    {
      assert r[j][i] == lowered[j][i] + (if i == toX && j == toY then 1 else 0);
    }
  }

  /** The termination measure of the cascade: how many levels are left. */
  function Remaining(n: nat): nat {
    if n < MaxDepth then MaxDepth - n else 0
  }

  /**
   * `avalanche(top_x, top_y, bot_x, bot_y, n)`: with avalanching on and
   * depth below 10, wrap the four coordinates and, when the top cell stands
   * at least `threshold` above the bottom one, move a grain from top to
   * bottom one level deeper (which may cascade further).
   */
  function Avalanche(cfg: Config, grid: Grid, topX: int, topY: int, botX: int, botY: int, n: nat): (r: Grid)
    requires Fits(cfg, grid)
    ensures Fits(cfg, r)
    ensures Total(r) == Total(grid)
    ensures !cfg.avalanching || n >= MaxDepth ==> r == grid
    ensures !Steep(cfg, grid, topX, topY, botX, botY) ==> r == grid
    ensures cfg.avalanching && n == MaxDepth - 1 && Steep(cfg, grid, topX, topY, botX, botY) ==>
              MovesOne(cfg, grid, r, Wrap(topX, cfg.width), Wrap(topY, cfg.height), Wrap(botX, cfg.width), Wrap(botY, cfg.height))
    decreases Remaining(n), 1
  {
    if !cfg.avalanching || n >= MaxDepth then grid
    else
      var w, h := cfg.width, cfg.height;
      var topX', topY', botX', botY' := Wrap(topX, w), Wrap(topY, h), Wrap(botX, w), Wrap(botY, h);
      if grid[topY'][topX'] - grid[botY'][botX'] >= cfg.threshold then
        Slide(cfg, grid, topX', topY', botX', botY', n)
      else
        grid
  }

  /**
   * The steep case of `avalanche`: `remove_grain` at the top cell, then
   * `add_grain` at the bottom cell, both one level deeper. On the last level
   * neither cascades, so exactly one grain moves.
   */
  function Slide(cfg: Config, grid: Grid, topX: int, topY: int, botX: int, botY: int, n: nat): (r: Grid)
    requires Fits(cfg, grid) && OnGrid(cfg, topX, topY) && OnGrid(cfg, botX, botY)
    requires n < MaxDepth
    ensures Fits(cfg, r)
    ensures Total(r) == Total(grid)
    ensures !cfg.avalanching || n == MaxDepth - 1 ==> MovesOne(cfg, grid, r, topX, topY, botX, botY)
    decreases Remaining(n), 0
  {
    var lowered := RemoveGrain(cfg, grid, topX, topY, n + 1);
    var r := AddGrain(cfg, lowered, botX, botY, n + 1);
    LowerThenRaise(cfg, grid, topX, topY, botX, botY);
    r
  }

  /**
   * `add_grain(x, y, n)`: one more grain at `(x, y)`, after which the cell
   * may shed to its right, left, upper and lower neighbour, in that order.
   * The grid ends with exactly one grain more; past the depth limit, or with
   * avalanching off, only the one cell changes.
   */
  function AddGrain(cfg: Config, grid: Grid, x: int, y: int, n: nat): (r: Grid)
    requires Fits(cfg, grid) && OnGrid(cfg, x, y)
    ensures Fits(cfg, r)
    ensures Total(r) == Total(grid) + 1
    ensures !cfg.avalanching || n >= MaxDepth ==> r == Raise(cfg, grid, x, y, 1)
    decreases Remaining(n), 2
  {
    var g0 := Raise(cfg, grid, x, y, 1);
    var g1 := Avalanche(cfg, g0, x, y, x + 1, y, n);
    var g2 := Avalanche(cfg, g1, x, y, x - 1, y, n);
    var g3 := Avalanche(cfg, g2, x, y, x, y - 1, n);
    Avalanche(cfg, g3, x, y, x, y + 1, n)
  }

  /**
   * `remove_grain(x, y, n)`: one grain fewer at `(x, y)`, after which the
   * left, right, upper and lower neighbour may shed into the cell. The grid
   * ends with exactly one grain fewer.
   */
  function RemoveGrain(cfg: Config, grid: Grid, x: int, y: int, n: nat): (r: Grid)
    requires Fits(cfg, grid) && OnGrid(cfg, x, y)
    ensures Fits(cfg, r)
    ensures Total(r) == Total(grid) - 1
    ensures !cfg.avalanching || n >= MaxDepth ==> r == Raise(cfg, grid, x, y, -1)
    decreases Remaining(n), 2
  {
    var g0 := Raise(cfg, grid, x, y, -1);
    var g1 := Avalanche(cfg, g0, x - 1, y, x, y, n);
    var g2 := Avalanche(cfg, g1, x + 1, y, x, y, n);
    var g3 := Avalanche(cfg, g2, x, y - 1, x, y, n);
    Avalanche(cfg, g3, x, y + 1, x, y, n)
  }

  /**
   * Offset `steps` to the left of `x` shelters the cell: the height
   * difference times the shelter angle is at least the distance.
   */
  predicate Shelters(angle: int, row: seq<int>, x: int, steps: int) {
    && 0 <= x < |row|
    && (row[Wrap(x - steps, |row|)] - row[x]) * angle >= steps
  }

  /**
   * `is_sheltered(x, y)`: false with sheltering off; otherwise true exactly
   * when some upwind offset from 1 to `width - 1` shelters the cell.
   */
  method IsSheltered(cfg: Config, grid: Grid, x: int, y: int) returns (b: bool)
    requires Fits(cfg, grid) && OnGrid(cfg, x, y)
    ensures b <==> cfg.sheltering &&
                   exists steps :: 1 <= steps < cfg.width && Shelters(cfg.shelterAngle, grid[y], x, steps)
  {
    if !cfg.sheltering {
      return false;
    }
    var row := grid[y];
    var steps := 1;
    while steps < cfg.width
      invariant 1 <= steps <= cfg.width
      invariant forall s :: 1 <= s < steps ==> !Shelters(cfg.shelterAngle, row, x, s)
    {
      var nx := JsRem(x - steps, cfg.width);
      if nx < 0 {
        nx := nx + cfg.width;
      }
      var rise := row[nx] - row[x];
      if rise * cfg.shelterAngle >= steps {
        assert Shelters(cfg.shelterAngle, row, x, steps);
        return true;
      }
      steps := steps + 1;
    }
    return false;
  }

  /** Where the wind sets down a grain picked up at column `x`. */
  function Downwind(cfg: Config, x: int): (nx: int)
    requires cfg.width > 0 && 0 <= x
    ensures 0 <= nx < cfg.width
    ensures nx == (x + cfg.wind) % cfg.width
  {
    JsRem(x + cfg.wind, cfg.width)
  }

  /**
   * The body of `blow_grain` once a cell is chosen: take a grain from
   * `(x, y)`, then drop one `wind` cells along the row. The grid keeps its
   * shape and its number of grains; without avalanching exactly one grain
   * moves and no other cell changes.
   */
  function Blow(cfg: Config, grid: Grid, x: int, y: int): (r: Grid)
    requires Fits(cfg, grid) && OnGrid(cfg, x, y)
    ensures Fits(cfg, r)
    ensures Total(r) == Total(grid)
    ensures !cfg.avalanching ==> MovesOne(cfg, grid, r, x, y, (x + cfg.wind) % cfg.width, y)
  {
    var lifted := RemoveGrain(cfg, grid, x, y, 0);
    var r := AddGrain(cfg, lifted, Downwind(cfg, x), y, 0);
    LowerThenRaise(cfg, grid, x, y, Downwind(cfg, x), y);
    r
  }
}
