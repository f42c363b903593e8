/**
 * The grid engine (world.py): three N x N layers, one for organisms, one
 * for deposits and one for shelters, the helpers that scan them, and the
 * phased `update` tick that moves organisms through a second buffer.
 *
 * The world keeps ghost footprints of every organism and every shelter it
 * has ever held. `Valid` says that the layers, the shelters' occupant lists
 * and the armies only refer to objects in those footprints, that every
 * soldier's recorded position is a cell of the grid, that no shelter seats
 * more than its capacity and that every shelter stands where it records.
 */
module WorldEngine {
  import opened Wrappers
  import opened Oracle
  import opened Entities
  import opened Geometry

  /** The three things `find_nearest_target` can send an organism to do. */
  datatype Action = Attack | Shelter | Mate

  /** A result of `find_nearest_target`: a cell and what to do there. */
  datatype Target = Target(x: int, y: int, action: Action)

  /** What `count_entities` accumulates for one faction. */
  datatype Tally = Tally(organisms: int, shelters: int, ore: int, misc: int)
  {
    function Plus(t: Tally): Tally {
      Tally(organisms + t.organisms, shelters + t.shelters, ore + t.ore, misc + t.misc)
    }
  }

  const NoTally := Tally(0, 0, 0, 0)

  /** How `initialize_world` seeds a cell from its draw: faction 1 below `p1`, faction 2 below `p1 + p2`. */
  function SeedKind(p1: real, p2: real, roll: Unit): (r: Option<Species>)
    ensures r == Some(Species1) <==> roll < p1
    ensures r == Some(Species2) <==> p1 <= roll < p1 + p2
    ensures r == None <==> p1 <= roll && p1 + p2 <= roll
  {
    if roll < p1 then Some(Species1) else if roll < p1 + p2 then Some(Species2) else None
  }

  /** The cells of a list that are empty in layer `g`, in list order. */
  function Free(g: array2<Entity?>, ns: seq<(int, int)>): (r: seq<(int, int)>)
    requires forall p :: p in ns ==> 0 <= p.0 < g.Length0 && 0 <= p.1 < g.Length1
    reads g
    ensures forall p :: p in r <==> p in ns && g[p.0, p.1] == null
    ensures |r| <= |ns|
  {
    if ns == [] then []
    else (if g[ns[0].0, ns[0].1] == null then [ns[0]] else []) + Free(g, ns[1..])
  }

  /** The cells of a list that are empty in both the organism layer `g` and the shelter layer `s`, in list order. */
  function Open(g: array2<Entity?>, s: array2<Construction?>, ns: seq<(int, int)>): (r: seq<(int, int)>)
    requires forall p :: p in ns ==> 0 <= p.0 < g.Length0 && 0 <= p.1 < g.Length1 && 0 <= p.0 < s.Length0 && 0 <= p.1 < s.Length1
    reads g, s
    ensures forall p :: p in r <==> p in ns && g[p.0, p.1] == null && s[p.0, p.1] == null
    ensures |r| <= |ns|
  {
    if ns == [] then []
    else (if g[ns[0].0, ns[0].1] == null && s[ns[0].0, ns[0].1] == null then [ns[0]] else []) + Open(g, s, ns[1..])
  }

  /** A list of cells strictly increasing in row-major order, hence without repeats. */
  predicate Increasing(ns: seq<(int, int)>) {
    forall m, n :: 0 <= m < n < |ns| ==> Before(ns[m], ns[n])
  }

  predicate NoRepeats(ns: seq<(int, int)>) {
    forall m, n :: 0 <= m < n < |ns| ==> ns[m] != ns[n]
  }

  /** `defs` records the organisms `s` in order as defenders of shelter `c`. */
  predicate Defends(defs: seq<(Entity, Construction)>, s: seq<Entity>, c: Construction) {
    |defs| == |s| && forall k :: 0 <= k < |s| ==> defs[k] == (s[k], c)
  }

  lemma DefendsSnoc(defs: seq<(Entity, Construction)>, s: seq<Entity>, m: nat, c: Construction)
    requires m < |s| && Defends(defs, s[..m], c)
    ensures Defends(defs + [(s[m], c)], s[..m + 1], c)
  {
  }

  /** Whatever a list holds, its last element or the list without it holds. */
  lemma PopLast(p: seq<(int, int)>)
    requires p != []
    ensures forall r :: r in p ==> r in p[..|p| - 1] || r == p[|p| - 1]
  {
    forall r | r in p ensures r in p[..|p| - 1] || r == p[|p| - 1] {
      var k :| 0 <= k < |p| && p[k] == r;
      if k < |p| - 1 {
        assert p[..|p| - 1][k] == r;
      }
    }
  }

  /** Filtering keeps the order: the empty cells of an increasing list are increasing. */
  lemma {:induction false} FreeIncreasing(g: array2<Entity?>, ns: seq<(int, int)>)
    requires forall p :: p in ns ==> 0 <= p.0 < g.Length0 && 0 <= p.1 < g.Length1
    requires Increasing(ns)
    ensures Increasing(Free(g, ns))
  {
    if ns != [] {
      assert Increasing(ns[1..]);
      FreeIncreasing(g, ns[1..]);
      forall q | q in Free(g, ns[1..]) ensures Before(ns[0], q) {
        var n :| 0 <= n < |ns[1..]| && ns[1..][n] == q;
        assert ns[n + 1] == q;
      }
    }
  }

  /** The ore a deposit holds; food and misc deposits hold none. */
  function OreIn(r: Option<Resource>): int {
    if r.Some? && r.value.kind == Ore then r.value.amount else 0
  }

  function OreInRow(row: seq<Option<Resource>>): int {
    if row == [] then 0 else OreIn(row[0]) + OreInRow(row[1..])
  }

  /** The ore lying in a snapshot of the deposit layer. */
  function OreTotal(layer: seq<seq<Option<Resource>>>): int {
    if layer == [] then 0 else OreInRow(layer[0]) + OreTotal(layer[1..])
  }

  /** Every ore deposit of `after` was already there, unchanged, in `before`. */
  predicate NoNewOre(before: seq<seq<Option<Resource>>>, after: seq<seq<Option<Resource>>>) {
    && |before| == |after|
    && (forall i :: 0 <= i < |after| ==> |before[i]| == |after[i]|)
    && (forall i, j :: 0 <= i < |after| && 0 <= j < |after[i]| && after[i][j].Some? && after[i][j].value.kind == Ore ==>
          after[i][j] == before[i][j])
  }

  lemma {:induction false} NoNewOreInRow(before: seq<Option<Resource>>, after: seq<Option<Resource>>)
    requires |before| == |after|
    requires forall j :: 0 <= j < |after| && after[j].Some? && after[j].value.kind == Ore ==> after[j] == before[j]
    requires forall j :: 0 <= j < |before| ==> OreIn(before[j]) >= 0
    ensures OreInRow(after) <= OreInRow(before)
  {
    if after != [] {
      NoNewOreInRow(before[1..], after[1..]);
    }
  }

  /**
   * No ore appears: when every ore deposit of `after` was there in `before`
   * and deposits hold non-negative amounts, `after` holds at most as much ore.
   */
  lemma {:induction false} NoNewOreBounds(before: seq<seq<Option<Resource>>>, after: seq<seq<Option<Resource>>>)
    requires NoNewOre(before, after)
    requires forall i, j :: 0 <= i < |before| && 0 <= j < |before[i]| ==> OreIn(before[i][j]) >= 0
    ensures OreTotal(after) <= OreTotal(before)
  {
    if after != [] {
      NoNewOreInRow(before[0], after[0]);
      NoNewOreBounds(before[1..], after[1..]);
    }
  }

  /** Dropping one entry of a list without repeats drops exactly that cell. */
  lemma RemoveAtDrops(ns: seq<(int, int)>, k: nat)
    requires NoRepeats(ns) && k < |ns|
    ensures var r := ns[..k] + ns[k + 1..];
            && |r| == |ns| - 1 && NoRepeats(r)
            && forall q :: q in r <==> q in ns && q != ns[k]
  {
    var r := ns[..k] + ns[k + 1..];
    assert forall m :: 0 <= m < |r| ==> r[m] == if m < k then ns[m] else ns[m + 1];
    forall q | q in ns && q != ns[k] ensures q in r {
      var m :| 0 <= m < |ns| && ns[m] == q;
      assert r[if m < k then m else m - 1] == q;
    }
  }

  /** Row `i` of a grid `n` cells wide. */
  function RowCells(i: int, n: nat): (r: seq<(int, int)>)
    ensures |r| == n
    ensures forall m :: 0 <= m < n ==> r[m] == (i, m)
  {
    if n == 0 then [] else RowCells(i, n - 1) + [(i, n - 1)]
  }

  /** The first `rows` rows of a grid `n` cells wide, each cell once. */
  function Cells(rows: nat, n: nat): (r: seq<(int, int)>)
    ensures |r| == rows * n
    ensures forall p :: p in r <==> 0 <= p.0 < rows && 0 <= p.1 < n
    ensures NoRepeats(r)
  {
    if rows == 0 then []
    else
      var a, b := Cells(rows - 1, n), RowCells(rows - 1, n);
      assert |a + b| == rows * n by {
        assert (rows - 1) * n + n == rows * n;
      }
      assert forall p :: p in b <==> p.0 == rows - 1 && 0 <= p.1 < n by {
        forall p: (int, int) | p.0 == rows - 1 && 0 <= p.1 < n ensures p in b {
          assert b[p.1] == p;
        }
      }
      assert NoRepeats(a + b) by {
        forall m, k | 0 <= m < k < |a + b| ensures (a + b)[m] != (a + b)[k] {
          if k >= |a| && m < |a| {
            assert (a + b)[m] in a && (a + b)[k] in b;
          }
        }
      }
      a + b
  }

  /**
   * Where the organism seeding's draws stand on reaching cell `(i, j)` when
   * they started at draw `t0`: every earlier cell, in row-major order, took
   * one draw, and one more for the role of the organism it received.
   */
  function SeedCursor(rng: Rng, p1: real, p2: real, t0: nat, size: nat, i: nat, j: nat): (c: nat)
    requires j <= size
    ensures c >= t0
    decreases i, j
  {
    if j == 0 then (if i == 0 then t0 else SeedCursor(rng, p1, p2, t0, size, i - 1, size))
    else
      var c := SeedCursor(rng, p1, p2, t0, size, i, j - 1);
      c + (if SeedKind(p1, p2, rng.reals(c)).Some? then 2 else 1)
  }

  /**
   * What `update_resources` gives an empty cell whose draws start at cursor
   * `c`: food when the first draw is below 0.1, its amount from the next
   * draw; otherwise misc when the second draw is below 0.1, its amount from
   * the third; otherwise nothing. Ore never regrows.
   */
  function Regrowth(rng: Rng, c: nat): (r: Option<Resource>)
    ensures r.Some? ==> r.value.kind != Ore && 1 <= r.value.amount <= 3
    ensures r.Some? <==> rng.reals(c) < 0.1 || rng.reals(c + 1) < 0.1
  {
    if rng.reals(c) < 0.1 then Some(Resource(Food, 1 + rng.BelowAt(c + 1, 3), 1.0, 0.0))
    else if rng.reals(c + 1) < 0.1 then Some(Resource(Misc, 1 + rng.BelowAt(c + 2, 3), 0.5, 0.5))
    else None
  }

  /** The draws an empty cell uses: two for food found, three for misc found, two for nothing. */
  function RegrowDraws(rng: Rng, c: nat): nat {
    if rng.reals(c) < 0.1 then 2 else if rng.reals(c + 1) < 0.1 then 3 else 2
  }

  /**
   * The cursor `update_resources` has reached before cell `(i, j)`, starting
   * at `t0` on the layer `s`, in row-major order; cells holding a deposit
   * draw nothing.
   */
  function RegrowCursor(rng: Rng, s: seq<seq<Option<Resource>>>, t0: nat, n: nat, i: nat, j: nat): (c: nat)
    requires i <= |s| && j <= n && (j > 0 ==> i < |s|) && forall r :: 0 <= r < |s| ==> |s[r]| == n
    ensures c >= t0
    decreases i, j
  {
    if j == 0 then (if i == 0 then t0 else RegrowCursor(rng, s, t0, n, i - 1, n))
    else
      var c := RegrowCursor(rng, s, t0, n, i, j - 1);
      c + (if s[i][j - 1].Some? then 0 else RegrowDraws(rng, c))
  }

  /** The deposit cell `(a, b)` of layer `s` holds after `update_resources`: its own, or what regrows there. */
  function Regrown(rng: Rng, s: seq<seq<Option<Resource>>>, t0: nat, n: nat, a: nat, b: nat): Option<Resource>
    requires a < |s| && b < n && forall r :: 0 <= r < |s| ==> |s[r]| == n
  {
    if s[a][b].Some? then s[a][b] else Regrowth(rng, RegrowCursor(rng, s, t0, n, a, b))
  }

  /**
   * The cells `n` successive deposit draws, from draw `t` on, pick out of
   * `free`: each draw picks a position among the cells not yet picked,
   * until `n` are picked or none is left.
   */
  function OreDraws(rng: Rng, t: nat, free: seq<(int, int)>, n: nat): (r: seq<(int, int)>)
    ensures n <= |free| ==> |r| == n
    decreases n
  {
    if n == 0 || free == [] then []
    else
      var k := rng.BelowAt(t, |free|);
      [free[k]] + OreDraws(rng, t + 1, free[..k] + free[k + 1..], n - 1)
  }

  /** One deposit draw: the first cell picked, then the draws among the cells left. */
  lemma OreDrawsStep(rng: Rng, t: nat, free: seq<(int, int)>, n: nat)
    requires 0 < n <= |free|
    ensures var k := rng.BelowAt(t, |free|);
            OreDraws(rng, t, free, n) == [free[k]] + OreDraws(rng, t + 1, free[..k] + free[k + 1..], n - 1)
  {
  }

  /** Every cell drawn comes from the list drawn from. */
  lemma {:induction false} OreDrawsWithin(rng: Rng, t: nat, free: seq<(int, int)>, n: nat)
    ensures forall p :: p in OreDraws(rng, t, free, n) ==> p in free
    decreases n
  {
    if n > 0 && free != [] {
      var k := rng.BelowAt(t, |free|);
      var rest := free[..k] + free[k + 1..];
      OreDrawsWithin(rng, t + 1, rest, n - 1);
      assert forall p :: p in rest ==> p in free;
    }
  }

  /**
   * Part way through the deposit draws: `done` holds the cells drawn so
   * far, draw number `t` comes next and picks among `left`, and the draws
   * made plus those still to come are the whole draw.
   */
  ghost predicate Drawing(rng: Rng, t0: nat, all: seq<(int, int)>, count: nat,
                          done: seq<(int, int)>, t: nat, left: seq<(int, int)>)
  {
    && |done| <= count && |left| + |done| == |all|
    && done + OreDraws(rng, t, left, count - |done|) == OreDraws(rng, t0, all, count)
  }

  /** The draws still to come, after one more has been made. */
  lemma OreDrawsAdvance(rng: Rng, t0: nat, all: seq<(int, int)>, count: nat,
                        done: seq<(int, int)>, t: nat, free: seq<(int, int)>, k: nat)
    requires count <= |all| && Drawing(rng, t0, all, count, done, t, free) && |done| < count
    requires k == rng.BelowAt(t, |free|)
    ensures k < |free| && Drawing(rng, t0, all, count, done + [free[k]], t + 1, free[..k] + free[k + 1..])
  {
    var m := count - |done|;
    OreDrawsStep(rng, t, free, m);
    var rest := OreDraws(rng, t + 1, free[..k] + free[k + 1..], m - 1);
    assert (done + [free[k]]) + rest == done + ([free[k]] + rest);
  }

  /** The drawing loop of the ore seeding: `count` cells out of `free`, each among those not yet drawn. */
  method DrawCells(rng: Rng, free: seq<(int, int)>, count: nat) returns (positions: seq<(int, int)>)
    requires count <= |free|
    modifies rng`next
    ensures positions == OreDraws(rng, old(rng.next), free, count)
    ensures rng.next == old(rng.next) + count
  {
    var left := free;
    positions := [];
    while |positions| < count
      invariant Drawing(rng, old(rng.next), free, count, positions, rng.next, left)
      invariant rng.next == old(rng.next) + |positions|
      decreases count - |positions|
    {
      ghost var t := rng.next;
      var k := rng.Below(|left|);
      OreDrawsAdvance(rng, old(rng.next), free, count, positions, t, left, k);
      positions := positions + [left[k]];
      left := left[..k] + left[k + 1..];
    }
    assert positions + [] == positions;
  }

  /** Drawing from a list without repeats never picks a cell twice. */
  lemma {:induction false} OreDrawsDistinct(rng: Rng, t: nat, free: seq<(int, int)>, n: nat)
    requires NoRepeats(free)
    ensures NoRepeats(OreDraws(rng, t, free, n))
    decreases n
  {
    if n > 0 && free != [] {
      var k := rng.BelowAt(t, |free|);
      var rest := free[..k] + free[k + 1..];
      RemoveAtDrops(free, k);
      OreDrawsDistinct(rng, t + 1, rest, n - 1);
      OreDrawsWithin(rng, t + 1, rest, n - 1);
      var r := OreDraws(rng, t, free, n);
      assert r == [free[k]] + OreDraws(rng, t + 1, rest, n - 1);
      forall m, q | 0 <= m < q < |r| ensures r[m] != r[q] {
        if m == 0 {
          assert r[q] in OreDraws(rng, t + 1, rest, n - 1);
        } else {
          assert r[m] == OreDraws(rng, t + 1, rest, n - 1)[m - 1];
        }
      }
    }
  }

  /** A fresh `n` x `n` layer with `v` in every cell. */
  method Layer<T>(n: nat, v: T) returns (a: array2<T>)
    ensures fresh(a) && a.Length0 == n && a.Length1 == n
    ensures forall i, j :: 0 <= i < n && 0 <= j < n ==> a[i, j] == v
  {
    a := new T[n, n]((i, j) => v);
  }

  class World {
    const size: nat
    var grid: array2<Entity?>
    const resources: array2<Option<Resource>>
    const constructions: array2<Construction?>

    var species1Count: int
    var species2Count: int
    var construction1Count: int
    var construction2Count: int
    var resources1: Inventory
    var resources2: Inventory

    /** Each faction's armies: bands of organisms that march together. */
    var armies: map<Species, seq<seq<Entity>>>

    ghost var EntityRepr: set<Entity>
    ghost var ConstructionRepr: set<Construction>

    /** The three layers are `size` x `size`. */
    predicate Dims()
      reads this`grid
    {
      && grid.Length0 == size && grid.Length1 == size
      && resources.Length0 == size && resources.Length1 == size
      && constructions.Length0 == size && constructions.Length1 == size
    }

    /** Every organism in the organism layer belongs to the world. */
    ghost predicate GridKnown()
      reads this`grid, this`EntityRepr, grid
    {
      forall i, j :: 0 <= i < grid.Length0 && 0 <= j < grid.Length1 && grid[i, j] != null ==> grid[i, j] in EntityRepr
    }

    /** Every shelter in the shelter layer belongs to the world. */
    ghost predicate SheltersKnown()
      reads this`ConstructionRepr, constructions
    {
      forall i, j :: 0 <= i < constructions.Length0 && 0 <= j < constructions.Length1 && constructions[i, j] != null ==>
        constructions[i, j] in ConstructionRepr
    }

    /** Every occupant of a shelter belongs to the world. */
    ghost predicate OccupantsKnown()
      reads this`ConstructionRepr, this`EntityRepr, ConstructionRepr`occupants
    {
      forall c, e :: c in ConstructionRepr && e in c.occupants ==> e in EntityRepr
    }

    /** Each faction has an army list, and every soldier belongs to the world and stands on a recorded cell. */
    ghost predicate Enlisted()
      reads this`armies, this`EntityRepr, EntityRepr`position
    {
      && (forall k: Species :: k in armies)
      && forall k, a, e :: k in armies && a in armies[k] && e in a ==>
           e in EntityRepr && e.position.Some? && InGrid(size, e.position.value)
    }

    /** The layers, the shelters and their occupants only refer to organisms of the world. */
    ghost predicate Known()
      reads this`grid, this`EntityRepr, this`ConstructionRepr, grid, constructions, ConstructionRepr`occupants
    {
      Dims() && GridKnown() && SheltersKnown() && OccupantsKnown()
    }

    /** No shelter seats more organisms than it has seats. */
    ghost predicate Capacity()
      reads this`ConstructionRepr, ConstructionRepr`occupants
    {
      forall c :: c in ConstructionRepr ==> |c.occupants| <= c.maxOccupants
    }

    /** Every shelter of the shelter layer stands on the cell it records as its position. */
    predicate SheltersPlaced()
      reads constructions
    {
      forall i, j :: 0 <= i < constructions.Length0 && 0 <= j < constructions.Length1 && constructions[i, j] != null ==>
        constructions[i, j].position == (i, j)
    }

    ghost predicate Valid()
      reads this`grid, this`EntityRepr, this`ConstructionRepr, this`armies
      reads grid, constructions, ConstructionRepr`occupants, EntityRepr`position
    {
      Known() && Enlisted() && Capacity() && SheltersPlaced()
    }

    /** A second organism layer (`new_grid`) that only holds known organisms. */
    ghost predicate Buffer(g: array2<Entity?>)
      reads this`EntityRepr, g
    {
      && g.Length0 == size && g.Length1 == size
      && forall i, j :: 0 <= i < size && 0 <= j < size && g[i, j] != null ==> g[i, j] in EntityRepr
    }

    /**
     * `World(size, p1, p2)`: empty layers and armies, zero counters, then
     * `initialize_world`. The two seeding probabilities may not add up to
     * more than one. Every cell is seeded from its own draw, and the ore
     * deposits lie on the cells the draws after the seeding pick.
     */
    constructor (size: nat, p1: real, p2: real, rng: Rng)
      requires p1 + p2 <= 1.0
      modifies rng`next
      ensures Valid() && this.size == size && Blank()
      ensures Populated(p1, p2, rng, old(rng.next))
      ensures forall i, j :: 0 <= i < size && 0 <= j < size && grid[i, j] != null ==> fresh(grid[i, j])
      ensures var t := SeedCursor(rng, p1, p2, old(rng.next), size, size, 0);
        OreSeeded(rng, t) && rng.next == t + size * size / 20
    {
      this.size := size;
      var organisms := Layer(size, null);
      var deposits := Layer(size, None);
      var shelters := Layer(size, null);
      grid, resources, constructions := organisms, deposits, shelters;
      species1Count, species2Count := 0, 0;
      construction1Count, construction2Count := 0, 0;
      resources1, resources2 := EmptyInventory, EmptyInventory;
      armies := map[Species1 := [], Species2 := []];
      EntityRepr, ConstructionRepr := {}, {};
      new;
      assert forall k: Species :: k in armies by {
        forall k: Species ensures k in armies {
          if k == Species1 {} else {}
        }
      }
      InitializeWorld(p1, p2, rng);
    }

    /**
     * `initialize_world`: seed the organisms, then the ore. The source draws
     * cells with replacement until it has found `size * size / 20` distinct
     * ones; the model draws each deposit among the cells not yet chosen,
     * which reaches the same layouts and always ends.
     */
    method InitializeWorld(p1: real, p2: real, rng: Rng)
      requires Valid() && Blank()
      requires forall i, j :: 0 <= i < size && 0 <= j < size ==> grid[i, j] == null && resources[i, j] == None
      modifies grid, resources, this`EntityRepr, rng`next
      ensures Valid() && Blank()
      ensures Populated(p1, p2, rng, old(rng.next))
      ensures forall i, j :: 0 <= i < size && 0 <= j < size && grid[i, j] != null ==> fresh(grid[i, j])
      ensures var t := SeedCursor(rng, p1, p2, old(rng.next), size, size, 0);
        OreSeeded(rng, t) && rng.next == t + size * size / 20
    {
      SeedOrganisms(p1, p2, rng);
      SeedOre(rng);
    }

    /**
     * The deposit layer the ore seeding leaves when its draws start at `t`:
     * ore exactly on the `size * size / 20` distinct cells those draws pick.
     */
    ghost predicate OreSeeded(rng: Rng, t: nat)
      requires Dims()
      reads this`grid, resources
    {
      var ore := OreDraws(rng, t, Cells(size, size), size * size / 20);
      && NoRepeats(ore) && |ore| == size * size / 20 && (forall p :: p in ore ==> InGrid(size, p))
      && forall i, j :: 0 <= i < size && 0 <= j < size ==>
           resources[i, j] == if (i, j) in ore then Some(CreateOre()) else None
    }

    /** What a new world starts with besides its organisms and ore: zero counters, empty stores, no army, no shelter. */
    ghost predicate Blank()
      reads this, constructions
    {
      && species1Count == 0 && species2Count == 0 && construction1Count == 0 && construction2Count == 0
      && resources1 == EmptyInventory && resources2 == EmptyInventory
      && armies == map[Species1 := [], Species2 := []]
      && forall i, j :: 0 <= i < constructions.Length0 && 0 <= j < constructions.Length1 ==> constructions[i, j] == null
    }

    /** Every cell holds what the organism seeding left there, when its draws started at `t0`. */
    ghost predicate Populated(p1: real, p2: real, rng: Rng, t0: nat)
      requires Dims() && GridKnown()
      reads this`grid, grid, this`EntityRepr, EntityRepr
    {
      forall i, j :: 0 <= i < size && 0 <= j < size ==> Seeded(p1, p2, rng, t0, i, j)
    }

    /**
     * What the seeding left in cell `(a, b)` when its draws started at `t0`:
     * an organism of the faction the cell's draw selects, with the role the
     * next draw selects, the default energy 2 and strength 1 and nothing
     * else set, or nothing.
     */
    ghost predicate Seeded(p1: real, p2: real, rng: Rng, t0: nat, a: int, b: int)
      requires Dims() && 0 <= a < size && 0 <= b < size
      reads this`grid, grid, if grid[a, b] != null then {grid[a, b]} else {}
    {
      var c := SeedCursor(rng, p1, p2, t0, size, a, b);
      && (grid[a, b] == null <==> SeedKind(p1, p2, rng.reals(c)) == None)
      && (grid[a, b] != null ==>
            var e := grid[a, b];
            && SeedKind(p1, p2, rng.reals(c)) == Some(e.kind) && e.role == RoleFromRoll(rng.reals(c + 1))
            && e.energy == 2.0 && e.strength == 1.0 && e.position == None
            && e.age == 0 && e.mutations == [] && e.lastReproduction == 0
            && e.inventory == EmptyInventory && !e.isSheltered && e.currentConstruction == null)
    }

    /** The organism half of `initialize_world`: one draw per cell, row by row, plus a role draw per organism. */
    method SeedOrganisms(p1: real, p2: real, rng: Rng)
      requires Valid()
      requires forall i, j :: 0 <= i < size && 0 <= j < size ==> grid[i, j] == null
      modifies grid, this`EntityRepr, rng`next
      ensures Valid()
      ensures Populated(p1, p2, rng, old(rng.next))
      ensures forall i, j :: 0 <= i < size && 0 <= j < size && grid[i, j] != null ==> fresh(grid[i, j])
      ensures rng.next == SeedCursor(rng, p1, p2, old(rng.next), size, size, 0)
    {
      ghost var t0 := rng.next;
      for i := 0 to size
        invariant Valid()
        invariant rng.next == SeedCursor(rng, p1, p2, t0, size, i, 0)
        invariant forall a, b :: 0 <= a < size && 0 <= b < size && a >= i ==> grid[a, b] == null
        invariant forall a, b :: 0 <= a < i && 0 <= b < size ==> Seeded(p1, p2, rng, t0, a, b)
        invariant forall a, b :: 0 <= a < size && 0 <= b < size && grid[a, b] != null ==> fresh(grid[a, b])
      {
        SeedRow(p1, p2, rng, i, t0);
      }
    }

    /** Row `i` of the organism seeding. */
    method SeedRow(p1: real, p2: real, rng: Rng, i: int, ghost t0: nat)
      requires Valid() && 0 <= i < size
      requires rng.next == SeedCursor(rng, p1, p2, t0, size, i, 0)
      requires forall a, b :: 0 <= a < size && 0 <= b < size && a >= i ==> grid[a, b] == null
      requires forall a, b :: 0 <= a < i && 0 <= b < size ==> Seeded(p1, p2, rng, t0, a, b)
      modifies grid, this`EntityRepr, rng`next
      ensures Valid()
      ensures rng.next == SeedCursor(rng, p1, p2, t0, size, i + 1, 0)
      ensures forall a, b :: 0 <= a < size && 0 <= b < size && a > i ==> grid[a, b] == null
      ensures forall a, b :: 0 <= a <= i && 0 <= b < size ==> Seeded(p1, p2, rng, t0, a, b)
      ensures forall a, b :: 0 <= a < size && 0 <= b < size && grid[a, b] != old(grid[a, b]) ==> fresh(grid[a, b])
    {
      for j := 0 to size
        invariant Valid()
        invariant rng.next == SeedCursor(rng, p1, p2, t0, size, i, j)
        invariant forall a, b :: 0 <= a < size && 0 <= b < size && (a > i || (a == i && b >= j)) ==>
          grid[a, b] == null
        invariant forall a, b :: 0 <= a < size && 0 <= b < size && (a < i || (a == i && b < j)) ==>
          Seeded(p1, p2, rng, t0, a, b)
        invariant forall a, b :: 0 <= a < size && 0 <= b < size && grid[a, b] != old(grid[a, b]) ==>
          fresh(grid[a, b])
      {
        label Pre:
        var roll := SeedCell(p1, p2, rng, i, j);
        forall a, b | 0 <= a < size && 0 <= b < size && (a < i || (a == i && b < j))
          ensures Seeded(p1, p2, rng, t0, a, b)
        {
          assert old@Pre(Seeded(p1, p2, rng, t0, a, b));
          assert grid[a, b] == old@Pre(grid[a, b]);
        }
      }
    }

    /**
     * One cell of the organism seeding: draw, and on a hit create the
     * organism, which takes the next draw for its role.
     */
    method SeedCell(p1: real, p2: real, rng: Rng, i: int, j: int) returns (roll: Unit)
      requires Valid() && 0 <= i < size && 0 <= j < size && grid[i, j] == null
      modifies grid, this`EntityRepr, rng`next
      ensures Valid()
      ensures roll == rng.reals(old(rng.next))
      ensures rng.next == old(rng.next) + (if SeedKind(p1, p2, roll).Some? then 2 else 1)
      ensures forall a, b :: 0 <= a < size && 0 <= b < size && (a, b) != (i, j) ==> grid[a, b] == old(grid[a, b])
      ensures grid[i, j] == null <==> SeedKind(p1, p2, roll) == None
      ensures grid[i, j] != null ==>
        var e := grid[i, j];
        && fresh(e) && SeedKind(p1, p2, roll) == Some(e.kind) && e.role == RoleFromRoll(rng.reals(old(rng.next) + 1))
        && e.energy == 2.0 && e.strength == 1.0 && e.position == None
        && e.age == 0 && e.mutations == [] && e.lastReproduction == 0
        && e.inventory == EmptyInventory && !e.isSheltered && e.currentConstruction == null
    {
      roll := rng.Random();
      var kind := SeedKind(p1, p2, roll);
      if kind.Some? {
        var roleRoll := rng.Random();
        var e := new Entity(kind.value, roleRoll);
        grid[i, j] := e;
        EntityRepr := EntityRepr + {e};
      }
    }

    /**
     * The ore half of `initialize_world`: `size * size / 20` distinct cells
     * get a deposit. The cells are drawn first and the deposits laid after,
     * which leaves the same layer since laying a deposit takes no draw.
     */
    method SeedOre(rng: Rng)
      requires Dims()
      requires forall i, j :: 0 <= i < size && 0 <= j < size ==> resources[i, j] == None
      modifies resources, rng`next
      ensures OreSeeded(rng, old(rng.next)) && rng.next == old(rng.next) + size * size / 20
    {
      var positions := PickOreCells(rng);
      LayOre(positions);
    }

    /** The draws of the ore seeding: `size * size / 20` cells, each among those not yet picked. */
    method PickOreCells(rng: Rng) returns (positions: seq<(int, int)>)
      modifies rng`next
      ensures positions == OreDraws(rng, old(rng.next), Cells(size, size), size * size / 20)
      ensures rng.next == old(rng.next) + size * size / 20
      ensures NoRepeats(positions) && |positions| == size * size / 20
      ensures forall p :: p in positions ==> InGrid(size, p)
    {
      var all := Cells(size, size);
      var count := size * size / 20;
      assert count <= |all|;
      positions := DrawCells(rng, all, count);
      OreDrawsDistinct(rng, old(rng.next), all, count);
      OreDrawsWithin(rng, old(rng.next), all, count);
    }

    /** Lay a deposit of ore on each of the given cells. */
    method LayOre(positions: seq<(int, int)>)
      requires Dims() && forall p :: p in positions ==> InGrid(size, p)
      requires forall i, j :: 0 <= i < size && 0 <= j < size ==> resources[i, j] == None
      modifies resources
      ensures forall i, j :: 0 <= i < size && 0 <= j < size ==>
        resources[i, j] == if (i, j) in positions then Some(CreateOre()) else None
    {
      for m := 0 to |positions|
        invariant forall i, j :: 0 <= i < size && 0 <= j < size ==>
          resources[i, j] == if (i, j) in positions[..m] then Some(CreateOre()) else None
      {
        var p := positions[m];
        assert p in positions;
        assert positions[..m + 1] == positions[..m] + [p];
        resources[p.0, p.1] := Some(CreateOre());
      }
      assert positions[..|positions|] == positions;
    }

    /**
     * `get_neighbors(x, y)`: the cells one king move away that lie inside the
     * grid, listed with `dx` and then `dy` running over -1, 0, 1, which is
     * row-major order.
     */
    method GetNeighbors(x: int, y: int) returns (ns: seq<(int, int)>)
      ensures forall p :: p in ns <==> IsNeighbor(size, x, y, p)
      ensures Increasing(ns)
      ensures |ns| <= 8
    {
      ns := [];
      for dx := -1 to 2
        invariant forall p :: p in ns <==> IsNeighbor(size, x, y, p) && p.0 < x + dx
        invariant Increasing(ns)
        invariant forall m :: 0 <= m < |ns| ==> ns[m].0 < x + dx
        invariant |ns| <= 3 * (dx + 1) - (if dx > 0 then 1 else 0)
      {
        ns := NeighborRow(x, y, dx, ns);
      }
    }

    /** The inner `get_neighbors` loop: the neighbours in row `x + dx`, appended to those of the rows above. */
    method NeighborRow(x: int, y: int, dx: int, prior: seq<(int, int)>) returns (ns: seq<(int, int)>)
      requires -1 <= dx <= 1
      requires forall p :: p in prior <==> IsNeighbor(size, x, y, p) && p.0 < x + dx
      requires Increasing(prior) && forall m :: 0 <= m < |prior| ==> prior[m].0 < x + dx
      ensures forall p :: p in ns <==> IsNeighbor(size, x, y, p) && p.0 < x + dx + 1
      ensures Increasing(ns) && forall m :: 0 <= m < |ns| ==> ns[m].0 < x + dx + 1
      ensures |ns| <= |prior| + (if dx == 0 then 2 else 3)
    {
      ns := prior;
      for dy := -1 to 2
        invariant forall p :: p in ns <==>
          IsNeighbor(size, x, y, p) && (p.0 < x + dx || (p.0 == x + dx && p.1 < y + dy))
        invariant Increasing(ns)
        invariant forall m :: 0 <= m < |ns| ==> Before(ns[m], (x + dx, y + dy))
        invariant |ns| <= |prior| + (dy + 1) - (if dx == 0 && dy > 0 then 1 else 0)
      {
        if dx == 0 && dy == 0 {
          continue;
        }
        var nx, ny := x + dx, y + dy;
        if 0 <= nx < size && 0 <= ny < size {
          ns := ns + [(nx, ny)];
        }
      }
    }

    /**
     * `move_towards`: one step from `(cx, cy)` towards `(tx, ty)`, taken only
     * when the cell it lands on is inside the grid and empty in the current
     * organism layer; otherwise the organism stays where it is.
     */
    function MoveTowards(cx: int, cy: int, tx: int, ty: int): (r: (int, int))
      requires Dims()
      reads this`grid, grid
      ensures r == (cx, cy) || (r == StepTowards(cx, cy, tx, ty) && InGrid(size, r) && grid[r.0, r.1] == null)
      ensures var s := StepTowards(cx, cy, tx, ty);
              InGrid(size, s) && grid[s.0, s.1] == null ==> r == s
    {
      var s := StepTowards(cx, cy, tx, ty);
      if 0 <= s.0 < size && 0 <= s.1 < size && grid[s.0, s.1] == null then s else (cx, cy)
    }

    /** An enemy of `e` owns a shelter at `(i, j)`. */
    predicate EnemyShelterAt(i: int, j: int, e: Entity)
      requires Dims() && InGrid(size, (i, j))
      reads this`grid, constructions
    {
      constructions[i, j] != null && constructions[i, j].ownerType != e.kind
    }

    /** `e`'s own faction owns a shelter with a free seat at `(i, j)`. */
    predicate AlliedRoomAt(i: int, j: int, e: Entity)
      requires Dims() && InGrid(size, (i, j))
      reads this`grid, constructions, if constructions[i, j] != null then {constructions[i, j]} else {}
    {
      var c := constructions[i, j];
      c != null && c.ownerType == e.kind && |c.occupants| < c.maxOccupants
    }

    /** Another organism of `e`'s faction stands at `(i, j)`, and both are able to reproduce. */
    predicate MateAt(i: int, j: int, e: Entity)
      requires Dims() && InGrid(size, (i, j))
      reads this`grid, grid, e, if grid[i, j] != null then {grid[i, j]} else {}
    {
      var partner := grid[i, j];
      partner != null && partner.kind == e.kind && partner != e && partner.CanReproduce() && e.CanReproduce()
    }

    /**
     * What cell `(i, j)` offers `e`: an enemy shelter is attacked (and hides
     * anything else there), otherwise a mate beats a free allied seat.
     */
    function CellAction(i: int, j: int, e: Entity): (r: Option<Action>)
      requires Dims() && InGrid(size, (i, j))
      reads this`grid, grid, constructions, e
      reads if grid[i, j] != null then {grid[i, j]} else {}
      reads if constructions[i, j] != null then {constructions[i, j]} else {}
      ensures r == Some(Attack) <==> EnemyShelterAt(i, j, e)
      ensures r == Some(Mate) <==> !EnemyShelterAt(i, j, e) && MateAt(i, j, e)
      ensures r == Some(Shelter) <==> !EnemyShelterAt(i, j, e) && !MateAt(i, j, e) && AlliedRoomAt(i, j, e)
      ensures r == None <==> !EnemyShelterAt(i, j, e) && !MateAt(i, j, e) && !AlliedRoomAt(i, j, e)
    {
      if EnemyShelterAt(i, j, e) then Some(Attack)
      else if MateAt(i, j, e) then Some(Mate)
      else if AlliedRoomAt(i, j, e) then Some(Shelter)
      else None
    }

    /** A cell within `maxDistance` of `(x, y)` that offers `e` something. */
    predicate Offers(x: int, y: int, e: Entity, maxDistance: int, i: int, j: int)
      requires Dims()
      reads this`grid, grid, constructions, e
      reads if InGrid(size, (i, j)) && grid[i, j] != null then {grid[i, j]} else {}
      reads if InGrid(size, (i, j)) && constructions[i, j] != null then {constructions[i, j]} else {}
    {
      InGrid(size, (i, j)) && Manhattan(x, y, i, j) <= maxDistance && CellAction(i, j, e).Some?
    }

    /**
     * `find_nearest_target`. `None` exactly when no cell within Manhattan
     * distance `maxDistance` offers anything. Otherwise the target offers the
     * action returned, no offering cell is nearer, and among equally near
     * ones it is the first in row-major order, because the scan replaces its
     * best only on a strictly smaller distance.
     */
    method FindNearestTarget(x: int, y: int, e: Entity, maxDistance: int := 10) returns (r: Option<Target>)
      requires Dims()
      ensures r.None? <==> forall i, j :: !Offers(x, y, e, maxDistance, i, j)
      ensures r.Some? ==> Offers(x, y, e, maxDistance, r.value.x, r.value.y)
                          && CellAction(r.value.x, r.value.y, e) == Some(r.value.action)
      ensures r.Some? ==> forall i, j :: Offers(x, y, e, maxDistance, i, j) ==>
        var d := Manhattan(x, y, r.value.x, r.value.y);
        d < Manhattan(x, y, i, j) || (d == Manhattan(x, y, i, j) && !Before((i, j), (r.value.x, r.value.y)))
    {
      var best := maxDistance + 1;
      r := None;
      for i := 0 to size
        invariant r.None? ==> best == maxDistance + 1
        invariant r.Some? ==> && Offers(x, y, e, maxDistance, r.value.x, r.value.y)
                              && r.value.x < i
                              && CellAction(r.value.x, r.value.y, e) == Some(r.value.action)
                              && best == Manhattan(x, y, r.value.x, r.value.y)
        invariant forall a, b :: a < i && Offers(x, y, e, maxDistance, a, b) ==>
          r.Some? && (best < Manhattan(x, y, a, b) ||
                      (best == Manhattan(x, y, a, b) && !Before((a, b), (r.value.x, r.value.y))))
      {
        best, r := ScanRow(x, y, e, maxDistance, i, best, r);
      }
    }

    /**
     * Row `i` of the scan of `find_nearest_target`: given the best target
     * of the rows above, the best target of the rows up to and including `i`.
     */
    method ScanRow(x: int, y: int, e: Entity, maxDistance: int, i: int, best0: int, r0: Option<Target>)
      returns (best: int, r: Option<Target>)
      requires Dims() && 0 <= i < size
      requires r0.None? ==> best0 == maxDistance + 1
      requires r0.Some? ==> && Offers(x, y, e, maxDistance, r0.value.x, r0.value.y)
                            && r0.value.x < i
                            && CellAction(r0.value.x, r0.value.y, e) == Some(r0.value.action)
                            && best0 == Manhattan(x, y, r0.value.x, r0.value.y)
      requires forall a, b :: a < i && Offers(x, y, e, maxDistance, a, b) ==>
        r0.Some? && (best0 < Manhattan(x, y, a, b) ||
                     (best0 == Manhattan(x, y, a, b) && !Before((a, b), (r0.value.x, r0.value.y))))
      ensures r.None? ==> best == maxDistance + 1
      ensures r.Some? ==> && Offers(x, y, e, maxDistance, r.value.x, r.value.y)
                          && r.value.x < i + 1
                          && CellAction(r.value.x, r.value.y, e) == Some(r.value.action)
                          && best == Manhattan(x, y, r.value.x, r.value.y)
      ensures forall a, b :: a < i + 1 && Offers(x, y, e, maxDistance, a, b) ==>
        r.Some? && (best < Manhattan(x, y, a, b) ||
                    (best == Manhattan(x, y, a, b) && !Before((a, b), (r.value.x, r.value.y))))
    {
      best, r := best0, r0;
      for j := 0 to size
        invariant r.None? ==> best == maxDistance + 1
        invariant r.Some? ==> && Offers(x, y, e, maxDistance, r.value.x, r.value.y)
                              && Before((r.value.x, r.value.y), (i, j))
                              && CellAction(r.value.x, r.value.y, e) == Some(r.value.action)
                              && best == Manhattan(x, y, r.value.x, r.value.y)
        invariant forall a, b :: (a < i || (a == i && b < j)) && Offers(x, y, e, maxDistance, a, b) ==>
          r.Some? && (best < Manhattan(x, y, a, b) ||
                      (best == Manhattan(x, y, a, b) && !Before((a, b), (r.value.x, r.value.y))))
      {
        var distance := Manhattan(x, y, i, j);
        if distance > maxDistance {
          continue;
        }
        var construction := constructions[i, j];
        if construction != null && construction.ownerType != e.kind && distance < best {
          best := distance;
          r := Some(Target(i, j, Attack));
        } else if distance < best {
          if construction != null && construction.ownerType == e.kind
             && |construction.occupants| < construction.maxOccupants {
            best := distance;
            r := Some(Target(i, j, Shelter));
          }
          var partner := grid[i, j];
          if partner != null && partner.kind == e.kind && partner != e
             && partner.CanReproduce() && e.CanReproduce() {
            best := distance;
            r := Some(Target(i, j, Mate));
          }
        }
      }
    }

    /** What the organism in cell `(a, b)` adds to faction `k`'s counters. */
    ghost function OrganismTally(a: int, b: int, k: Species): Tally
      requires Known() && InGrid(size, (a, b))
      reads this`grid, this`EntityRepr, this`ConstructionRepr, grid, constructions, ConstructionRepr`occupants
      reads EntityRepr`inventory
    {
      var e := grid[a, b];
      if e != null && e.kind == k then Tally(1, 0, e.inventory[Ore], e.inventory[Misc]) else NoTally
    }

    /** The total of one stock (ore or misc) over a list of organisms, as `count_entities` adds it up. */
    ghost function Stock(occ: seq<Entity>, kind: ResourceType): int
      requires kind != Food && forall e :: e in occ ==> e in EntityRepr
      reads this`EntityRepr, EntityRepr`inventory
    {
      if occ == [] then 0
      else
        var init := occ[..|occ| - 1];
        assert forall e :: e in init ==> e in occ;
        Stock(init, kind) + occ[|occ| - 1].inventory[kind]
    }

    /** What the shelter in cell `(a, b)` and its occupants add to faction `k`'s counters. */
    ghost function ShelterTally(a: int, b: int, k: Species): Tally
      requires Known() && InGrid(size, (a, b))
      reads this`grid, this`EntityRepr, this`ConstructionRepr, grid, constructions, ConstructionRepr`occupants
      reads EntityRepr`inventory
    {
      var c := constructions[a, b];
      if c != null && c.ownerType == k
      then Tally(|c.occupants|, 1, Stock(c.occupants, Ore), Stock(c.occupants, Misc))
      else NoTally
    }

    /** Faction `k`'s organisms in cells `(a, 0)` to `(a, b - 1)`. */
    ghost function OrganismRow(a: int, b: int, k: Species): Tally
      requires Known() && 0 <= a < size && 0 <= b <= size
      reads this`grid, this`EntityRepr, this`ConstructionRepr, grid, constructions, ConstructionRepr`occupants
      reads EntityRepr`inventory
    {
      if b == 0 then NoTally else OrganismRow(a, b - 1, k).Plus(OrganismTally(a, b - 1, k))
    }

    /** Faction `k`'s organisms in rows `0` to `a - 1`. */
    ghost function OrganismLayer(a: int, k: Species): Tally
      requires Known() && 0 <= a <= size
      reads this`grid, this`EntityRepr, this`ConstructionRepr, grid, constructions, ConstructionRepr`occupants
      reads EntityRepr`inventory
    {
      if a == 0 then NoTally else OrganismLayer(a - 1, k).Plus(OrganismRow(a - 1, size, k))
    }

    /** Faction `k`'s shelters, occupants included, in cells `(a, 0)` to `(a, b - 1)`. */
    ghost function ShelterRow(a: int, b: int, k: Species): Tally
      requires Known() && 0 <= a < size && 0 <= b <= size
      reads this`grid, this`EntityRepr, this`ConstructionRepr, grid, constructions, ConstructionRepr`occupants
      reads EntityRepr`inventory
    {
      if b == 0 then NoTally else ShelterRow(a, b - 1, k).Plus(ShelterTally(a, b - 1, k))
    }

    /** Faction `k`'s shelters, occupants included, in rows `0` to `a - 1`. */
    ghost function ShelterLayer(a: int, k: Species): Tally
      requires Known() && 0 <= a <= size
      reads this`grid, this`EntityRepr, this`ConstructionRepr, grid, constructions, ConstructionRepr`occupants
      reads EntityRepr`inventory
    {
      if a == 0 then NoTally else ShelterLayer(a - 1, k).Plus(ShelterRow(a - 1, size, k))
    }

    /** Faction `k`'s counters as they stand. */
    function Counters(k: Species): Tally
      reads this`species1Count, this`species2Count, this`construction1Count, this`construction2Count
      reads this`resources1, this`resources2
    {
      if k == Species1 then Tally(species1Count, construction1Count, resources1[Ore], resources1[Misc])
      else Tally(species2Count, construction2Count, resources2[Ore], resources2[Misc])
    }

    /**
     * `count_entities`: recomputed from scratch, each faction's population
     * is its organisms on the grid plus the occupants of its shelters, its
     * shelter count is the number of shelters it owns, and its ore and misc
     * totals are the stocks of all those organisms. The two passes add into
     * running tallies that are stored in the counters at the end.
     */
    method CountEntities()
      requires Known()
      modifies this`species1Count, this`species2Count, this`construction1Count, this`construction2Count
      modifies this`resources1, this`resources2
      ensures Counters(Species1) == old(OrganismLayer(size, Species1).Plus(ShelterLayer(size, Species1)))
      ensures Counters(Species2) == old(OrganismLayer(size, Species2).Plus(ShelterLayer(size, Species2)))
    {
      var t1, t2 := Census();
      StoreCounters(t1, t2);
    }

    /** The two loops of `count_entities`, added up faction by faction. */
    method Census() returns (t1: Tally, t2: Tally)
      requires Known()
      ensures t1 == OrganismLayer(size, Species1).Plus(ShelterLayer(size, Species1))
      ensures t2 == OrganismLayer(size, Species2).Plus(ShelterLayer(size, Species2))
    {
      var g1, g2 := TallyOrganisms();
      var s1, s2 := TallyShelters();
      t1, t2 := g1.Plus(s1), g2.Plus(s2);
    }

    /** The first `count_entities` loop: each organism on the grid, with its stock, for its faction. */
    method TallyOrganisms() returns (t1: Tally, t2: Tally)
      requires Known()
      ensures t1 == OrganismLayer(size, Species1) && t2 == OrganismLayer(size, Species2)
    {
      t1, t2 := NoTally, NoTally;
      for i := 0 to size
        invariant t1 == OrganismLayer(i, Species1) && t2 == OrganismLayer(i, Species2)
      {
        var r1, r2 := TallyOrganismRow(i);
        t1, t2 := t1.Plus(r1), t2.Plus(r2);
      }
    }

    /** Row `i` of the first `count_entities` loop. */
    method TallyOrganismRow(i: int) returns (t1: Tally, t2: Tally)
      requires Known() && 0 <= i < size
      ensures t1 == OrganismRow(i, size, Species1) && t2 == OrganismRow(i, size, Species2)
    {
      t1, t2 := NoTally, NoTally;
      for j := 0 to size
        invariant t1 == OrganismRow(i, j, Species1) && t2 == OrganismRow(i, j, Species2)
      {
        var entity := grid[i, j];
        if entity != null {
          var t := Tally(1, 0, entity.inventory[Ore], entity.inventory[Misc]);
          if entity.kind == Species1 {
            t1 := t1.Plus(t);
          } else {
            t2 := t2.Plus(t);
          }
        }
      }
    }

    /**
     * The second `count_entities` loop: each shelter and its occupants, for
     * the faction that owns it. A shelter that faction 1 does not own is
     * counted for faction 2.
     */
    method TallyShelters() returns (t1: Tally, t2: Tally)
      requires Known()
      ensures t1 == ShelterLayer(size, Species1) && t2 == ShelterLayer(size, Species2)
    {
      t1, t2 := NoTally, NoTally;
      for i := 0 to size
        invariant t1 == ShelterLayer(i, Species1) && t2 == ShelterLayer(i, Species2)
      {
        var r1, r2 := TallyShelterRow(i);
        t1, t2 := t1.Plus(r1), t2.Plus(r2);
      }
    }

    /** Row `i` of the second `count_entities` loop. */
    method TallyShelterRow(i: int) returns (t1: Tally, t2: Tally)
      requires Known() && 0 <= i < size
      ensures t1 == ShelterRow(i, size, Species1) && t2 == ShelterRow(i, size, Species2)
    {
      t1, t2 := NoTally, NoTally;
      for j := 0 to size
        invariant t1 == ShelterRow(i, j, Species1) && t2 == ShelterRow(i, j, Species2)
      {
        var construction := constructions[i, j];
        if construction != null {
          var ore, misc := TallyStock(construction.occupants);
          var t := Tally(|construction.occupants|, 1, ore, misc);
          if construction.ownerType == Species1 {
            t1 := t1.Plus(t);
          } else {
            t2 := t2.Plus(t);
          }
        }
      }
    }

    /** The ore and misc the occupants of a shelter carry, added up one occupant at a time. */
    method TallyStock(occupants: seq<Entity>) returns (ore: int, misc: int)
      requires forall e :: e in occupants ==> e in EntityRepr
      ensures ore == Stock(occupants, Ore) && misc == Stock(occupants, Misc)
    {
      ore, misc := 0, 0;
      for m := 0 to |occupants|
        invariant ore == Stock(occupants[..m], Ore) && misc == Stock(occupants[..m], Misc)
      {
        assert occupants[..m + 1][..m] == occupants[..m];
        ore := ore + occupants[m].inventory[Ore];
        misc := misc + occupants[m].inventory[Misc];
      }
      assert occupants[..|occupants|] == occupants;
    }

    /** The assignments that close `count_entities`: the tallies become the counters. */
    method StoreCounters(t1: Tally, t2: Tally)
      modifies this`species1Count, this`species2Count, this`construction1Count, this`construction2Count
      modifies this`resources1, this`resources2
      ensures Counters(Species1) == t1 && Counters(Species2) == t2
    {
      species1Count, construction1Count := t1.organisms, t1.shelters;
      species2Count, construction2Count := t2.organisms, t2.shelters;
      resources1 := map[Ore := t1.ore, Misc := t1.misc];
      resources2 := map[Ore := t2.ore, Misc := t2.misc];
    }

    /** A copy of the deposit layer, row by row. */
    ghost function Snapshot(): (r: seq<seq<Option<Resource>>>)
      requires Dims()
      reads this`grid, resources
      ensures |r| == size && forall i :: 0 <= i < size ==> |r[i]| == size
      ensures forall i, j :: 0 <= i < size && 0 <= j < size ==> r[i][j] == resources[i, j]
    {
      seq(size, i requires 0 <= i < size reads resources =>
        seq(size, j requires 0 <= j < size reads resources => resources[i, j]))
    }

    /** The ore lying in the deposit layer. */
    ghost function OreLying(): int
      requires Dims()
      reads this`grid, resources
    {
      OreTotal(Snapshot())
    }

    /** Deposits never hold a negative amount. */
    ghost predicate Deposits()
      requires Dims()
      reads this`grid, resources
    {
      forall i, j :: 0 <= i < size && 0 <= j < size && resources[i, j].Some? ==> resources[i, j].value.amount >= 0
    }

    /**
     * `update_resources`: every empty cell, in row-major order, tries food
     * and then misc and keeps the first deposit that appears; cells holding
     * a deposit are left alone and draw nothing. No ore is ever created.
     */
    method UpdateResources(rng: Rng)
      requires Dims()
      modifies resources, rng`next
      ensures var s := old(Snapshot());
              forall i, j :: 0 <= i < size && 0 <= j < size ==> resources[i, j] == Regrown(rng, s, old(rng.next), size, i, j)
      ensures rng.next == RegrowCursor(rng, old(Snapshot()), old(rng.next), size, size, 0)
      ensures forall i, j :: 0 <= i < size && 0 <= j < size && old(resources[i, j]).Some? ==>
        resources[i, j] == old(resources[i, j])
      ensures forall i, j :: 0 <= i < size && 0 <= j < size && resources[i, j].Some? && old(resources[i, j]).None? ==>
        resources[i, j].value.kind != Ore && 1 <= resources[i, j].value.amount <= 3
    {
      ghost var s, t0 := Snapshot(), rng.next;
      for i := 0 to size
        invariant rng.next == RegrowCursor(rng, s, t0, size, i, 0)
        invariant forall a, b :: 0 <= a < i && 0 <= b < size ==> resources[a, b] == Regrown(rng, s, t0, size, a, b)
        invariant forall a, b :: i <= a < size && 0 <= b < size ==> resources[a, b] == s[a][b]
      {
        RegrowRow(i, rng, s, t0);
      }
    }

    /** Row `i` of `update_resources`, on the layer `s` it started from, with the cursor at `t0` before the first row. */
    method RegrowRow(i: int, rng: Rng, ghost s: seq<seq<Option<Resource>>>, ghost t0: nat)
      requires Dims() && 0 <= i < size && |s| == size && forall r :: 0 <= r < size ==> |s[r]| == size
      requires forall b :: 0 <= b < size ==> resources[i, b] == s[i][b]
      requires rng.next == RegrowCursor(rng, s, t0, size, i, 0)
      modifies resources, rng`next
      ensures rng.next == RegrowCursor(rng, s, t0, size, i + 1, 0)
      ensures forall b :: 0 <= b < size ==> resources[i, b] == Regrown(rng, s, t0, size, i, b)
      ensures forall a, b :: 0 <= a < size && 0 <= b < size && a != i ==> resources[a, b] == old(resources[a, b])
    {
      for j := 0 to size
        invariant rng.next == RegrowCursor(rng, s, t0, size, i, j)
        invariant forall b :: 0 <= b < j ==> resources[i, b] == Regrown(rng, s, t0, size, i, b)
        invariant forall b :: j <= b < size ==> resources[i, b] == s[i][b]
        invariant forall a, b :: 0 <= a < size && 0 <= b < size && a != i ==> resources[a, b] == old(resources[a, b])
      {
        RegrowStep(i, j, rng, s, t0);
      }
    }

    /** Cell `(i, j)` of `update_resources`, with the cells of row `i` before it already regrown. */
    method RegrowStep(i: int, j: int, rng: Rng, ghost s: seq<seq<Option<Resource>>>, ghost t0: nat)
      requires Dims() && 0 <= i < size && 0 <= j < size && |s| == size && forall r :: 0 <= r < size ==> |s[r]| == size
      requires rng.next == RegrowCursor(rng, s, t0, size, i, j)
      requires forall b :: 0 <= b < j ==> resources[i, b] == Regrown(rng, s, t0, size, i, b)
      requires forall b :: j <= b < size ==> resources[i, b] == s[i][b]
      modifies resources, rng`next
      ensures rng.next == RegrowCursor(rng, s, t0, size, i, j + 1)
      ensures forall b :: 0 <= b < j + 1 ==> resources[i, b] == Regrown(rng, s, t0, size, i, b)
      ensures forall b :: j + 1 <= b < size ==> resources[i, b] == s[i][b]
      ensures forall a, b :: 0 <= a < size && 0 <= b < size && a != i ==> resources[a, b] == old(resources[a, b])
    {
      RegrowCell(i, j, rng);
      forall b | 0 <= b < j + 1
        ensures resources[i, b] == Regrown(rng, s, t0, size, i, b)
      {
        if b < j {
          assert resources[i, b] == old(resources[i, b]);
        }
      }
    }

    /** One cell of `update_resources`: an empty cell tries food, then misc. */
    method RegrowCell(i: int, j: int, rng: Rng)
      requires Dims() && InGrid(size, (i, j))
      modifies resources, rng`next
      ensures resources[i, j] == if old(resources[i, j]).Some? then old(resources[i, j]) else Regrowth(rng, old(rng.next))
      ensures rng.next == old(rng.next) + if old(resources[i, j]).Some? then 0 else RegrowDraws(rng, old(rng.next))
      ensures forall a, b :: 0 <= a < size && 0 <= b < size && (a, b) != (i, j) ==> resources[a, b] == old(resources[a, b])
    {
      if resources[i, j] == None {
        var food := CreateRandom(Food, rng);
        if food.Some? {
          resources[i, j] := food;
        } else {
          var misc := CreateRandom(Misc, rng);
          if misc.Some? {
            resources[i, j] := misc;
          }
        }
      }
    }

    /**
     * An organism steps onto a deposit: it consumes it (a non-miner gains
     * nothing from ore), and the deposit disappears either way.
     */
    method Consume(i: int, j: int, e: Entity)
      requires Dims() && InGrid(size, (i, j))
      modifies resources, e`inventory, e`energy, e`strength
      ensures resources[i, j] == None
      ensures forall a, b :: 0 <= a < size && 0 <= b < size && (a, b) != (i, j) ==> resources[a, b] == old(resources[a, b])
      ensures old(resources[i, j]).None? ==>
        e.inventory == old(e.inventory) && e.energy == old(e.energy) && e.strength == old(e.strength)
      ensures old(resources[i, j]).Some? && old(resources[i, j]).value.kind == Ore && !e.CanMine() ==>
        e.inventory == old(e.inventory) && e.energy == old(e.energy) && e.strength == old(e.strength)
      ensures old(resources[i, j]).Some? && !(old(resources[i, j]).value.kind == Ore && !e.CanMine()) ==>
        var r := old(resources[i, j]).value;
        && e.inventory == (if r.kind == Food then old(e.inventory) else old(e.inventory)[r.kind := old(e.inventory[r.kind]) + r.amount])
        && e.energy == old(e.energy) + r.amount as real * r.energyFactor
        && e.strength == old(e.strength) + r.amount as real * r.strengthFactor
    {
      var deposit := resources[i, j];
      if deposit.Some? {
        e.ConsumeResource(deposit.value);
        resources[i, j] := None;
      }
    }

    /** A shelter takes damage; whatever `take_damage` evicts leaves its occupant list. */
    method Hit(c: Construction, amount: real) returns (destroyed: bool)
      requires Valid() && c in ConstructionRepr
      modifies c`energy, c`occupants, c.occupants`isSheltered, c.occupants`currentConstruction
      ensures Valid()
      ensures c.energy == old(c.energy) - amount && destroyed == (c.energy <= 0.0)
      ensures forall x :: x in c.occupants ==> x in old(c.occupants)
      ensures !destroyed ==> c.occupants == old(c.occupants)
      ensures forall x :: x in EntityRepr && x.isSheltered ==> old(x.isSheltered)
    {
      destroyed := c.TakeDamage(amount);
    }

    /** A shelter whose health has run out is removed from the shelter layer. */
    method ClearIfDestroyed(x: int, y: int)
      requires Dims() && InGrid(size, (x, y))
      modifies constructions
      ensures forall a, b :: 0 <= a < size && 0 <= b < size ==>
        constructions[a, b] == if (a, b) == (x, y) && old(constructions[x, y]) != null && old(constructions[x, y].energy) <= 0.0
                               then null else old(constructions[a, b])
    {
      var c := constructions[x, y];
      if c != null && c.energy <= 0.0 {
        constructions[x, y] := null;
      }
    }

    /** One defender leaves its shelter, as far as `remove_occupant` lets it, for cell `q` of the buffer `g`. */
    method Deploy(c: Construction, d: Entity, q: (int, int), g: array2<Entity?>)
      requires Valid() && Buffer(g) && g != grid && c in ConstructionRepr && d in EntityRepr && InGrid(size, q)
      modifies c`occupants, d`isSheltered, d`currentConstruction, g
      ensures Valid() && Buffer(g)
      ensures c.occupants == RemoveStep(old(c.occupants), d)
      ensures forall x :: x in c.occupants ==> x in old(c.occupants)
      ensures forall a, b :: 0 <= a < size && 0 <= b < size ==> g[a, b] == if (a, b) == q then d else old(g[a, b])
      ensures d.isSheltered ==> old(d.isSheltered)
    {
      c.RemoveOccupant(d);
      g[q.0, q.1] := d;
    }

    /**
     * The defenders of a shelter under attack at `(x, y)` come out. The cells
     * around it that are empty in both organism layers are shuffled, and each
     * occupant in seat order takes the last cell left, until none is left.
     * `remove_occupant` may keep a specialist seated; it is placed all the
     * same. So the defenders are the first occupants in seat order, and
     * fewer than all of them leave only when every such cell is taken.
     */
    method Evacuate(x: int, y: int, c: Construction, g: array2<Entity?>, rng: Rng)
        returns (defs: seq<(Entity, Construction)>)
      requires Valid() && Buffer(g) && g != grid && c in ConstructionRepr
      modifies g, c`occupants, c.occupants`isSheltered, c.occupants`currentConstruction, rng`next
      ensures Valid() && Buffer(g)
      ensures forall e :: e in c.occupants ==> e in old(c.occupants)
      ensures forall a, b :: 0 <= a < size && 0 <= b < size && g[a, b] != old(g[a, b]) ==>
        && IsNeighbor(size, x, y, (a, b)) && old(grid[a, b]) == null && old(g[a, b]) == null && g[a, b] in old(c.occupants)
      ensures |defs| <= |old(c.occupants)| && Defends(defs, old(c.occupants)[..|defs|], c)
      ensures c.occupants == Evict(old(c.occupants), old(c.occupants)[..|defs|])
      ensures |defs| < |old(c.occupants)| ==>
        forall a, b :: IsNeighbor(size, x, y, (a, b)) && old(grid[a, b]) == null && old(g[a, b]) == null ==> g[a, b] != null
      ensures forall x :: x in EntityRepr && x.isSheltered ==> old(x.isSheltered)
    {
      var ns := GetNeighbors(x, y);
      var open := Free(g, Free(grid, ns));
      assert forall q :: q in open <==> IsNeighbor(size, x, y, q) && old(grid[q.0, q.1]) == null && old(g[q.0, q.1]) == null;
      defs := Sortie(c, open, g, rng);
    }

    /**
     * The shuffle and the loop of the evacuation: the occupants of `c` in
     * seat order take the shuffled cells of `open`, all empty in the buffer,
     * from the end, until none is left.
     */
    method Sortie(c: Construction, open: seq<(int, int)>, g: array2<Entity?>, rng: Rng)
        returns (defs: seq<(Entity, Construction)>)
      requires Valid() && Buffer(g) && g != grid && c in ConstructionRepr
      requires forall q :: q in open ==> 0 <= q.0 < size && 0 <= q.1 < size
      requires forall q :: q in open ==> g[q.0, q.1] == null
      modifies g, c`occupants, c.occupants`isSheltered, c.occupants`currentConstruction, rng`next
      ensures Valid() && Buffer(g)
      ensures forall e :: e in c.occupants ==> e in old(c.occupants)
      ensures forall a, b :: 0 <= a < size && 0 <= b < size && g[a, b] != old(g[a, b]) ==>
        (a, b) in open && g[a, b] in old(c.occupants)
      ensures |defs| <= |old(c.occupants)| && Defends(defs, old(c.occupants)[..|defs|], c)
      ensures c.occupants == Evict(old(c.occupants), old(c.occupants)[..|defs|])
      ensures |defs| < |old(c.occupants)| ==> forall q :: q in open ==> g[q.0, q.1] != null
      ensures forall x :: x in EntityRepr && x.isSheltered ==> old(x.isSheltered)
    {
      var left := rng.Shuffle(open);
      assert forall q :: q in open ==> q in multiset(left);
      var seated := c.occupants;
      defs := [];
      for m := 0 to |seated|
        invariant Valid() && Buffer(g)
        invariant c.occupants == Evict(seated, seated[..m])
        invariant forall q :: q in left ==> q in open
        invariant forall q :: q in open && q !in left ==> g[q.0, q.1] != null
        invariant forall a, b :: 0 <= a < size && 0 <= b < size && g[a, b] != old(g[a, b]) ==>
          (a, b) in open && g[a, b] in seated
        invariant Defends(defs, seated[..m], c)
        invariant forall x :: x in EntityRepr && x.isSheltered ==> old(x.isSheltered)
      {
        if left == [] {
          break;
        }
        left, defs := SortieRound(c, seated[m], seated, m, left, defs, g, open);
      }
      EvictShrinks(seated, seated[..|defs|]);
    }

    /**
     * Round `m` of the evacuation: `d`, the `m`-th of the occupants
     * `seated`, leaves `c` as far as `remove_occupant` lets it, takes the
     * last cell of `pool` and joins the defenders `defs`.
     */
    method SortieRound(c: Construction, d: Entity, ghost seated: seq<Entity>, ghost m: nat, pool: seq<(int, int)>,
                       defs: seq<(Entity, Construction)>, g: array2<Entity?>, ghost open: seq<(int, int)>)
        returns (rest: seq<(int, int)>, joined: seq<(Entity, Construction)>)
      requires Valid() && Buffer(g) && g != grid && c in ConstructionRepr && d in EntityRepr
      requires m < |seated| && seated[m] == d
      requires pool != [] && (forall q :: q in pool ==> q in open) && forall q :: q in open ==> 0 <= q.0 < size && 0 <= q.1 < size
      requires forall q :: q in open && q !in pool ==> g[q.0, q.1] != null
      requires c.occupants == Evict(seated, seated[..m]) && Defends(defs, seated[..m], c)
      modifies c`occupants, d`isSheltered, d`currentConstruction, g
      ensures Valid() && Buffer(g)
      ensures (forall q :: q in rest ==> q in open) && forall q :: q in open && q !in rest ==> g[q.0, q.1] != null
      ensures c.occupants == Evict(seated, seated[..m + 1]) && Defends(joined, seated[..m + 1], c)
      ensures forall a, b :: 0 <= a < size && 0 <= b < size && g[a, b] != old(g[a, b]) ==> (a, b) in open && g[a, b] == d
      ensures d.isSheltered ==> old(d.isSheltered)
    {
      EvictPrefix(seated, seated, m);
      rest := DeployLast(c, d, pool, g, open);
      DefendsSnoc(defs, seated, m, c);
      joined := defs + [(d, c)];
    }

    /** The next defender `d` takes the last cell of `pool`, which leaves the pool; `rest` is the pool left. */
    method DeployLast(c: Construction, d: Entity, pool: seq<(int, int)>, g: array2<Entity?>, ghost open: seq<(int, int)>)
        returns (rest: seq<(int, int)>)
      requires Valid() && Buffer(g) && g != grid && c in ConstructionRepr && d in EntityRepr
      requires pool != [] && (forall q :: q in pool ==> q in open) && forall q :: q in open ==> 0 <= q.0 < size && 0 <= q.1 < size
      requires forall q :: q in open && q !in pool ==> g[q.0, q.1] != null
      modifies c`occupants, d`isSheltered, d`currentConstruction, g
      ensures Valid() && Buffer(g)
      ensures rest == pool[..|pool| - 1]
      ensures c.occupants == RemoveStep(old(c.occupants), d)
      ensures forall q :: q in open && q !in rest ==> g[q.0, q.1] != null
      ensures forall a, b :: 0 <= a < size && 0 <= b < size && g[a, b] != old(g[a, b]) ==> (a, b) in open && g[a, b] == d
      ensures d.isSheltered ==> old(d.isSheltered)
    {
      var q := pool[|pool| - 1];
      PopLast(pool);
      rest := pool[..|pool| - 1];
      Deploy(c, d, q, g);
    }

    /**
     * `e` attacks the enemy shelter `c` at `(x, y)`: the shelter takes a
     * fifth of `e`'s power as damage, whatever occupants it still holds come
     * out as defenders, and it leaves the layer once its health is gone. A
     * shelter left standing keeps its seat order, so its defenders are its
     * first occupants, as `Evacuate` states.
     */
    method Assault(x: int, y: int, c: Construction, e: Entity, g: array2<Entity?>, rng: Rng)
        returns (defs: seq<(Entity, Construction)>)
      requires Valid() && Buffer(g) && g != grid && InGrid(size, (x, y)) && constructions[x, y] == c
      modifies constructions, g, c`energy, c`occupants, EntityRepr`isSheltered, EntityRepr`currentConstruction, rng`next
      ensures Valid() && Buffer(g)
      ensures c.energy == old(c.energy) - old(e.GetPower()) * 0.2
      ensures forall a, b :: 0 <= a < size && 0 <= b < size ==>
        constructions[a, b] == if (a, b) == (x, y) && c.energy <= 0.0 then null else old(constructions[a, b])
      ensures forall a, b :: 0 <= a < size && 0 <= b < size && g[a, b] != old(g[a, b]) ==>
        && IsNeighbor(size, x, y, (a, b)) && old(grid[a, b]) == null && old(g[a, b]) == null && g[a, b] in old(c.occupants)
      ensures forall d :: d in defs ==> d.0 in old(c.occupants) && d.1 == c
      ensures c.energy > 0.0 ==>
        && |defs| <= |old(c.occupants)| && Defends(defs, old(c.occupants)[..|defs|], c)
        && (|defs| < |old(c.occupants)| ==>
              forall a, b :: IsNeighbor(size, x, y, (a, b)) && old(grid[a, b]) == null && old(g[a, b]) == null ==> g[a, b] != null)
      ensures forall x :: x in EntityRepr && x.isSheltered ==> old(x.isSheltered)
    {
      var destroyed := Hit(c, e.GetPower() * 0.2);
      defs := Defend(x, y, c, g, rng);
    }

    /**
     * The rest of an assault on `c` at `(x, y)` once its health has been
     * cut: its occupants, if any, come out as defenders, and it leaves the
     * layer when its health is gone.
     */
    method Defend(x: int, y: int, c: Construction, g: array2<Entity?>, rng: Rng)
        returns (defs: seq<(Entity, Construction)>)
      requires Valid() && Buffer(g) && g != grid && InGrid(size, (x, y)) && constructions[x, y] == c
      modifies constructions, g, c`occupants, EntityRepr`isSheltered, EntityRepr`currentConstruction, rng`next
      ensures Valid() && Buffer(g)
      ensures forall a, b :: 0 <= a < size && 0 <= b < size ==>
        constructions[a, b] == if (a, b) == (x, y) && c.energy <= 0.0 then null else old(constructions[a, b])
      ensures forall a, b :: 0 <= a < size && 0 <= b < size && g[a, b] != old(g[a, b]) ==>
        && IsNeighbor(size, x, y, (a, b)) && old(grid[a, b]) == null && old(g[a, b]) == null && g[a, b] in old(c.occupants)
      ensures forall d :: d in defs ==> d.0 in old(c.occupants) && d.1 == c
      ensures && |defs| <= |old(c.occupants)| && Defends(defs, old(c.occupants)[..|defs|], c)
              && (|defs| < |old(c.occupants)| ==>
                    forall a, b :: IsNeighbor(size, x, y, (a, b)) && old(grid[a, b]) == null && old(g[a, b]) == null ==> g[a, b] != null)
      ensures forall x :: x in EntityRepr && x.isSheltered ==> old(x.isSheltered)
    {
      defs := [];
      if |c.occupants| > 0 {
        defs := Evacuate(x, y, c, g, rng);
      }
      ClearIfDestroyed(x, y);
    }

    /**
     * The attack step of the first phase: `e` at `(i, j)`, which is not
     * sheltered, assaults every enemy shelter around it. Each of them loses
     * a fifth of `e`'s power, which no assault changes; only those cells can
     * lose their shelter.
     */
    method AttackAdjacent(i: int, j: int, e: Entity, g: array2<Entity?>, rng: Rng)
        returns (defs: seq<(Entity, Construction)>)
      requires Valid() && Buffer(g) && g != grid && e in EntityRepr && !e.isSheltered
      modifies constructions, g, rng`next, ConstructionRepr`energy, ConstructionRepr`occupants
      modifies EntityRepr`isSheltered, EntityRepr`currentConstruction
      ensures Valid() && Buffer(g)
      ensures forall a, b :: 0 <= a < size && 0 <= b < size ==>
        constructions[a, b] == old(constructions[a, b]) || (constructions[a, b] == null && IsNeighbor(size, i, j, (a, b)))
      ensures forall a, b :: IsNeighbor(size, i, j, (a, b)) && Enemy(old(constructions[a, b]), e) ==>
        old(constructions[a, b]).energy == old(constructions[a, b].energy) - old(e.GetPower()) * 0.2
      ensures forall a, b :: 0 <= a < size && 0 <= b < size && g[a, b] != old(g[a, b]) ==>
        old(grid[a, b]) == null && old(g[a, b]) == null
      ensures forall d :: d in defs ==> d.0 in EntityRepr && d.1 in ConstructionRepr
    {
      var ns := GetNeighbors(i, j);
      defs := AttackAround(i, j, ns, e, g, rng);
    }

    /** The attack step once `ns`, the neighbour cells of `(i, j)`, are listed. */
    method AttackAround(i: int, j: int, ns: seq<(int, int)>, e: Entity, g: array2<Entity?>, rng: Rng)
        returns (defs: seq<(Entity, Construction)>)
      requires Valid() && Buffer(g) && g != grid && e in EntityRepr && !e.isSheltered
      requires forall p :: p in ns <==> IsNeighbor(size, i, j, p)
      requires Increasing(ns)
      modifies constructions, g, rng`next, ConstructionRepr`energy, ConstructionRepr`occupants
      modifies EntityRepr`isSheltered, EntityRepr`currentConstruction
      ensures Valid() && Buffer(g)
      ensures forall a, b :: 0 <= a < size && 0 <= b < size ==>
        constructions[a, b] == old(constructions[a, b]) || (constructions[a, b] == null && IsNeighbor(size, i, j, (a, b)))
      ensures forall a, b :: IsNeighbor(size, i, j, (a, b)) && Enemy(old(constructions[a, b]), e) ==>
        old(constructions[a, b]).energy == old(constructions[a, b].energy) - old(e.GetPower()) * 0.2
      ensures forall a, b :: 0 <= a < size && 0 <= b < size && g[a, b] != old(g[a, b]) ==>
        old(grid[a, b]) == null && old(g[a, b]) == null
      ensures forall d :: d in defs ==> d.0 in EntityRepr && d.1 in ConstructionRepr
    {
      assert forall k :: 0 <= k < |ns| ==> ns[k] in ns;
      // The shelters around `(i, j)`: distinct cells hold distinct shelters,
      // since each stands on its own cell.
      ghost var sh := seq(|ns|, k requires 0 <= k < |ns| reads constructions => constructions[ns[k].0, ns[k].1]);
      assert forall k, n :: 0 <= k < |ns| && 0 <= n < |ns| && k != n && sh[k] != null ==>
        sh[k].position == ns[k] && ns[k] != ns[n] && sh[k] != sh[n];
      defs := Bombard(i, j, ns, e, g, rng, sh);
    }

    /** The attack step on the neighbour cells `ns` of `(i, j)`, which hold the distinct shelters (or nothing) `sh`. */
    method Bombard(i: int, j: int, ns: seq<(int, int)>, e: Entity, g: array2<Entity?>, rng: Rng, ghost sh: seq<Construction?>)
        returns (defs: seq<(Entity, Construction)>)
      requires Valid() && Buffer(g) && g != grid && e in EntityRepr && !e.isSheltered
      requires forall p :: p in ns <==> IsNeighbor(size, i, j, p)
      requires forall k :: 0 <= k < |ns| ==> 0 <= ns[k].0 < size && 0 <= ns[k].1 < size
      requires |ns| == |sh| && forall k :: 0 <= k < |ns| ==> constructions[ns[k].0, ns[k].1] == sh[k]
      requires forall k, n :: 0 <= k < |sh| && 0 <= n < |sh| && k != n && sh[k] != null ==> sh[k] != sh[n]
      modifies constructions, g, rng`next, ConstructionRepr`energy, ConstructionRepr`occupants
      modifies EntityRepr`isSheltered, EntityRepr`currentConstruction
      ensures Valid() && Buffer(g)
      ensures forall a, b :: 0 <= a < size && 0 <= b < size ==>
        constructions[a, b] == old(constructions[a, b]) || (constructions[a, b] == null && IsNeighbor(size, i, j, (a, b)))
      ensures forall a, b :: IsNeighbor(size, i, j, (a, b)) && Enemy(old(constructions[a, b]), e) ==>
        old(constructions[a, b]).energy == old(constructions[a, b].energy) - old(e.GetPower()) * 0.2
      ensures forall a, b :: 0 <= a < size && 0 <= b < size && g[a, b] != old(g[a, b]) ==>
        old(grid[a, b]) == null && old(g[a, b]) == null
      ensures forall d :: d in defs ==> d.0 in EntityRepr && d.1 in ConstructionRepr
    {
      assert forall k :: 0 <= k < |ns| ==> ns[k] in ns;
      defs := Onslaught(ns, e, g, rng, sh);
      forall a, b | IsNeighbor(size, i, j, (a, b))
        ensures constructions[a, b] == old(constructions[a, b]) || constructions[a, b] == null
        ensures Enemy(old(constructions[a, b]), e) ==>
          old(constructions[a, b]).energy == old(constructions[a, b].energy) - old(e.GetPower()) * 0.2
      {
        assert (a, b) in ns;
        var k :| 0 <= k < |ns| && ns[k] == (a, b);
        assert sh[k] == old(constructions[a, b]);
      }
    }

    /**
     * The loop of the attack step over the neighbour cells `ns`, which hold
     * the distinct shelters (or nothing) listed in `sh`: every enemy shelter
     * among them loses a fifth of `e`'s power, and only those cells can
     * lose their shelter.
     */
    method Onslaught(ns: seq<(int, int)>, e: Entity, g: array2<Entity?>, rng: Rng, ghost sh: seq<Construction?>)
        returns (defs: seq<(Entity, Construction)>)
      requires Valid() && Buffer(g) && g != grid && e in EntityRepr && !e.isSheltered
      requires |ns| == |sh| && forall k :: 0 <= k < |ns| ==> 0 <= ns[k].0 < size && 0 <= ns[k].1 < size
      requires forall k :: 0 <= k < |ns| ==> constructions[ns[k].0, ns[k].1] == sh[k]
      requires forall k, n :: 0 <= k < |sh| && 0 <= n < |sh| && k != n && sh[k] != null ==> sh[k] != sh[n]
      modifies constructions, g, rng`next, ConstructionRepr`energy, ConstructionRepr`occupants
      modifies EntityRepr`isSheltered, EntityRepr`currentConstruction
      ensures Valid() && Buffer(g)
      ensures forall a, b :: 0 <= a < size && 0 <= b < size && (a, b) !in ns ==> constructions[a, b] == old(constructions[a, b])
      ensures forall k :: 0 <= k < |ns| ==> constructions[ns[k].0, ns[k].1] == sh[k] || constructions[ns[k].0, ns[k].1] == null
      ensures forall k :: 0 <= k < |ns| && Enemy(sh[k], e) ==> sh[k].energy == old(sh[k].energy) - old(e.GetPower()) * 0.2
      ensures forall a, b :: 0 <= a < size && 0 <= b < size && g[a, b] != old(g[a, b]) ==>
        old(grid[a, b]) == null && old(g[a, b]) == null
      ensures forall d :: d in defs ==> d.0 in EntityRepr && d.1 in ConstructionRepr
    {
      defs := [];
      for m := 0 to |ns|
        invariant Valid() && Buffer(g) && !e.isSheltered && e.GetPower() == old(e.GetPower())
        invariant forall a, b :: 0 <= a < size && 0 <= b < size && (a, b) !in ns ==> constructions[a, b] == old(constructions[a, b])
        invariant forall k :: 0 <= k < |ns| ==>
          constructions[ns[k].0, ns[k].1] == sh[k] || (k < m && constructions[ns[k].0, ns[k].1] == null)
        invariant forall k :: 0 <= k < |ns| && Enemy(sh[k], e) ==>
          sh[k].energy == old(sh[k].energy) - (if k < m then old(e.GetPower()) * 0.2 else 0.0)
        invariant forall a, b :: 0 <= a < size && 0 <= b < size && g[a, b] != old(g[a, b]) ==>
          old(grid[a, b]) == null && old(g[a, b]) == null
        invariant forall d :: d in defs ==> d.0 in EntityRepr && d.1 in ConstructionRepr
      {
        var out := Besiege(ns, m, e, g, rng, sh);
        defs := defs + out;
      }
    }

    /**
     * One round of the attack step: `e` assaults the shelter on cell
     * `ns[m]` if it is an enemy's. `sh` lists the shelters on the cells
     * `ns`; `sh[m]` still stands there and no other entry is the same
     * shelter, so only that one loses health.
     */
    method Besiege(ns: seq<(int, int)>, m: nat, e: Entity, g: array2<Entity?>, rng: Rng, ghost sh: seq<Construction?>)
        returns (defs: seq<(Entity, Construction)>)
      requires Valid() && Buffer(g) && g != grid && e in EntityRepr && !e.isSheltered
      requires m < |ns| == |sh| && forall k :: 0 <= k < |ns| ==> 0 <= ns[k].0 < size && 0 <= ns[k].1 < size
      requires constructions[ns[m].0, ns[m].1] == sh[m]
      requires forall k :: 0 <= k < |sh| && k != m && sh[k] != null ==> sh[k] != sh[m]
      modifies constructions, g, rng`next, ConstructionRepr`energy, ConstructionRepr`occupants
      modifies EntityRepr`isSheltered, EntityRepr`currentConstruction
      ensures Valid() && Buffer(g) && !e.isSheltered && e.GetPower() == old(e.GetPower())
      ensures Enemy(sh[m], e) ==> sh[m].energy == old(sh[m].energy) - old(e.GetPower()) * 0.2
      ensures forall k :: 0 <= k < |sh| && k != m && sh[k] != null ==> sh[k].energy == old(sh[k].energy)
      ensures forall a, b :: 0 <= a < size && 0 <= b < size && (a, b) != ns[m] ==> constructions[a, b] == old(constructions[a, b])
      ensures constructions[ns[m].0, ns[m].1] == sh[m] || constructions[ns[m].0, ns[m].1] == null
      ensures forall a, b :: 0 <= a < size && 0 <= b < size && g[a, b] != old(g[a, b]) ==>
        old(grid[a, b]) == null && old(g[a, b]) == null
      ensures forall d :: d in defs ==> d.0 in EntityRepr && d.1 in ConstructionRepr
    {
      var (nx, ny) := ns[m];
      var c := constructions[nx, ny];
      defs := [];
      if c != null && c.ownerType != e.kind {
        defs := Assault(nx, ny, c, e, g, rng);
      }
    }

    /** `c` is a shelter of a faction other than `e`'s. */
    predicate Enemy(c: Construction?, e: Entity) {
      c != null && c.ownerType != e.kind
    }

    /** `e` takes a seat in shelter `c` when it has room, as `add_occupant` decides. */
    method Seat(c: Construction, e: Entity) returns (ok: bool)
      requires Valid() && c in ConstructionRepr && e in EntityRepr
      modifies c`occupants, e`isSheltered, e`currentConstruction
      ensures Valid()
      ensures ok == old(c.HasRoom())
      ensures ok ==> c.occupants == old(c.occupants) + [e] && e.isSheltered && e.currentConstruction == c
      ensures !ok ==> c.occupants == old(c.occupants) && e.isSheltered == old(e.isSheltered)
                      && e.currentConstruction == old(e.currentConstruction)
    {
      ok := c.AddOccupant(e);
    }

    /**
     * The attack on a targeted enemy shelter at `(x, y)`: `e` deals a fifth
     * of its power, and a shelter whose energy drops to zero or below leaves
     * the layer (no defenders come out on this path).
     */
    method Raid(x: int, y: int, e: Entity)
      requires Valid() && InGrid(size, (x, y))
      modifies constructions, ConstructionRepr`energy, ConstructionRepr`occupants
      modifies EntityRepr`isSheltered, EntityRepr`currentConstruction
      ensures Valid()
      ensures var c := old(constructions[x, y]);
              c != null ==> c.energy == old(c.energy) - old(e.GetPower()) * 0.2 && (constructions[x, y] == null <==> c.energy <= 0.0)
      ensures constructions[x, y] == null || constructions[x, y] == old(constructions[x, y])
      ensures forall a, b :: 0 <= a < size && 0 <= b < size && (a, b) != (x, y) ==> constructions[a, b] == old(constructions[a, b])
    {
      var c := constructions[x, y];
      if c != null {
        var destroyed := Hit(c, e.GetPower() * 0.2);
        ClearIfDestroyed(x, y);
      }
    }

    /**
     * Mating with the partner at `(x, y)`: when the partner and `e` can both
     * reproduce, the child of `e` lands on a neighbour of `(i, j)` drawn among
     * those empty in the current layer, if there is one.
     */
    method MateNear(i: int, j: int, x: int, y: int, e: Entity, g: array2<Entity?>, rng: Rng) returns (placed: Option<(int, int)>)
      requires Valid() && Buffer(g) && g != grid && InGrid(size, (i, j)) && InGrid(size, (x, y)) && e in EntityRepr
      modifies g, this`EntityRepr, e`energy, e`lastReproduction, rng`next
      ensures Valid() && Buffer(g)
      ensures old(EntityRepr) <= EntityRepr && fresh(EntityRepr - old(EntityRepr))
      ensures placed.None? <==>
        old(grid[x, y]) == null || !old(grid[x, y].CanReproduce()) || !old(e.CanReproduce()) || old(Crowded(grid, i, j))
      ensures placed.Some? ==> && IsNeighbor(size, i, j, placed.value) && old(grid[placed.value.0, placed.value.1]) == null
                                && g[placed.value.0, placed.value.1] != null && fresh(g[placed.value.0, placed.value.1])
                                && g[placed.value.0, placed.value.1].kind == e.kind
      ensures forall a, b :: 0 <= a < size && 0 <= b < size && placed != Some((a, b)) ==> g[a, b] == old(g[a, b])
      ensures placed.Some? ==> Offspring(g[placed.value.0, placed.value.1], e, old(e.energy), rng, old(rng.next) + 1)
      ensures placed.None? ==>
        e.energy == old(e.energy) && e.lastReproduction == old(e.lastReproduction) && rng.next == old(rng.next)
    {
      placed := None;
      var partner := grid[x, y];
      if partner != null && partner.CanReproduce() && e.CanReproduce() {
        var ns := GetNeighbors(i, j);
        placed := Brood(i, j, ns, e, g, rng);
      }
    }

    /**
     * The child of `e` at `(i, j)` lands on a neighbour cell, among `ns`,
     * drawn among those empty in the current layer, and goes into the buffer
     * `g`. With no such cell nothing happens.
     */
    method Brood(i: int, j: int, ns: seq<(int, int)>, e: Entity, g: array2<Entity?>, rng: Rng) returns (placed: Option<(int, int)>)
      requires Valid() && Buffer(g) && g != grid && InGrid(size, (i, j)) && e in EntityRepr
      requires forall p :: p in ns <==> IsNeighbor(size, i, j, p)
      modifies g, this`EntityRepr, e`energy, e`lastReproduction, rng`next
      ensures Valid() && Buffer(g)
      ensures old(EntityRepr) <= EntityRepr && fresh(EntityRepr - old(EntityRepr))
      ensures placed.None? <==> old(Crowded(grid, i, j))
      ensures placed.Some? ==> && IsNeighbor(size, i, j, placed.value) && old(grid[placed.value.0, placed.value.1]) == null
                                && fresh(g[placed.value.0, placed.value.1])
                                && Offspring(g[placed.value.0, placed.value.1], e, old(e.energy), rng, old(rng.next) + 1)
      ensures placed.None? ==>
        e.energy == old(e.energy) && e.lastReproduction == old(e.lastReproduction) && rng.next == old(rng.next)
      ensures forall a, b :: 0 <= a < size && 0 <= b < size && placed != Some((a, b)) ==> g[a, b] == old(g[a, b])
    {
      placed := None;
      var free := Free(grid, ns);
      if free != [] {
        var p := Litter(g, free, e, rng);
        placed := Some(p);
      }
    }

    /** Engaging the target `t` from `(i, j)` takes a seat: `t` is an allied shelter next to it with room. */
    predicate Seats(i: int, j: int, t: Target)
      requires Dims() && InGrid(size, (t.x, t.y))
      reads this`grid, constructions, if constructions[t.x, t.y] != null then {constructions[t.x, t.y]} else {}
    {
      && t.action == Shelter && Manhattan(i, j, t.x, t.y) <= 1
      && constructions[t.x, t.y] != null && constructions[t.x, t.y].HasRoom()
    }

    /**
     * What `e` at `(i, j)` does to the target `t` before moving: next to it
     * (Manhattan distance at most one) it attacks the enemy shelter, mates,
     * or takes a seat in the allied shelter. `seated` says a seat was taken,
     * which ends the organism's turn; `born` is the cell of a newborn.
     */
    method Engage(i: int, j: int, e: Entity, t: Target, g: array2<Entity?>, rng: Rng) returns (seated: bool, born: Option<(int, int)>)
      requires Valid() && Buffer(g) && g != grid && InGrid(size, (i, j)) && InGrid(size, (t.x, t.y)) && e in EntityRepr
      modifies constructions, g, this`EntityRepr, rng`next, ConstructionRepr`energy, ConstructionRepr`occupants
      modifies EntityRepr`isSheltered, EntityRepr`currentConstruction, e`energy, e`lastReproduction
      ensures Valid() && Buffer(g)
      ensures old(EntityRepr) <= EntityRepr && fresh(EntityRepr - old(EntityRepr))
      ensures forall a, b :: 0 <= a < size && 0 <= b < size ==>
        constructions[a, b] == old(constructions[a, b]) || constructions[a, b] == null
      ensures seated <==> old(Seats(i, j, t))
      ensures seated ==> e.isSheltered && e in old(constructions[t.x, t.y]).occupants
      ensures var near := Manhattan(i, j, t.x, t.y) <= 1;
              t.action == Attack && near && old(constructions[t.x, t.y]) != null ==>
                var c := old(constructions[t.x, t.y]);
                c.energy == old(c.energy) - old(e.GetPower()) * 0.2 && (constructions[t.x, t.y] == null <==> c.energy <= 0.0)
      ensures !(t.action == Attack && Manhattan(i, j, t.x, t.y) <= 1) ==>
        forall a, b :: 0 <= a < size && 0 <= b < size ==> constructions[a, b] == old(constructions[a, b])
      ensures born.Some? ==> && t.action == Mate && Manhattan(i, j, t.x, t.y) <= 1
                             && IsNeighbor(size, i, j, born.value) && grid[born.value.0, born.value.1] == null
                             && g[born.value.0, born.value.1] != null && fresh(g[born.value.0, born.value.1])
                             && g[born.value.0, born.value.1].kind == e.kind
      ensures t.action == Mate && Manhattan(i, j, t.x, t.y) <= 1 ==>
        (born.None? <==> || grid[t.x, t.y] == null || !old(grid[t.x, t.y].CanReproduce()) || !old(e.CanReproduce())
                         || forall p :: IsNeighbor(size, i, j, p) ==> grid[p.0, p.1] != null)
      ensures forall a, b :: 0 <= a < size && 0 <= b < size && born != Some((a, b)) ==> g[a, b] == old(g[a, b])
      ensures born.Some? ==> Offspring(g[born.value.0, born.value.1], e, old(e.energy), rng, old(rng.next) + 1)
      ensures born.None? ==>
        e.energy == old(e.energy) && e.lastReproduction == old(e.lastReproduction) && rng.next == old(rng.next)
    {
      seated, born := false, None;
      var near := Manhattan(i, j, t.x, t.y) <= 1;
      if t.action == Attack && near {
        Raid(t.x, t.y, e);
      } else if t.action == Mate && near {
        born := MateNear(i, j, t.x, t.y, e, g, rng);
      } else if t.action == Shelter && near {
        var c := constructions[t.x, t.y];
        if c != null {
          seated := Seat(c, e);
        }
      }
    }

    /**
     * `e` at `(i, j)` goes after the target `t` that `find_nearest_target`
     * chose: it engages the target, and unless it took a seat it steps
     * towards the target. Its turn ends exactly when it took a seat
     * (`seated`) or the step moved it; the step puts it in the buffer.
     */
    method Pursue(i: int, j: int, e: Entity, t: Target, g: array2<Entity?>, rng: Rng) returns (done: bool, seated: bool)
      requires Valid() && Buffer(g) && g != grid && InGrid(size, (i, j)) && InGrid(size, (t.x, t.y)) && e in EntityRepr
      modifies constructions, g, this`EntityRepr, rng`next, ConstructionRepr`energy, ConstructionRepr`occupants
      modifies EntityRepr`isSheltered, EntityRepr`currentConstruction, e`energy, e`lastReproduction
      ensures Valid() && Buffer(g)
      ensures old(EntityRepr) <= EntityRepr && fresh(EntityRepr - old(EntityRepr))
      ensures forall a, b :: 0 <= a < size && 0 <= b < size ==>
        constructions[a, b] == old(constructions[a, b]) || constructions[a, b] == null
      ensures seated <==> old(Seats(i, j, t))
      ensures var step := MoveTowards(i, j, t.x, t.y);
              && (done <==> old(Seats(i, j, t)) || step != (i, j))
              && (old(Seats(i, j, t)) ==> e.isSheltered)
              && (!old(Seats(i, j, t)) && step != (i, j) ==> g[step.0, step.1] == e)
    {
      var born;
      seated, born := Engage(i, j, e, t, g, rng);
      if seated {
        return true, true;
      }
      var step := MoveTowards(i, j, t.x, t.y);
      done := step != (i, j);
      if done {
        g[step.0, step.1] := e;
      }
    }

    /**
     * The fallback move of the first phase: with a draw below 0.2 the
     * organism moves to a neighbour cell drawn among those empty in the
     * current layer; otherwise, or when there is none, it stays put.
     */
    method Wander(i: int, j: int, e: Entity, g: array2<Entity?>, rng: Rng) returns (dest: (int, int))
      requires Dims() && Buffer(g) && g != grid && InGrid(size, (i, j)) && e in EntityRepr
      modifies g, rng`next
      ensures Buffer(g)
      ensures forall a, b :: 0 <= a < size && 0 <= b < size ==> g[a, b] == if (a, b) == dest then e else old(g[a, b])
      ensures dest == (i, j) || (IsNeighbor(size, i, j, dest) && grid[dest.0, dest.1] == null)
      ensures dest == (i, j) <==>
        rng.reals(old(rng.next)) >= 0.2 || forall p :: IsNeighbor(size, i, j, p) ==> grid[p.0, p.1] != null
    {
      var roll := rng.Random();
      dest := (i, j);
      if roll < 0.2 {
        var ns := GetNeighbors(i, j);
        var free := Free(grid, ns);
        if free != [] {
          var k := rng.Below(|free|);
          assert free[k] in free;
          dest := free[k];
        }
      }
      g[dest.0, dest.1] := e;
    }

    /**
     * The first phase of `update` for cell `(i, j)`. An empty cell or a
     * sheltered organism is skipped. Otherwise the organism attacks the
     * enemy shelters around it, consumes the deposit under it, and pursues
     * its nearest target; when that does not end its turn it wanders. It ends
     * up seated (`dest` is None) or on `dest` in the buffer: its own cell or
     * a neighbour empty in the organism layer.
     */
    method ActAt(i: int, j: int, g: array2<Entity?>, rng: Rng) returns (defs: seq<(Entity, Construction)>, dest: Option<(int, int)>)
      requires Valid() && Buffer(g) && g != grid && InGrid(size, (i, j))
      modifies g, resources, constructions, this`EntityRepr, rng`next, ConstructionRepr`energy, ConstructionRepr`occupants
      modifies EntityRepr`energy, EntityRepr`strength, EntityRepr`inventory, EntityRepr`isSheltered
      modifies EntityRepr`currentConstruction, EntityRepr`lastReproduction
      ensures Valid() && Buffer(g)
      ensures old(EntityRepr) <= EntityRepr && fresh(EntityRepr - old(EntityRepr))
      ensures forall a, b :: 0 <= a < size && 0 <= b < size ==>
        constructions[a, b] == old(constructions[a, b]) || constructions[a, b] == null
      ensures forall a, b :: 0 <= a < size && 0 <= b < size && (a, b) != (i, j) ==> resources[a, b] == old(resources[a, b])
      ensures forall d :: d in defs ==> d.0 in EntityRepr && d.1 in ConstructionRepr
      ensures old(grid[i, j]) == null || old(grid[i, j].isSheltered) ==>
        && defs == [] && dest.None? && resources[i, j] == old(resources[i, j])
        && forall a, b :: 0 <= a < size && 0 <= b < size ==> g[a, b] == old(g[a, b])
      ensures old(grid[i, j]) != null && !old(grid[i, j].isSheltered) ==>
        && resources[i, j] == None
        && (dest.None? ==> old(grid[i, j]).isSheltered)
        && (dest.Some? ==> && (dest.value == (i, j) || (IsNeighbor(size, i, j, dest.value) && grid[dest.value.0, dest.value.1] == null))
                           && g[dest.value.0, dest.value.1] == old(grid[i, j]))
    {
      var e := grid[i, j];
      defs, dest := [], None;
      if e == null || e.isSheltered {
        return;
      }
      defs := AttackAdjacent(i, j, e, g, rng);
      Consume(i, j, e);
      dest := Advance(i, j, e, g, rng);
    }

    /**
     * The move of the organism `e` at `(i, j)`: it pursues its nearest
     * target, and wanders when that does not end its turn. Either way it ends
     * up seated in a shelter (`dest` is None) or on `dest` in the buffer.
     */
    method Advance(i: int, j: int, e: Entity, g: array2<Entity?>, rng: Rng) returns (dest: Option<(int, int)>)
      requires Valid() && Buffer(g) && g != grid && InGrid(size, (i, j)) && e in EntityRepr
      modifies g, constructions, this`EntityRepr, rng`next, ConstructionRepr`energy, ConstructionRepr`occupants
      modifies EntityRepr`isSheltered, EntityRepr`currentConstruction, e`energy, e`lastReproduction
      ensures Valid() && Buffer(g)
      ensures old(EntityRepr) <= EntityRepr && fresh(EntityRepr - old(EntityRepr))
      ensures forall a, b :: 0 <= a < size && 0 <= b < size ==>
        constructions[a, b] == old(constructions[a, b]) || constructions[a, b] == null
      ensures dest.None? ==> e.isSheltered
      ensures dest.Some? ==> && (dest.value == (i, j) || (IsNeighbor(size, i, j, dest.value) && grid[dest.value.0, dest.value.1] == null))
                             && g[dest.value.0, dest.value.1] == e
    {
      var target := FindNearestTarget(i, j, e);
      dest := Head(i, j, e, target, g, rng);
    }

    /**
     * The organism `e` at `(i, j)` pursues `target` if it has one, and
     * wanders when that does not end its turn. It is seated exactly when the
     * target seats it; a step towards the target that moves it puts it on
     * the step cell; otherwise it wanders from its own cell.
     */
    method Head(i: int, j: int, e: Entity, target: Option<Target>, g: array2<Entity?>, rng: Rng) returns (dest: Option<(int, int)>)
      requires Valid() && Buffer(g) && g != grid && InGrid(size, (i, j)) && e in EntityRepr
      requires target.Some? ==> InGrid(size, (target.value.x, target.value.y))
      modifies g, constructions, this`EntityRepr, rng`next, ConstructionRepr`energy, ConstructionRepr`occupants
      modifies EntityRepr`isSheltered, EntityRepr`currentConstruction, e`energy, e`lastReproduction
      ensures Valid() && Buffer(g)
      ensures old(EntityRepr) <= EntityRepr && fresh(EntityRepr - old(EntityRepr))
      ensures forall a, b :: 0 <= a < size && 0 <= b < size ==>
        constructions[a, b] == old(constructions[a, b]) || constructions[a, b] == null
      ensures dest.None? <==> target.Some? && old(Seats(i, j, target.value))
      ensures dest.None? ==> e.isSheltered
      ensures dest.Some? ==> && (dest.value == (i, j) || (IsNeighbor(size, i, j, dest.value) && grid[dest.value.0, dest.value.1] == null))
                             && g[dest.value.0, dest.value.1] == e
      ensures target.Some? && !old(Seats(i, j, target.value)) && MoveTowards(i, j, target.value.x, target.value.y) != (i, j) ==>
        dest == Some(MoveTowards(i, j, target.value.x, target.value.y))
      ensures target.None? ==>
        (dest == Some((i, j)) <==> rng.reals(old(rng.next)) >= 0.2 || forall p :: IsNeighbor(size, i, j, p) ==> grid[p.0, p.1] != null)
    {
      var done := false;
      if target.Some? {
        var seated;
        done, seated := Pursue(i, j, e, target.value, g, rng);
        if done {
          var t := target.value;
          dest := if seated then None else Some(MoveTowards(i, j, t.x, t.y));
          return;
        }
      }
      var to := Wander(i, j, e, g, rng);
      dest := Some(to);
    }

    /**
     * The first phase of `update`: every cell in row-major order acts on the
     * buffer `g`. Shelters can only be destroyed, deposits only consumed; the
     * result lists the defenders placed outside their shelters.
     */
    method MovePhase(g: array2<Entity?>, rng: Rng) returns (defs: seq<(Entity, Construction)>)
      requires Valid() && Buffer(g) && g != grid
      modifies g, resources, constructions, this`EntityRepr, rng`next, ConstructionRepr`energy, ConstructionRepr`occupants
      modifies EntityRepr`energy, EntityRepr`strength, EntityRepr`inventory, EntityRepr`isSheltered
      modifies EntityRepr`currentConstruction, EntityRepr`lastReproduction
      ensures Valid() && Buffer(g)
      ensures old(EntityRepr) <= EntityRepr && fresh(EntityRepr - old(EntityRepr))
      ensures forall a, b :: 0 <= a < size && 0 <= b < size ==>
        constructions[a, b] == old(constructions[a, b]) || constructions[a, b] == null
      ensures forall a, b :: 0 <= a < size && 0 <= b < size ==>
        resources[a, b] == old(resources[a, b]) || resources[a, b] == None
      ensures forall d :: d in defs ==> d.0 in EntityRepr && d.1 in ConstructionRepr
    {
      defs := [];
      for i := 0 to size
        invariant Valid() && Buffer(g)
        invariant old(EntityRepr) <= EntityRepr && fresh(EntityRepr - old(EntityRepr))
        invariant forall a, b :: 0 <= a < size && 0 <= b < size ==>
          constructions[a, b] == old(constructions[a, b]) || constructions[a, b] == null
        invariant forall a, b :: 0 <= a < size && 0 <= b < size ==>
          resources[a, b] == old(resources[a, b]) || resources[a, b] == None
        invariant forall d :: d in defs ==> d.0 in EntityRepr && d.1 in ConstructionRepr
      {
        var out := MoveRow(i, g, rng);
        defs := defs + out;
      }
    }

    /** Row `i` of the first phase. */
    method MoveRow(i: int, g: array2<Entity?>, rng: Rng) returns (defs: seq<(Entity, Construction)>)
      requires Valid() && Buffer(g) && g != grid && 0 <= i < size
      modifies g, resources, constructions, this`EntityRepr, rng`next, ConstructionRepr`energy, ConstructionRepr`occupants
      modifies EntityRepr`energy, EntityRepr`strength, EntityRepr`inventory, EntityRepr`isSheltered
      modifies EntityRepr`currentConstruction, EntityRepr`lastReproduction
      ensures Valid() && Buffer(g)
      ensures old(EntityRepr) <= EntityRepr && fresh(EntityRepr - old(EntityRepr))
      ensures forall a, b :: 0 <= a < size && 0 <= b < size ==>
        constructions[a, b] == old(constructions[a, b]) || constructions[a, b] == null
      ensures forall a, b :: 0 <= a < size && 0 <= b < size ==>
        resources[a, b] == old(resources[a, b]) || resources[a, b] == None
      ensures forall d :: d in defs ==> d.0 in EntityRepr && d.1 in ConstructionRepr
    {
      defs := [];
      for j := 0 to size
        invariant Valid() && Buffer(g)
        invariant old(EntityRepr) <= EntityRepr && fresh(EntityRepr - old(EntityRepr))
        invariant forall a, b :: 0 <= a < size && 0 <= b < size ==>
          constructions[a, b] == old(constructions[a, b]) || constructions[a, b] == null
        invariant forall a, b :: 0 <= a < size && 0 <= b < size ==>
          resources[a, b] == old(resources[a, b]) || resources[a, b] == None
        invariant forall d :: d in defs ==> d.0 in EntityRepr && d.1 in ConstructionRepr
      {
        var out, dest := ActAt(i, j, g, rng);
        defs := defs + out;
      }
    }

    /**
     * One step of the combat pass for the organism at `(i, j)` of the buffer
     * `g`: every neighbour of the other faction whose power is strictly lower
     * is removed. Equal power is no casualty; nothing else changes.
     */
    method Strike(g: array2<Entity?>, i: int, j: int)
      requires g.Length0 == size && g.Length1 == size && InGrid(size, (i, j)) && g[i, j] != null
      modifies g
      ensures forall a, b :: 0 <= a < size && 0 <= b < size ==>
        g[a, b] == if IsNeighbor(size, i, j, (a, b)) && Beats(old(g[i, j]), old(g[a, b])) then null else old(g[a, b])
    {
      var e := g[i, j];
      var ns := GetNeighbors(i, j);
      for m := 0 to |ns|
        invariant forall a, b :: 0 <= a < size && 0 <= b < size ==>
          g[a, b] == if (a, b) in ns[..m] && Beats(e, old(g[a, b])) then null else old(g[a, b])
      {
        var (nx, ny) := ns[m];
        assert ns[m] in ns;
        assert forall q :: q in ns[..m] ==> Before(q, ns[m]) by {
          forall q | q in ns[..m] ensures Before(q, ns[m]) {
            var k :| 0 <= k < m && ns[k] == q;
          }
        }
        var neighbor := g[nx, ny];
        if neighbor != null && neighbor.kind != e.kind && e.GetPower() > neighbor.GetPower() {
          g[nx, ny] := null;
        }
        assert ns[..m + 1] == ns[..m] + [ns[m]];
      }
    }

    /**
     * The reproduction step of the combat pass: an organism able to
     * reproduce puts its child on a neighbour cell that is still empty in the
     * buffer, drawn among those cells. Unable to reproduce, or with no such
     * cell, it does nothing.
     */
    method Breed(g: array2<Entity?>, i: int, j: int, rng: Rng) returns (placed: Option<(int, int)>)
      requires Valid() && Buffer(g) && g != grid && InGrid(size, (i, j)) && g[i, j] != null
      modifies g, this`EntityRepr, g[i, j]`energy, g[i, j]`lastReproduction, rng`next
      ensures Valid() && Buffer(g)
      ensures old(EntityRepr) <= EntityRepr && fresh(EntityRepr - old(EntityRepr))
      ensures placed.None? <==> !old(g[i, j].CanReproduce()) || old(Crowded(g, i, j))
      ensures placed.Some? ==> && IsNeighbor(size, i, j, placed.value) && old(g[placed.value.0, placed.value.1]) == null
                                && g[placed.value.0, placed.value.1] != null && fresh(g[placed.value.0, placed.value.1])
                                && g[placed.value.0, placed.value.1].kind == old(g[i, j]).kind
      ensures forall a, b :: 0 <= a < size && 0 <= b < size && placed != Some((a, b)) ==> g[a, b] == old(g[a, b])
      ensures placed.Some? ==>
        Offspring(g[placed.value.0, placed.value.1], old(g[i, j]), old(g[i, j].energy), rng, old(rng.next) + 1)
      ensures placed.None? ==>
        var e := old(g[i, j]);
        e.energy == old(e.energy) && e.lastReproduction == old(e.lastReproduction) && rng.next == old(rng.next)
    {
      var e := g[i, j];
      placed := None;
      if e.CanReproduce() {
        var ns := GetNeighbors(i, j);
        var free := Free(g, ns);
        if free != [] {
          var p := Litter(g, free, e, rng);
          placed := Some(p);
        }
      }
    }

    /** Every neighbour cell of `(i, j)` is taken in the layer `h`. */
    ghost predicate Crowded(h: array2<Entity?>, i: int, j: int)
      requires h.Length0 == size && h.Length1 == size
      reads h
    {
      forall p :: IsNeighbor(size, i, j, p) ==> h[p.0, p.1] != null
    }

    /** `e` reproduces and its child is put in cell `p` of the buffer `g`. */
    method Hatch(g: array2<Entity?>, p: (int, int), e: Entity, rng: Rng) returns (child: Entity)
      requires Valid() && Buffer(g) && g != grid && InGrid(size, p) && e in EntityRepr
      modifies g, this`EntityRepr, e`energy, e`lastReproduction, rng`next
      ensures Valid() && Buffer(g)
      ensures fresh(child) && child.kind == e.kind && EntityRepr == old(EntityRepr) + {child}
      ensures forall a, b :: 0 <= a < size && 0 <= b < size ==> g[a, b] == if (a, b) == p then child else old(g[a, b])
      ensures Offspring(child, e, old(e.energy), rng, old(rng.next))
    {
      child := e.Reproduce(rng);
      g[p.0, p.1] := child;
      EntityRepr := EntityRepr + {child};
    }

    /**
     * `random.choice(free)` and `reproduce`: the child of `e` fills the drawn
     * cell `p` of `free` in the buffer `g`.
     */
    method Litter(g: array2<Entity?>, free: seq<(int, int)>, e: Entity, rng: Rng) returns (p: (int, int))
      requires Valid() && Buffer(g) && g != grid && free != [] && e in EntityRepr
      requires forall q :: q in free ==> 0 <= q.0 < size && 0 <= q.1 < size
      modifies g, this`EntityRepr, e`energy, e`lastReproduction, rng`next
      ensures Valid() && Buffer(g)
      ensures p == free[rng.BelowAt(old(rng.next), |free|)] && p in free
      ensures fresh(g[p.0, p.1]) && EntityRepr == old(EntityRepr) + {g[p.0, p.1]}
      ensures old(EntityRepr) <= EntityRepr && fresh(EntityRepr - old(EntityRepr))
      ensures forall a, b :: 0 <= a < size && 0 <= b < size && (a, b) != p ==> g[a, b] == old(g[a, b])
      ensures Offspring(g[p.0, p.1], e, old(e.energy), rng, old(rng.next) + 1)
    {
      var k := rng.Below(|free|);
      p := free[k];
      assert p in free;
      var child := Hatch(g, p, e, rng);
    }

    /**
     * The second phase of `update`, over the buffer `g`: each organism in
     * row-major order strikes its neighbours and may breed. No organism
     * changes cell: each cell keeps its organism, loses it, or holds a newborn.
     */
    method CombatPhase(g: array2<Entity?>, rng: Rng)
      requires Valid() && Buffer(g) && g != grid
      modifies g, this`EntityRepr, EntityRepr`energy, EntityRepr`lastReproduction, rng`next
      ensures Valid() && Buffer(g)
      ensures old(EntityRepr) <= EntityRepr && fresh(EntityRepr - old(EntityRepr))
      ensures forall a, b :: 0 <= a < size && 0 <= b < size ==>
        g[a, b] == old(g[a, b]) || g[a, b] == null || fresh(g[a, b])
    {
      for i := 0 to size
        invariant Valid() && Buffer(g) && old(EntityRepr) <= EntityRepr && fresh(EntityRepr - old(EntityRepr))
        invariant forall a, b :: 0 <= a < size && 0 <= b < size ==>
          g[a, b] == old(g[a, b]) || g[a, b] == null || fresh(g[a, b])
      {
        for j := 0 to size
          invariant Valid() && Buffer(g) && old(EntityRepr) <= EntityRepr && fresh(EntityRepr - old(EntityRepr))
          invariant forall a, b :: 0 <= a < size && 0 <= b < size ==>
            g[a, b] == old(g[a, b]) || g[a, b] == null || fresh(g[a, b])
        {
          if g[i, j] != null {
            Strike(g, i, j);
            var placed := Breed(g, i, j, rng);
          }
        }
      }
    }

    /** Some organism of a faction other than `k` stands on a cell of `ns`. */
    predicate Threatened(ns: seq<(int, int)>, k: Species)
      requires Dims() && forall p :: p in ns ==> 0 <= p.0 < size && 0 <= p.1 < size
      reads this`grid, grid
    {
      exists p :: p in ns && grid[p.0, p.1] != null && grid[p.0, p.1].kind != k
    }

    /** `remove_occupant` of `d` from `c`, in the world. */
    method Unseat(c: Construction, d: Entity)
      requires Valid() && c in ConstructionRepr && d in EntityRepr
      modifies c`occupants, d`isSheltered, d`currentConstruction
      ensures Valid()
      ensures c.occupants == RemoveStep(old(c.occupants), d)
      ensures forall x :: x in c.occupants ==> x in old(c.occupants)
      ensures Removes(old(c.occupants), d) ==> !d.isSheltered && d.currentConstruction == null
      ensures !Removes(old(c.occupants), d) ==>
        d.isSheltered == old(d.isSheltered) && d.currentConstruction == old(d.currentConstruction)
    {
      c.RemoveOccupant(d);
    }

    /**
     * `d` goes to the first cell of `ns` that is empty in the organism layer,
     * if there is one. `k` is that cell's index, or `|ns|` when every cell
     * is taken.
     */
    method PlaceFirst(ns: seq<(int, int)>, d: Entity) returns (k: nat)
      requires Valid() && d in EntityRepr && forall p :: p in ns ==> 0 <= p.0 < size && 0 <= p.1 < size
      modifies grid
      ensures Valid()
      ensures k <= |ns| && forall m :: 0 <= m < k ==> ns[m] in ns && old(grid[ns[m].0, ns[m].1]) != null
      ensures k < |ns| ==> ns[k] in ns && old(grid[ns[k].0, ns[k].1]) == null
      ensures forall a, b :: 0 <= a < size && 0 <= b < size ==>
        grid[a, b] == if k < |ns| && (a, b) == ns[k] then d else old(grid[a, b])
    {
      k := 0;
      while k < |ns|
        invariant k <= |ns| && forall m :: 0 <= m < k ==> ns[m] in ns && grid[ns[m].0, ns[m].1] != null
      {
        var (x, y) := ns[k];
        if grid[x, y] == null {
          grid[x, y] := d;
          return;
        }
        k := k + 1;
      }
    }

    /**
     * A shelter just built answers enemies on the cells `ns` around it: each
     * of its occupants in seat order is unseated, as far as `remove_occupant`
     * allows, and put on the first empty cell of `ns` in the organism layer.
     * An occupant that stays seated is put there all the same. For the
     * neighbour list of `get_neighbors`, which is increasing, the k-th
     * occupant thus lands on the k-th cell of `ns` that was empty.
     */
    method Alarm(ns: seq<(int, int)>, c: Construction)
      requires Valid() && c in ConstructionRepr && forall p :: p in ns ==> 0 <= p.0 < size && 0 <= p.1 < size
      modifies grid, c`occupants, c.occupants`isSheltered, c.occupants`currentConstruction
      ensures Valid()
      ensures forall x :: x in c.occupants ==> x in old(c.occupants)
      ensures !old(Threatened(ns, c.ownerType)) ==>
        c.occupants == old(c.occupants) && forall a, b :: 0 <= a < size && 0 <= b < size ==> grid[a, b] == old(grid[a, b])
      ensures old(Threatened(ns, c.ownerType)) ==>
        && c.occupants == Evict(old(c.occupants), old(c.occupants))
        && |c.occupants| <= 2 && forall x :: x in c.occupants ==> x.role != Normal
      ensures forall a, b :: 0 <= a < size && 0 <= b < size && grid[a, b] != old(grid[a, b]) ==>
        (a, b) in ns && old(grid[a, b]) == null && grid[a, b] in old(c.occupants)
      ensures Increasing(ns) && old(Threatened(ns, c.ownerType)) ==>
        var f, s := old(Free(grid, ns)), old(c.occupants);
        forall k :: 0 <= k < |f| ==> grid[f[k].0, f[k].1] == if k < |s| then s[k] else null
      ensures old(Threatened(ns, c.ownerType)) ==> forall x :: x in old(c.occupants) ==>
        if x in Cleared(old(c.occupants), old(c.occupants)) then !x.isSheltered && x.currentConstruction == null
        else x.isSheltered == old(x.isSheltered) && x.currentConstruction == old(x.currentConstruction)
      ensures !old(Threatened(ns, c.ownerType)) ==> forall x :: x in old(c.occupants) ==>
        x.isSheltered == old(x.isSheltered) && x.currentConstruction == old(x.currentConstruction)
    {
      if Threatened(ns, c.ownerType) {
        var seated := c.occupants;
        ghost var f := Free(grid, ns);
        if Increasing(ns) {
          FreeIncreasing(grid, ns);
        }
        Disperse(ns, c, seated, f);
        EvictAllLeavesSpecialists(seated);
      }
    }

    /**
     * The loop of the alarm: each of the occupants `s` in seat order goes
     * through `remove_occupant` and is put on the first empty cell of `ns`.
     * `f` lists the cells of `ns` that are empty at the start.
     */
    method Disperse(ns: seq<(int, int)>, c: Construction, s: seq<Entity>, ghost f: seq<(int, int)>)
      requires Valid() && c in ConstructionRepr && c.occupants == s
      requires forall p :: p in ns ==> 0 <= p.0 < size && 0 <= p.1 < size
      requires forall p :: p in f <==> p in ns && grid[p.0, p.1] == null
      requires Increasing(ns) ==> Increasing(f)
      modifies grid, c`occupants, s`isSheltered, s`currentConstruction
      ensures Valid() && c.occupants == Evict(s, s)
      ensures forall a, b :: 0 <= a < size && 0 <= b < size && grid[a, b] != old(grid[a, b]) ==>
        (a, b) in ns && old(grid[a, b]) == null && grid[a, b] in s
      ensures Increasing(ns) ==> Spread(f, s, |s|)
      ensures forall x :: x in s && x in Cleared(s, s) ==> !x.isSheltered && x.currentConstruction == null
      ensures forall x :: x in s && x !in Cleared(s, s) ==>
        x.isSheltered == old(x.isSheltered) && x.currentConstruction == old(x.currentConstruction)
    {
      for m := 0 to |s|
        invariant Valid()
        invariant c.occupants == Evict(s, s[..m])
        invariant forall x :: x in s ==>
          if x in Cleared(s, s[..m]) then !x.isSheltered && x.currentConstruction == null
          else x.isSheltered == old(x.isSheltered) && x.currentConstruction == old(x.currentConstruction)
        invariant forall a, b :: 0 <= a < size && 0 <= b < size && grid[a, b] != old(grid[a, b]) ==>
          (a, b) in ns && old(grid[a, b]) == null && grid[a, b] in s
        invariant Increasing(ns) ==> Spread(f, s, m)
      {
        EvictPrefix(s, s, m);
        AlarmRound(ns, c, s[m], s, m, f);
      }
      assert s[..|s|] == s;
    }

    /** Round `m` of the alarm: the `m`-th occupant of the list `s` is unseated and placed. */
    method AlarmRound(ns: seq<(int, int)>, c: Construction, d: Entity, ghost s: seq<Entity>, ghost m: nat, ghost f: seq<(int, int)>)
      requires Valid() && c in ConstructionRepr && forall p :: p in ns ==> 0 <= p.0 < size && 0 <= p.1 < size
      requires m < |s| && s[m] == d && d in EntityRepr
      requires Increasing(ns) ==> && Increasing(f) && (forall p :: p in f ==> p in ns) && Spread(f, s, m)
                                  && forall p :: p in ns && p !in f ==> grid[p.0, p.1] != null
      modifies grid, c`occupants, d`isSheltered, d`currentConstruction
      ensures Valid()
      ensures c.occupants == RemoveStep(old(c.occupants), d)
      ensures Removes(old(c.occupants), d) ==> !d.isSheltered && d.currentConstruction == null
      ensures !Removes(old(c.occupants), d) ==>
        d.isSheltered == old(d.isSheltered) && d.currentConstruction == old(d.currentConstruction)
      ensures forall a, b :: 0 <= a < size && 0 <= b < size && grid[a, b] != old(grid[a, b]) ==>
        (a, b) in ns && old(grid[a, b]) == null && grid[a, b] == d
      ensures Increasing(ns) ==> Spread(f, s, m + 1)
    {
      Unseat(c, d);
      ghost var occ := c.occupants;
      if Increasing(ns) {
        PlaceNext(ns, d, f, s, m);
      } else {
        var k := PlaceFirst(ns, d);
      }
      assert c.occupants == occ;
    }

    /**
     * Round `m` of the alarm: `PlaceFirst` puts `d`, the `m`-th occupant, on
     * the first empty cell of the increasing list `ns`. When the empty cells
     * `f` of `ns` have received the occupants before `d` and every other
     * cell of `ns` is taken, that cell is the `m`-th of `f`.
     */
    method PlaceNext(ns: seq<(int, int)>, d: Entity, ghost f: seq<(int, int)>, ghost s: seq<Entity>, ghost m: nat)
      requires Valid() && d in EntityRepr && forall p :: p in ns ==> 0 <= p.0 < size && 0 <= p.1 < size
      requires Increasing(ns) && Increasing(f) && m < |s| && s[m] == d && forall p :: p in f ==> p in ns
      requires Spread(f, s, m) && forall p :: p in ns && p !in f ==> grid[p.0, p.1] != null
      modifies grid
      ensures Valid() && Spread(f, s, m + 1)
      ensures forall a, b :: 0 <= a < size && 0 <= b < size && grid[a, b] != old(grid[a, b]) ==>
        (a, b) in ns && old(grid[a, b]) == null && grid[a, b] == d
    {
      var k := PlaceFirst(ns, d);
      if m < |f| {
        // The first empty cell of `ns` is the next cell of `f`.
        var p := f[m];
        assert p in ns;
        var t :| 0 <= t < |ns| && ns[t] == p;
        assert t >= k;
        var q := ns[k];
        assert q in f;
        var n :| 0 <= n < |f| && f[n] == q;
        assert n >= m;
        assert n <= m;
      } else {
        assert forall q :: q in ns ==> q in f || grid[q.0, q.1] != null;
        assert k == |ns|;
      }
    }

    /** The cells of `f` hold the first `m` organisms of `s`, one each, and the rest of `f` is still empty. */
    ghost predicate Spread(f: seq<(int, int)>, s: seq<Entity>, m: int)
      requires Dims() && forall p :: p in f ==> 0 <= p.0 < size && 0 <= p.1 < size
      reads this`grid, grid
    {
      forall k :: 0 <= k < |f| ==> grid[f[k].0, f[k].1] == if k < m && k < |s| then s[k] else null
    }

    /**
     * The build step for cell `(i, j)`, whose neighbour cells are `ns`: an
     * organism able to build, with at least three neighbour cells empty in
     * both the organism and the shelter layer, builds a shelter on its own
     * cell and takes its first seat, and the shelter replaces whatever the
     * shelter layer held there. The builder stays in the organism layer.
     * With `alarm` (the first of the two build passes) the new shelter then
     * answers enemies around it.
     */
    method BuildAt(i: int, j: int, ns: seq<(int, int)>, alarm: bool) returns (built: Construction?)
      requires Valid() && InGrid(size, (i, j))
      requires forall p :: p in ns <==> IsNeighbor(size, i, j, p)
      requires forall p :: p in ns ==> 0 <= p.0 < size && 0 <= p.1 < size
      modifies grid, constructions, this`ConstructionRepr
      modifies EntityRepr`inventory, EntityRepr`isSheltered, EntityRepr`currentConstruction
      ensures Valid()
      ensures old(ConstructionRepr) <= ConstructionRepr && fresh(ConstructionRepr - old(ConstructionRepr))
      ensures built != null <==>
        old(grid[i, j]) != null && old(grid[i, j].CanBuild()) && |old(Open(grid, constructions, ns))| >= 3
      ensures built != null ==> && fresh(built) && constructions[i, j] == built && Founded(i, j)
                                && built.ownerType == old(grid[i, j]).kind
      ensures built != null ==> var e := old(grid[i, j]);
        && e.inventory[Ore] == old(e.inventory[Ore]) - 1 && e.inventory[Misc] == old(e.inventory[Misc]) - 2
        && e.isSheltered && e.currentConstruction == built && built.occupants == [e]
      ensures forall x :: x in EntityRepr && x != old(grid[i, j]) ==> x.inventory == old(x.inventory)
      ensures forall x :: x in EntityRepr && (built == null || x != old(grid[i, j])) ==>
        x.isSheltered == old(x.isSheltered) && x.currentConstruction == old(x.currentConstruction)
      ensures forall a, b :: 0 <= a < size && 0 <= b < size && (built == null || (a, b) != (i, j)) ==>
        constructions[a, b] == old(constructions[a, b])
      ensures forall a, b :: 0 <= a < size && 0 <= b < size && grid[a, b] != old(grid[a, b]) ==>
        alarm && old(grid[a, b]) == null
    {
      var e := grid[i, j];
      built := null;
      if e != null && e.CanBuild() {
        var open := Open(grid, constructions, ns);
        if |open| >= 3 {
          built := Raise(i, j, ns, e, alarm);
        }
      }
    }

    /**
     * The builder `e` on cell `(i, j)` founds its shelter and, with `alarm`,
     * the shelter answers enemies on `ns`. The builder, seated alone, stays
     * seated whatever the alarm finds.
     */
    method Raise(i: int, j: int, ns: seq<(int, int)>, e: Entity, alarm: bool) returns (c: Construction)
      requires Valid() && InGrid(size, (i, j)) && grid[i, j] == e && e.CanBuild()
      requires forall p :: p in ns ==> 0 <= p.0 < size && 0 <= p.1 < size
      modifies grid, constructions, this`ConstructionRepr, e`inventory, e`isSheltered, e`currentConstruction
      ensures Valid()
      ensures fresh(c) && ConstructionRepr == old(ConstructionRepr) + {c}
      ensures constructions[i, j] == c && Founded(i, j) && c.ownerType == e.kind
      ensures e.inventory[Ore] == old(e.inventory[Ore]) - 1 && e.inventory[Misc] == old(e.inventory[Misc]) - 2
      ensures e.isSheltered && e.currentConstruction == c && c.occupants == [e]
      ensures forall a, b :: 0 <= a < size && 0 <= b < size && (a, b) != (i, j) ==>
        constructions[a, b] == old(constructions[a, b])
      ensures forall a, b :: 0 <= a < size && 0 <= b < size && grid[a, b] != old(grid[a, b]) ==>
        alarm && old(grid[a, b]) == null
      ensures !(alarm && old(Threatened(ns, e.kind))) ==>
        forall a, b :: 0 <= a < size && 0 <= b < size ==> grid[a, b] == old(grid[a, b])
      ensures alarm && old(Threatened(ns, e.kind)) && Increasing(ns) ==>
        var f := old(Free(grid, ns));
        forall k :: 0 <= k < |f| ==> grid[f[k].0, f[k].1] == if k == 0 then e else null
    {
      c := Found(i, j, e);
      if alarm {
        LoneBuilderStays(e);
        Alarm(ns, c);
      }
    }

    /** The builder `e` on cell `(i, j)` builds a shelter there, which enters the shelter layer. */
    method Found(i: int, j: int, e: Entity) returns (c: Construction)
      requires Valid() && InGrid(size, (i, j)) && grid[i, j] == e && e.CanBuild()
      modifies constructions, this`ConstructionRepr, e`inventory, e`isSheltered, e`currentConstruction
      ensures Valid()
      ensures fresh(c) && ConstructionRepr == old(ConstructionRepr) + {c}
      ensures c.ownerType == e.kind && c.position == (i, j) && c.occupants == [e] && c.energy == 100.0
      ensures e.inventory[Ore] == old(e.inventory[Ore]) - 1 && e.inventory[Misc] == old(e.inventory[Misc]) - 2
      ensures e.isSheltered && e.currentConstruction == c
      ensures forall a, b :: 0 <= a < size && 0 <= b < size ==>
        constructions[a, b] == if (a, b) == (i, j) then c else old(constructions[a, b])
    {
      var built := e.BuildConstruction((i, j));
      c := built;
      constructions[i, j] := c;
      ConstructionRepr := ConstructionRepr + {c};
    }

    /** Cell `(a, b)` holds a shelter at its own position, owned by the faction of the organism on that cell. */
    predicate Founded(a: int, b: int)
      requires Dims() && InGrid(size, (a, b))
      reads this`grid, grid, constructions
    {
      && constructions[a, b] != null && constructions[a, b].position == (a, b)
      && grid[a, b] != null && constructions[a, b].ownerType == grid[a, b].kind
    }

    /**
     * One of the two build passes of `update`, over the cells in row-major
     * order. Every shelter it puts in the layer is new, sits at its own cell
     * and belongs to the faction of the organism standing there; the
     * organism layer only gains organisms on empty cells, and only with
     * `alarm`.
     */
    method BuildPass(alarm: bool)
      requires Valid()
      modifies grid, constructions, this`ConstructionRepr
      modifies EntityRepr`inventory, EntityRepr`isSheltered, EntityRepr`currentConstruction
      ensures Valid()
      ensures old(ConstructionRepr) <= ConstructionRepr && fresh(ConstructionRepr - old(ConstructionRepr))
      ensures forall a, b :: 0 <= a < size && 0 <= b < size ==>
        constructions[a, b] == old(constructions[a, b]) || (fresh(constructions[a, b]) && Founded(a, b))
      ensures forall a, b :: 0 <= a < size && 0 <= b < size && grid[a, b] != old(grid[a, b]) ==>
        alarm && old(grid[a, b]) == null
    {
      for i := 0 to size
        invariant Valid()
        invariant old(ConstructionRepr) <= ConstructionRepr && fresh(ConstructionRepr - old(ConstructionRepr))
        invariant forall a, b :: 0 <= a < size && 0 <= b < size ==>
          constructions[a, b] == old(constructions[a, b]) || (fresh(constructions[a, b]) && Founded(a, b))
        invariant forall a, b :: 0 <= a < size && 0 <= b < size && grid[a, b] != old(grid[a, b]) ==>
          alarm && old(grid[a, b]) == null
      {
        BuildRow(i, alarm);
      }
    }

    /** Row `i` of a build pass. */
    method BuildRow(i: int, alarm: bool)
      requires Valid() && 0 <= i < size
      modifies grid, constructions, this`ConstructionRepr
      modifies EntityRepr`inventory, EntityRepr`isSheltered, EntityRepr`currentConstruction
      ensures Valid()
      ensures old(ConstructionRepr) <= ConstructionRepr && fresh(ConstructionRepr - old(ConstructionRepr))
      ensures forall a, b :: 0 <= a < size && 0 <= b < size ==>
        constructions[a, b] == old(constructions[a, b]) || (fresh(constructions[a, b]) && Founded(a, b))
      ensures forall a, b :: 0 <= a < size && 0 <= b < size && grid[a, b] != old(grid[a, b]) ==>
        alarm && old(grid[a, b]) == null
    {
      for j := 0 to size
        invariant Valid()
        invariant old(ConstructionRepr) <= ConstructionRepr && fresh(ConstructionRepr - old(ConstructionRepr))
        invariant forall a, b :: 0 <= a < size && 0 <= b < size ==>
          constructions[a, b] == old(constructions[a, b]) || (fresh(constructions[a, b]) && Founded(a, b))
        invariant forall a, b :: 0 <= a < size && 0 <= b < size && grid[a, b] != old(grid[a, b]) ==>
          alarm && old(grid[a, b]) == null
      {
        var ns := GetNeighbors(i, j);
        var built := BuildAt(i, j, ns, alarm);
      }
    }

    /** Cell `p` holds a shelter of faction `k` with a free seat. */
    predicate Welcomes(p: (int, int), k: Species)
      requires Dims() && 0 <= p.0 < size && 0 <= p.1 < size
      reads this`grid, constructions, if constructions[p.0, p.1] != null then {constructions[p.0, p.1]} else {}
    {
      constructions[p.0, p.1] != null && constructions[p.0, p.1].ownerType == k && constructions[p.0, p.1].HasRoom()
    }

    /**
     * The shelter step for cell `(i, j)`: an unsheltered organism takes a
     * seat in the first neighbour shelter of its faction with room, in
     * neighbour order, and leaves the organism layer. `host` is that
     * shelter's cell; there is none exactly when no neighbour shelter of its
     * faction has room.
     */
    method EnterAt(i: int, j: int) returns (host: Option<(int, int)>)
      requires Valid() && InGrid(size, (i, j))
      modifies grid, ConstructionRepr`occupants, EntityRepr`isSheltered, EntityRepr`currentConstruction
      ensures Valid()
      ensures old(grid[i, j]) == null || old(grid[i, j].isSheltered) ==> host.None?
      ensures old(grid[i, j]) != null && !old(grid[i, j].isSheltered) ==>
        (host.None? <==> forall p :: IsNeighbor(size, i, j, p) ==> !old(Welcomes(p, grid[i, j].kind)))
      ensures host.Some? ==>
        var p, e := host.value, old(grid[i, j]);
        && IsNeighbor(size, i, j, p) && old(Welcomes(p, e.kind))
        && (forall q :: IsNeighbor(size, i, j, q) && Before(q, p) ==> !old(Welcomes(q, e.kind)))
        && constructions[p.0, p.1].occupants == old(constructions[p.0, p.1].occupants) + [e]
        && e.isSheltered && e.currentConstruction == constructions[p.0, p.1] && grid[i, j] == null
      ensures forall a, b :: 0 <= a < size && 0 <= b < size && (host.None? || (a, b) != (i, j)) ==>
        grid[a, b] == old(grid[a, b])
      ensures forall c :: c in ConstructionRepr && (host.None? || c != constructions[host.value.0, host.value.1]) ==>
        c.occupants == old(c.occupants)
      ensures forall x :: x in EntityRepr && (host.None? || x != old(grid[i, j])) ==>
        x.isSheltered == old(x.isSheltered) && x.currentConstruction == old(x.currentConstruction)
    {
      host := None;
      var e := grid[i, j];
      if e != null && !e.isSheltered {
        host := Seek(i, j, e);
        if host.Some? {
          grid[i, j] := null;
        }
      }
    }

    /**
     * The neighbour loop of the shelter step: `e` tries the neighbour
     * shelters of its faction in order and stops at the first that seats it.
     */
    method Seek(i: int, j: int, e: Entity) returns (host: Option<(int, int)>)
      requires Valid() && InGrid(size, (i, j)) && grid[i, j] == e && !e.isSheltered
      modifies ConstructionRepr`occupants, e`isSheltered, e`currentConstruction
      ensures Valid()
      ensures host.None? <==> forall p :: IsNeighbor(size, i, j, p) ==> !old(Welcomes(p, e.kind))
      ensures host.Some? ==>
        var p := host.value;
        && IsNeighbor(size, i, j, p) && old(Welcomes(p, e.kind))
        && (forall q :: IsNeighbor(size, i, j, q) && Before(q, p) ==> !old(Welcomes(q, e.kind)))
        && constructions[p.0, p.1].occupants == old(constructions[p.0, p.1].occupants) + [e]
        && e.isSheltered && e.currentConstruction == constructions[p.0, p.1]
      ensures forall c :: c in ConstructionRepr && (host.None? || c != constructions[host.value.0, host.value.1]) ==>
        c.occupants == old(c.occupants)
      ensures host.None? ==> !e.isSheltered && e.currentConstruction == old(e.currentConstruction)
    {
      host := None;
      var ns := GetNeighbors(i, j);
      var kind := e.kind;
      for m := 0 to |ns|
        invariant forall q :: q in ns[..m] ==> q in ns && !old(Welcomes(q, kind))
        invariant forall c :: c in ConstructionRepr ==> c.occupants == old(c.occupants)
        invariant !e.isSheltered && e.currentConstruction == old(e.currentConstruction)
      {
        var (x, y) := ns[m];
        assert ns[m] in ns;
        var c := constructions[x, y];
        if c != null && c.ownerType == e.kind {
          var ok := Seat(c, e);
          if ok {
            host := Some((x, y));
            forall q | IsNeighbor(size, i, j, q) && Before(q, ns[m]) ensures q in ns[..m] {
              var k :| 0 <= k < |ns| && ns[k] == q;
              assert k < m;
            }
            return;
          }
        }
        assert ns[..m + 1] == ns[..m] + [ns[m]];
      }
      assert ns[..|ns|] == ns;
    }

    /** The shelter pass of `update`: every cell in row-major order, as `EnterAt` states. */
    method ShelterPass()
      requires Valid()
      modifies grid, ConstructionRepr`occupants, EntityRepr`isSheltered, EntityRepr`currentConstruction
      ensures Valid()
      ensures forall a, b :: 0 <= a < size && 0 <= b < size ==> grid[a, b] == old(grid[a, b]) || grid[a, b] == null
    {
      for i := 0 to size
        invariant Valid()
        invariant forall a, b :: 0 <= a < size && 0 <= b < size ==> grid[a, b] == old(grid[a, b]) || grid[a, b] == null
      {
        for j := 0 to size
          invariant Valid()
          invariant forall a, b :: 0 <= a < size && 0 <= b < size ==> grid[a, b] == old(grid[a, b]) || grid[a, b] == null
        {
          var host := EnterAt(i, j);
        }
      }
    }

    /** The organism on cell `(i, j)` is a miner holding some ore or misc. */
    predicate Carrier(i: int, j: int)
      requires Dims() && InGrid(size, (i, j))
      reads this`grid, grid, if grid[i, j] != null then {grid[i, j]} else {}
    {
      grid[i, j] != null && grid[i, j].role == Miner && (grid[i, j].inventory[Ore] > 0 || grid[i, j].inventory[Misc] > 0)
    }

    /** Cell `p` holds a builder of faction `k`. */
    predicate BuilderAt(p: (int, int), k: Species)
      requires Dims() && 0 <= p.0 < size && 0 <= p.1 < size
      reads this`grid, grid
    {
      grid[p.0, p.1] != null && grid[p.0, p.1].role == Builder && grid[p.0, p.1].kind == k
    }

    /**
     * The delivery step for cell `(i, j)`: a miner holding ore or misc hands
     * its whole stock to the first builder of its faction among its
     * neighbours, in neighbour order. `to` is that builder's cell; there is
     * none exactly when the organism is no such miner or has no such
     * neighbour, and then no stock changes. A delivery conserves each stock.
     */
    method DeliverAt(i: int, j: int) returns (to: Option<(int, int)>)
      requires Valid() && InGrid(size, (i, j))
      modifies EntityRepr`inventory
      ensures Valid()
      ensures to.None? <==> !old(Carrier(i, j)) || forall p :: IsNeighbor(size, i, j, p) ==> !BuilderAt(p, grid[i, j].kind)
      ensures to.None? ==> forall x :: x in EntityRepr ==> x.inventory == old(x.inventory)
      ensures to.Some? ==>
        var p, e := to.value, grid[i, j];
        && IsNeighbor(size, i, j, p) && BuilderAt(p, e.kind)
        && (forall q :: IsNeighbor(size, i, j, q) && Before(q, p) ==> !BuilderAt(q, e.kind))
        && e.inventory[Ore] == Entity.Drained(old(e.inventory[Ore])) && e.inventory[Misc] == Entity.Drained(old(e.inventory[Misc]))
        && e.inventory[Ore] + grid[p.0, p.1].inventory[Ore] == old(e.inventory[Ore] + grid[p.0, p.1].inventory[Ore])
        && e.inventory[Misc] + grid[p.0, p.1].inventory[Misc] == old(e.inventory[Misc] + grid[p.0, p.1].inventory[Misc])
      ensures to.Some? ==> forall x :: x in EntityRepr && x != grid[i, j] && x != grid[to.value.0, to.value.1] ==>
        x.inventory == old(x.inventory)
    {
      to := None;
      if !Carrier(i, j) {
        return;
      }
      var e := grid[i, j];
      var ns := GetNeighbors(i, j);
      for m := 0 to |ns|
        invariant forall q :: q in ns[..m] ==> q in ns && !BuilderAt(q, e.kind)
        invariant forall x :: x in EntityRepr ==> x.inventory == old(x.inventory)
      {
        var (x, y) := ns[m];
        assert ns[m] in ns;
        var neighbor := grid[x, y];
        if neighbor != null && neighbor.role == Builder && neighbor.kind == e.kind {
          var ok := e.TransferToBuilder(neighbor);
          to := Some((x, y));
          forall q | IsNeighbor(size, i, j, q) && Before(q, ns[m]) ensures q in ns[..m] {
            var k :| 0 <= k < |ns| && ns[k] == q;
            assert k < m;
          }
          return;
        }
        assert ns[..m + 1] == ns[..m] + [ns[m]];
      }
      assert ns[..|ns|] == ns;
    }

    /** The delivery pass of `update`: every cell in row-major order, as `DeliverAt` states. */
    method DeliverPass()
      requires Valid()
      modifies EntityRepr`inventory
      ensures Valid()
    {
      for i := 0 to size
        invariant Valid()
      {
        for j := 0 to size
          invariant Valid()
        {
          var to := DeliverAt(i, j);
        }
      }
    }

    /**
     * A defender placed outside during the first phase goes back in: when it
     * is not sheltered and its shelter still has health, the first cell
     * around the shelter's position, in neighbour order, that holds the
     * defender is the one it leaves, provided `add_occupant` finds a seat.
     * `at` is the cell it left.
     */
    method ReturnOne(d: Entity, c: Construction) returns (at: Option<(int, int)>)
      requires Valid() && d in EntityRepr && c in ConstructionRepr
      modifies grid, c`occupants, d`isSheltered, d`currentConstruction
      ensures Valid()
      ensures at.Some? <==>
        && !old(d.isSheltered) && c.energy > 0.0 && old(c.HasRoom())
        && exists p :: IsNeighbor(size, c.position.0, c.position.1, p) && old(grid[p.0, p.1]) == d
      ensures at.Some? ==>
        && IsNeighbor(size, c.position.0, c.position.1, at.value) && old(grid[at.value.0, at.value.1]) == d
        && (forall q :: IsNeighbor(size, c.position.0, c.position.1, q) && Before(q, at.value) ==> old(grid[q.0, q.1]) != d)
        && c.occupants == old(c.occupants) + [d] && d.isSheltered && d.currentConstruction == c
      ensures at.None? ==>
        c.occupants == old(c.occupants) && d.isSheltered == old(d.isSheltered) && d.currentConstruction == old(d.currentConstruction)
      ensures forall a, b :: 0 <= a < size && 0 <= b < size ==>
        grid[a, b] == if at == Some((a, b)) then null else old(grid[a, b])
    {
      at := None;
      if d.isSheltered || c.energy <= 0.0 {
        return;
      }
      var (cx, cy) := c.position;
      var ns := GetNeighbors(cx, cy);
      for m := 0 to |ns|
        invariant forall q :: q in ns[..m] ==> q in ns && grid[q.0, q.1] != d
      {
        var (x, y) := ns[m];
        assert ns[m] in ns;
        if grid[x, y] == d {
          forall q | IsNeighbor(size, cx, cy, q) && Before(q, ns[m]) ensures q in ns[..m] {
            var k :| 0 <= k < |ns| && ns[k] == q;
            assert k < m;
          }
          var ok := Seat(c, d);
          if ok {
            grid[x, y] := null;
            at := Some((x, y));
          }
          return;
        }
        assert ns[..m + 1] == ns[..m] + [ns[m]];
      }
      assert ns[..|ns|] == ns;
    }

    /** `ReturnOne` for each placed defender in turn. */
    method ReturnPass(defs: seq<(Entity, Construction)>)
      requires Valid() && forall d :: d in defs ==> d.0 in EntityRepr && d.1 in ConstructionRepr
      modifies grid, ConstructionRepr`occupants, EntityRepr`isSheltered, EntityRepr`currentConstruction
      ensures Valid()
      ensures forall a, b :: 0 <= a < size && 0 <= b < size ==> grid[a, b] == old(grid[a, b]) || grid[a, b] == null
    {
      for m := 0 to |defs|
        invariant Valid()
        invariant forall a, b :: 0 <= a < size && 0 <= b < size ==> grid[a, b] == old(grid[a, b]) || grid[a, b] == null
      {
        assert defs[m] in defs;
        var at := ReturnOne(defs[m].0, defs[m].1);
      }
    }

    /** The organism on `(a, b)` is one `update` enlists for faction `k`: of that faction, normal and not sheltered. */
    ghost predicate Eligible(a: int, b: int, k: Species)
      requires Dims() && GridKnown() && InGrid(size, (a, b))
      reads this`grid, this`EntityRepr, grid, EntityRepr`isSheltered
    {
      grid[a, b] != null && grid[a, b].kind == k && grid[a, b].role == Normal && !grid[a, b].isSheltered
    }

    /** Faction `k`'s recruits in cells `(a, 0)` to `(a, b - 1)`, in order. */
    ghost function RecruitRow(a: int, b: int, k: Species): (r: seq<Entity>)
      requires Dims() && GridKnown() && 0 <= a < size && 0 <= b <= size
      reads this`grid, this`EntityRepr, grid, EntityRepr`isSheltered
    {
      if b == 0 then [] else RecruitRow(a, b - 1, k) + (if Eligible(a, b - 1, k) then [grid[a, b - 1]] else [])
    }

    /** Faction `k`'s recruits in rows `0` to `a - 1`, in row-major order. */
    ghost function Recruits(a: int, k: Species): (r: seq<Entity>)
      requires Dims() && GridKnown() && 0 <= a <= size
      reads this`grid, this`EntityRepr, grid, EntityRepr`isSheltered
    {
      if a == 0 then [] else Recruits(a - 1, k) + RecruitRow(a - 1, size, k)
    }

    /** Every recruit of a row is an organism of the world, of faction `k`, normal and not sheltered. */
    lemma {:induction false} RecruitRowEligible(a: int, b: int, k: Species)
      requires Dims() && GridKnown() && 0 <= a < size && 0 <= b <= size
      ensures forall e :: e in RecruitRow(a, b, k) ==> e in EntityRepr && e.kind == k && e.role == Normal && !e.isSheltered
    {
      if b > 0 {
        RecruitRowEligible(a, b - 1, k);
      }
    }

    /** Every recruit of the scan is an organism of the world, of faction `k`, normal and not sheltered. */
    lemma {:induction false} RecruitsEligible(a: int, k: Species)
      requires Dims() && GridKnown() && 0 <= a <= size
      ensures forall e :: e in Recruits(a, k) ==> e in EntityRepr && e.kind == k && e.role == Normal && !e.isSheltered
    {
      if a > 0 {
        RecruitsEligible(a - 1, k);
        RecruitRowEligible(a - 1, size, k);
        var above, row := Recruits(a - 1, k), RecruitRow(a - 1, size, k);
        forall e | e in above + row ensures e in above || e in row {
        }
      }
    }

    /**
     * The recruiting scan of `update` for faction `k`: the eligible
     * organisms in row-major order, each recording the cell it was found on
     * as its position.
     */
    method Enlist(k: Species) returns (recruits: seq<Entity>)
      requires Valid()
      modifies EntityRepr`position
      ensures Valid()
      ensures recruits == Recruits(size, k) && Posted(recruits)
    {
      recruits := [];
      for i := 0 to size
        invariant Valid() && recruits == Recruits(i, k) && Posted(recruits)
      {
        var row := EnlistRow(i, k, recruits);
        recruits := recruits + row;
      }
    }

    /** Every organism of `s` records, as its position, a cell of the grid that holds it. */
    ghost predicate Posted(s: seq<Entity>)
      requires Dims()
      reads this`grid, grid, s`position
    {
      forall e :: e in s ==> e.position.Some? && InGrid(size, e.position.value) && grid[e.position.value.0, e.position.value.1] == e
    }

    /** Row `i` of the recruiting scan, after the recruits `prior` of the rows above; nobody else's position changes. */
    method EnlistRow(i: int, k: Species, prior: seq<Entity>) returns (row: seq<Entity>)
      requires Valid() && 0 <= i < size && Posted(prior) && forall e :: e in prior ==> e in EntityRepr
      modifies EntityRepr`position
      ensures Valid()
      ensures row == RecruitRow(i, size, k) && Posted(prior + row)
      ensures forall x :: x in EntityRepr && x !in row ==> x.position == old(x.position)
    {
      row := [];
      for j := 0 to size
        invariant Known() && row == RecruitRow(i, j, k) && Posted(prior + row)
        invariant forall x :: x in EntityRepr && x !in row ==> x.position == old(x.position)
      {
        var e := grid[i, j];
        if e != null && e.kind == k && e.role == Normal && !e.isSheltered {
          row := row + [e];
          e.position := Some((i, j));
        }
      }
      forall t, a, e | t in armies && a in armies[t] && e in a ensures e.position.Some? && InGrid(size, e.position.value) {
        if e !in row {
          assert old(e.position.Some? && InGrid(size, e.position.value));
        }
      }
    }

    /**
     * `form_army`: the normal organisms of `es` become a new band of the
     * first one's faction, provided there are at least eight of them.
     */
    method FormArmy(es: seq<Entity>)
      requires Valid() && forall e :: e in es ==> e in EntityRepr && e.position.Some? && InGrid(size, e.position.value)
      modifies this`armies
      ensures Valid()
      ensures var w := Normals(es);
              armies == if |w| >= 8 then old(armies)[w[0].kind := old(armies)[w[0].kind] + [w]] else old(armies)
    {
      var warriors := Normals(es);
      if |warriors| >= 8 {
        var team := warriors[0].kind;
        armies := armies[team := armies[team] + [warriors]];
      }
    }

    /**
     * The army-forming step of `update`: for each faction in turn, when it
     * has at least ten recruits the first ten form a new band; since they
     * are all normal, `form_army` keeps all ten.
     */
    method FormArmies()
      requires Valid()
      modifies EntityRepr`position, this`armies
      ensures Valid() && EntityRepr == old(EntityRepr) && forall e :: e in EntityRepr ==> e.energy == old(e.energy)
      ensures armies[Species1] == old(Mustered(Species1)) && armies[Species2] == old(Mustered(Species2))
      ensures var r := Recruits(size, Species1);
              armies[Species1] == old(armies[Species1]) + if |r| >= 10 then [r[..10]] else []
      ensures var r := Recruits(size, Species2);
              armies[Species2] == old(armies[Species2]) + if |r| >= 10 then [r[..10]] else []
    {
      FormTeam(Species1);
      FormTeam(Species2);
    }

    /** Faction `k` recruits, and its first ten recruits form a new band when there are at least ten. */
    method FormTeam(k: Species)
      requires Valid()
      modifies EntityRepr`position, this`armies
      ensures Valid()
      ensures var r := Recruits(size, k);
              armies == old(armies)[k := old(armies[k]) + if |r| >= 10 then [r[..10]] else []]
    {
      var r := Enlist(k);
      RecruitsEligible(size, k);
      if |r| >= 10 {
        Band(r[..10], k);
      } else {
        assert old(armies[k]) + [] == old(armies[k]);
        assert old(armies)[k := old(armies[k])] == old(armies);
      }
    }

    /** Ten recruits of faction `k`, all normal, become one new band of `k`. */
    method Band(es: seq<Entity>, k: Species)
      requires Valid() && |es| == 10
      requires forall e :: e in es ==> e in EntityRepr && e.kind == k && e.role == Normal
      requires forall e :: e in es ==> e.position.Some? && InGrid(size, e.position.value)
      modifies this`armies
      ensures Valid()
      ensures armies == old(armies)[k := old(armies)[k] + [es]]
    {
      NormalsOfNormals(es);
      assert es[0] in es;
      FormArmy(es);
    }

    /** Cell `(a, b)` holds an organism that is not of faction `team`. */
    predicate Hostile(a: int, b: int, team: Species)
      requires Dims() && InGrid(size, (a, b))
      reads this`grid, grid
    {
      grid[a, b] != null && grid[a, b].kind != team
    }

    /**
     * The enemy `update_armies` marches on: among the cells holding an
     * organism of another faction, the one nearest to `from` in Manhattan
     * distance, the first in row-major order among equally near ones, as
     * `min` picks it. `None` exactly when there is no enemy.
     */
    method NearestEnemy(from: (int, int), team: Species) returns (r: Option<(int, int)>)
      requires Dims()
      ensures r.None? <==> forall a, b :: 0 <= a < size && 0 <= b < size ==> !Hostile(a, b, team)
      ensures r.Some? ==> InGrid(size, r.value) && Hostile(r.value.0, r.value.1, team)
      ensures r.Some? ==> forall a, b :: 0 <= a < size && 0 <= b < size && Hostile(a, b, team) ==>
        var d := Manhattan(from.0, from.1, r.value.0, r.value.1);
        d < Manhattan(from.0, from.1, a, b) || (d == Manhattan(from.0, from.1, a, b) && !Before((a, b), r.value))
    {
      r := None;
      var best := 0;
      for i := 0 to size
        invariant r.Some? ==> && InGrid(size, r.value) && Hostile(r.value.0, r.value.1, team) && r.value.0 < i
                              && best == Manhattan(from.0, from.1, r.value.0, r.value.1)
        invariant forall a, b :: 0 <= a < i && 0 <= b < size && Hostile(a, b, team) ==>
          r.Some? && (best < Manhattan(from.0, from.1, a, b) ||
                      (best == Manhattan(from.0, from.1, a, b) && !Before((a, b), r.value)))
      {
        for j := 0 to size
          invariant r.Some? ==> && InGrid(size, r.value) && Hostile(r.value.0, r.value.1, team)
                                && Before(r.value, (i, j))
                                && best == Manhattan(from.0, from.1, r.value.0, r.value.1)
          invariant forall a, b :: (0 <= a < i || (a == i && 0 <= b < j)) && 0 <= b < size && Hostile(a, b, team) ==>
            r.Some? && (best < Manhattan(from.0, from.1, a, b) ||
                        (best == Manhattan(from.0, from.1, a, b) && !Before((a, b), r.value)))
        {
          if grid[i, j] != null && grid[i, j].kind != team {
            var d := Manhattan(from.0, from.1, i, j);
            if r.None? || d < best {
              r := Some((i, j));
              best := d;
            }
          }
        }
      }
    }

    /**
     * One soldier of a marching band steps towards `target`: when
     * `move_towards` moves it, the cell its recorded position names is
     * cleared, whatever stands there now, and it appears on the new cell,
     * which becomes its position. A soldier without a position stays put.
     */
    method StepSoldier(s: Entity, target: (int, int))
      requires Valid() && s in EntityRepr && (s.position.Some? ==> InGrid(size, s.position.value))
      modifies grid, s`position
      ensures Valid()
      ensures old(s.position).None? ==> s.position == old(s.position) && forall a, b :: 0 <= a < size && 0 <= b < size ==> grid[a, b] == old(grid[a, b])
      ensures old(s.position).Some? ==>
        var p := old(s.position).value;
        var q := old(MoveTowards(p.0, p.1, target.0, target.1));
        && s.position == Some(q)
        && forall a, b :: 0 <= a < size && 0 <= b < size ==>
             grid[a, b] == if q != p && (a, b) == q then s else if q != p && (a, b) == p then null else old(grid[a, b])
    {
      if s.position.None? {
        return;
      }
      var p := s.position.value;
      var q := MoveTowards(p.0, p.1, target.0, target.1);
      if q != p {
        grid[p.0, p.1] := null;
        grid[q.0, q.1] := s;
        s.position := Some(q);
      }
    }

    /** Every soldier of `band` in turn steps towards `target`. */
    method March(band: seq<Entity>, target: (int, int))
      requires Valid() && forall e :: e in band ==> e in EntityRepr && e.position.Some? && InGrid(size, e.position.value)
      modifies grid, band`position
      ensures Valid()
    {
      for m := 0 to |band|
        invariant Valid()
        invariant forall e :: e in band ==> e.position.Some? && InGrid(size, e.position.value)
      {
        assert band[m] in band;
        StepSoldier(band[m], target);
      }
    }

    /**
     * `update_armies` for faction `team`: every band loses its dead, a band
     * with fewer than four soldiers left is dissolved, and each band kept
     * marches on the nearest enemy of its first soldier's position, if any.
     * The source's `list.remove(army)` removes the first band equal to this
     * one; every band kept before it has at least four soldiers and this one
     * fewer, so that first equal band is this band itself. Marching changes
     * positions and the organism layer but no energy, so the model thins
     * out all bands first and then marches the kept ones in order, which
     * gives the same bands and the same marches as the source's single loop.
     */
    method UpdateTeam(team: Species)
      requires Valid()
      modifies this`armies, grid, EntityRepr`position
      ensures Valid()
      ensures armies == old(armies[team := Survivors(armies[team])])
      ensures forall b :: b in armies[team] ==> |b| >= 4 && forall e :: e in b ==> e.energy > 0.0
      ensures EntityRepr == old(EntityRepr) && forall e :: e in EntityRepr ==> e.energy == old(e.energy)
    {
      var kept := Survivors(armies[team]);
      SurvivorsLive(armies[team]);
      Regroup(team, kept);
      Campaigns(team, kept);
    }

    /** The kept bands `kept` of faction `team` march in order, each on the enemy nearest its first soldier. */
    method Campaigns(team: Species, kept: seq<seq<Entity>>)
      requires Valid() && armies[team] == kept
      modifies grid, EntityRepr`position
      ensures Valid()
    {
      for m := 0 to |kept|
        invariant Valid() && grid == old(grid)
      {
        assert kept[m] in armies[team];
        assert forall e :: e in kept[m] ==> e in EntityRepr && e.position.Some? && InGrid(size, e.position.value);
        if |kept[m]| > 0 {
          Campaign(kept[m], team);
        }
      }
    }

    /** Faction `team`'s army list becomes `kept`, the surviving bands of its current list. */
    method Regroup(team: Species, kept: seq<seq<Entity>>)
      requires Valid() && kept == Survivors(armies[team])
      modifies this`armies
      ensures Valid() && armies == old(armies)[team := kept]
    {
      var bands := armies[team];
      SurvivorsLive(bands);
      forall b, e | b in kept && e in b ensures e in EntityRepr && e.position.Some? && InGrid(size, e.position.value) {
        var b' :| b' in bands && e in b';
      }
      armies := armies[team := kept];
    }

    /** A band kept by `update_armies` marches on the enemy nearest to its first soldier, if there is one. */
    method Campaign(band: seq<Entity>, team: Species)
      requires Valid() && |band| > 0
      requires forall e :: e in band ==> e in EntityRepr && e.position.Some? && InGrid(size, e.position.value)
      modifies grid, band`position
      ensures Valid()
    {
      assert band[0] in band;
      var target := NearestEnemy(band[0].position.value, team);
      if target.Some? {
        March(band, target.value);
      }
    }

    /** `update_armies`: both factions in turn. Afterwards every band has at least four living soldiers. */
    method UpdateArmies()
      requires Valid()
      modifies this`armies, grid, EntityRepr`position
      ensures Valid()
      ensures armies == old(armies[Species1 := Survivors(armies[Species1])][Species2 := Survivors(armies[Species2])])
      ensures forall k, b :: k in armies && b in armies[k] ==> |b| >= 4 && forall e :: e in b ==> e.energy > 0.0
    {
      ghost var a0, s2 := armies, Survivors(armies[Species2]);
      UpdateTeam(Species1);
      assert Members(a0[Species2]) <= EntityRepr;
      assert Survivors(a0[Species2]) == s2;
      ghost var kept1 := armies[Species1];
      label Mid:
      UpdateTeam(Species2);
      forall b, e | b in kept1 && e in b ensures e.energy > 0.0 {
        assert old@Mid(e.energy) > 0.0 && e in EntityRepr;
      }
      forall k, b | k in armies && b in armies[k] ensures |b| >= 4 && forall e :: e in b ==> e.energy > 0.0 {
        if k == Species1 {} else {}
      }
    }

    /**
     * `update`: one tick of the simulation. Organisms act on a fresh
     * organism layer which then replaces the old one, deposits regrow,
     * shelters are built and entered, ore is delivered, defenders return,
     * the counters are refreshed and the armies are formed and marched.
     * No ore ever appears, so the ore lying in the deposit layer never
     * grows; afterwards every band has at least four living soldiers.
     */
    method Update(rng: Rng)
      requires Valid() && Deposits()
      modifies this`grid, resources, constructions, rng`next, this`EntityRepr, this`ConstructionRepr
      modifies ConstructionRepr`energy, ConstructionRepr`occupants
      modifies EntityRepr`energy, EntityRepr`strength, EntityRepr`inventory, EntityRepr`isSheltered
      modifies EntityRepr`currentConstruction, EntityRepr`lastReproduction, EntityRepr`position
      modifies this`species1Count, this`species2Count, this`construction1Count, this`construction2Count
      modifies this`resources1, this`resources2, this`armies
      ensures Valid() && Deposits()
      ensures OreLying() <= old(OreLying())
      ensures forall k, b :: k in armies && b in armies[k] ==> |b| >= 4 && forall e :: e in b ==> e.energy > 0.0
    {
      var defs := Turn(rng);
      Finish(defs);
    }

    /**
     * The rest of `update`, on the new organism layer: the shelter part,
     * the counters, then the armies.
     */
    method Finish(defs: seq<(Entity, Construction)>)
      requires Valid() && forall d :: d in defs ==> d.0 in EntityRepr && d.1 in ConstructionRepr
      modifies grid, constructions, this`ConstructionRepr, ConstructionRepr`occupants
      modifies EntityRepr`inventory, EntityRepr`isSheltered, EntityRepr`currentConstruction, EntityRepr`position
      modifies this`species1Count, this`species2Count, this`construction1Count, this`construction2Count
      modifies this`resources1, this`resources2, this`armies
      ensures Valid()
      ensures forall k, b :: k in armies && b in armies[k] ==> |b| >= 4 && forall e :: e in b ==> e.energy > 0.0
    {
      Settle(defs);
      Warfare();
    }

    /**
     * Faction `k`'s bands once the recruiting scan of `update` has run: its
     * bands so far, then the first ten recruits as a new band if it has ten.
     */
    ghost function Mustered(k: Species): (r: seq<seq<Entity>>)
      requires Valid()
      reads this`grid, this`EntityRepr, this`ConstructionRepr, this`armies
      reads grid, constructions, ConstructionRepr`occupants, EntityRepr`position, EntityRepr`isSheltered
    {
      var recruits := Recruits(size, k);
      armies[k] + if |recruits| >= 10 then [recruits[..10]] else []
    }

    /**
     * The last part of `update`: refresh the counters, form the new bands,
     * then march and thin out all bands. The counters are the census of the
     * layers as they were, and each faction's bands are the survivors of
     * its mustered bands.
     */
    method Warfare()
      requires Valid()
      modifies grid, EntityRepr`position, this`armies
      modifies this`species1Count, this`species2Count, this`construction1Count, this`construction2Count
      modifies this`resources1, this`resources2
      ensures Valid()
      ensures Counters(Species1) == old(OrganismLayer(size, Species1).Plus(ShelterLayer(size, Species1)))
      ensures Counters(Species2) == old(OrganismLayer(size, Species2).Plus(ShelterLayer(size, Species2)))
      ensures armies[Species1] == old(Survivors(Mustered(Species1)))
      ensures armies[Species2] == old(Survivors(Mustered(Species2)))
      ensures forall k, b :: k in armies && b in armies[k] ==> |b| >= 4 && forall e :: e in b ==> e.energy > 0.0
    {
      Recount();
      Mobilize();
    }

    /** `count_entities` inside `update`: the counters change, and nothing the armies are formed from. */
    method Recount()
      requires Valid()
      modifies this`species1Count, this`species2Count, this`construction1Count, this`construction2Count
      modifies this`resources1, this`resources2
      ensures Valid()
      ensures Counters(Species1) == old(OrganismLayer(size, Species1).Plus(ShelterLayer(size, Species1)))
      ensures Counters(Species2) == old(OrganismLayer(size, Species2).Plus(ShelterLayer(size, Species2)))
      ensures Survivors(Mustered(Species1)) == old(Survivors(Mustered(Species1)))
      ensures Survivors(Mustered(Species2)) == old(Survivors(Mustered(Species2)))
    {
      ghost var m1, m2 := Mustered(Species1), Mustered(Species2);
      RecruitsEligible(size, Species1);
      RecruitsEligible(size, Species2);
      assert Members(m1) <= EntityRepr && Members(m2) <= EntityRepr;
      CountEntities();
      assert Valid() && Mustered(Species1) == m1 && Mustered(Species2) == m2;
      assert forall e :: e in Members(m1) + Members(m2) ==> e.energy == old(e.energy);
    }

    /** The army part of `update`: form the new bands, then march and thin out all bands. */
    method Mobilize()
      requires Valid()
      modifies grid, EntityRepr`position, this`armies
      ensures Valid()
      ensures armies[Species1] == old(Survivors(Mustered(Species1)))
      ensures armies[Species2] == old(Survivors(Mustered(Species2)))
      ensures forall k, b :: k in armies && b in armies[k] ==> |b| >= 4 && forall e :: e in b ==> e.energy > 0.0
      ensures Counters(Species1) == old(Counters(Species1)) && Counters(Species2) == old(Counters(Species2))
    {
      ghost var m1, m2 := Mustered(Species1), Mustered(Species2);
      ghost var s1, s2 := Survivors(m1), Survivors(m2);
      ghost var c1, c2 := Counters(Species1), Counters(Species2);
      FormArmies();
      assert Counters(Species1) == c1 && Counters(Species2) == c2;
      assert Members(m1) <= EntityRepr && Members(m2) <= EntityRepr;
      assert Survivors(m1) == s1 && Survivors(m2) == s2;
      UpdateArmies();
      assert Counters(Species1) == c1 && Counters(Species2) == c2;
    }

    /**
     * The first part of `update`: the move and combat phases on a fresh
     * organism layer, which then replaces the old one, and the regrowth of
     * deposits. Returns the defenders to send back to their shelters.
     */
    method Turn(rng: Rng) returns (defs: seq<(Entity, Construction)>)
      requires Valid() && Deposits()
      modifies resources, constructions, rng`next, this`EntityRepr, this`grid
      modifies ConstructionRepr`energy, ConstructionRepr`occupants
      modifies EntityRepr`energy, EntityRepr`strength, EntityRepr`inventory, EntityRepr`isSheltered
      modifies EntityRepr`currentConstruction, EntityRepr`lastReproduction
      ensures Valid() && Deposits() && fresh(grid)
      ensures OreLying() <= old(OreLying())
      ensures old(EntityRepr) <= EntityRepr && fresh(EntityRepr - old(EntityRepr))
      ensures forall d :: d in defs ==> d.0 in EntityRepr && d.1 in ConstructionRepr
    {
      ghost var s0 := Snapshot();
      defs := Act(rng);
      ghost var s1 := Snapshot();
      assert NoNewOre(s0, s1);
      NoNewOreBounds(s0, s1);
      Regrow(rng);
    }

    /** `update_resources` within the tick: it creates no ore, so the ore lying on the map does not grow. */
    method Regrow(rng: Rng)
      requires Valid() && Deposits()
      modifies resources, rng`next
      ensures Valid() && Deposits()
      ensures OreLying() <= old(OreLying())
    {
      ghost var s1 := Snapshot();
      UpdateResources(rng);
      ghost var s2 := Snapshot();
      assert NoNewOre(s1, s2);
      NoNewOreBounds(s1, s2);
    }

    /**
     * The move and combat phases of `update`, acting on a fresh organism
     * layer (`new_grid`) which then replaces the old one. Deposits are only
     * ever consumed.
     */
    method Act(rng: Rng) returns (defs: seq<(Entity, Construction)>)
      requires Valid()
      modifies resources, constructions, rng`next, this`EntityRepr, this`grid
      modifies ConstructionRepr`energy, ConstructionRepr`occupants
      modifies EntityRepr`energy, EntityRepr`strength, EntityRepr`inventory, EntityRepr`isSheltered
      modifies EntityRepr`currentConstruction, EntityRepr`lastReproduction
      ensures Valid() && fresh(grid)
      ensures old(EntityRepr) <= EntityRepr && fresh(EntityRepr - old(EntityRepr))
      ensures forall a, b :: 0 <= a < size && 0 <= b < size ==>
        resources[a, b] == old(resources[a, b]) || resources[a, b] == None
      ensures forall d :: d in defs ==> d.0 in EntityRepr && d.1 in ConstructionRepr
    {
      var g := new Entity?[size, size]((i, j) => null);
      defs := MovePhase(g, rng);
      CombatPhase(g, rng);
      Swap(g);
    }

    /** `self.grid = new_grid`. */
    method Swap(g: array2<Entity?>)
      requires Valid() && Buffer(g)
      modifies this`grid
      ensures Valid() && grid == g
    {
      grid := g;
    }

    /**
     * The shelter part of `update`: build (sending out defenders where an
     * enemy is near), build again, shelter, deliver ore, and return the
     * defenders.
     */
    method Settle(defs: seq<(Entity, Construction)>)
      requires Valid() && forall d :: d in defs ==> d.0 in EntityRepr && d.1 in ConstructionRepr
      modifies grid, constructions, this`ConstructionRepr, ConstructionRepr`occupants
      modifies EntityRepr`inventory, EntityRepr`isSheltered, EntityRepr`currentConstruction
      ensures Valid()
      ensures old(ConstructionRepr) <= ConstructionRepr && fresh(ConstructionRepr - old(ConstructionRepr))
    {
      BuildPass(true);
      BuildPass(false);
      ShelterPass();
      DeliverPass();
      ReturnPass(defs);
    }
  }

  /** `army[:] = [s for s in army if s.energy > 0]`: the soldiers of a band still alive, in band order. */
  function Alive(band: seq<Entity>): (r: seq<Entity>)
    reads band`energy
    ensures forall e :: e in r ==> e in band && e.energy > 0.0
    ensures forall e :: e in band && e.energy > 0.0 ==> e in r
    ensures |r| <= |band|
  {
    if band == [] then [] else (if band[0].energy > 0.0 then [band[0]] else []) + Alive(band[1..])
  }

  /** The soldiers of a list of bands. */
  function Members(bands: seq<seq<Entity>>): (r: set<Entity>)
    ensures forall b, e :: b in bands && e in b ==> e in r
  {
    set b, e | b in bands && e in b :: e
  }

  /**
   * The bands `update_armies` keeps out of `bands`: each band cut down to
   * its living soldiers, dropping the bands with fewer than four left.
   */
  function Survivors(bands: seq<seq<Entity>>): (r: seq<seq<Entity>>)
    reads Members(bands)`energy
    ensures |r| <= |bands|
  {
    if bands == [] then []
    else
      var init := bands[..|bands| - 1];
      var last := bands[|bands| - 1];
      assert last in bands;
      assert Members(init) <= Members(bands) by {
        forall e | e in Members(init) ensures e in Members(bands) {
          var b :| b in init && e in b;
          assert b in bands;
        }
      }
      var alive := Alive(last);
      Survivors(init) + if |alive| >= 4 then [alive] else []
  }

  /** Every band that keeps at least four living soldiers survives, as its living soldiers. */
  lemma {:induction false} SurvivorsKeep(bands: seq<seq<Entity>>)
    ensures forall b :: b in bands && |Alive(b)| >= 4 ==> Alive(b) in Survivors(bands)
    decreases |bands|
  {
    if bands != [] {
      var init := bands[..|bands| - 1];
      var last := bands[|bands| - 1];
      assert bands == init + [last];
      SurvivorsKeep(init);
      assert Survivors(bands) == Survivors(init) + if |Alive(last)| >= 4 then [Alive(last)] else [];
      forall b | b in bands && |Alive(b)| >= 4 ensures Alive(b) in Survivors(bands) {
        if b != last {
          assert b in init;
        }
      }
    }
  }

  /** Every surviving band is the living part of a band of the list, with at least four soldiers. */
  lemma {:induction false} SurvivorsSound(bands: seq<seq<Entity>>)
    ensures forall b :: b in Survivors(bands) ==> exists b' :: b' in bands && b == Alive(b') && |Alive(b')| >= 4
    decreases |bands|
  {
    if bands != [] {
      var init := bands[..|bands| - 1];
      var last := bands[|bands| - 1];
      SurvivorsSound(init);
      assert Survivors(bands) == Survivors(init) + if |Alive(last)| >= 4 then [Alive(last)] else [];
      assert last in bands;
      assert forall b' :: b' in init ==> b' in bands;
    }
  }

  /**
   * What the rest of the engine uses from this: a surviving band has at
   * least four soldiers, all alive, all drawn from the list.
   */
  lemma SurvivorsLive(bands: seq<seq<Entity>>)
    ensures forall b :: b in Survivors(bands) ==> |b| >= 4 && forall e :: e in b ==> e.energy > 0.0
    ensures forall b, e :: b in Survivors(bands) && e in b ==> exists b' :: b' in bands && e in b'
  {
    SurvivorsSound(bands);
  }

  /** Thinning out bands preserves their order: the survivors of two lists of bands, one after the other. */
  lemma {:induction false} SurvivorsAppend(xs: seq<seq<Entity>>, ys: seq<seq<Entity>>)
    ensures Survivors(xs + ys) == Survivors(xs) + Survivors(ys)
    decreases |ys|
  {
    if ys == [] {
      assert xs + ys == xs;
    } else {
      var init := ys[..|ys| - 1];
      assert (xs + ys)[..|xs + ys| - 1] == xs + init;
      assert (xs + ys)[|xs + ys| - 1] == ys[|ys| - 1];
      SurvivorsAppend(xs, init);
    }
  }

  /** The combat rule: `e` defeats `n` when `n` is an organism of the other faction with strictly less power. */
  predicate Beats(e: Entity, n: Entity?)
    reads e, n
  {
    n != null && n.kind != e.kind && e.GetPower() > n.GetPower()
  }

  /**
   * What `reproduce` leaves behind when its draws start at number `t` and the
   * parent had `energy0`: the child of the parent's faction, with 40% of
   * that energy and the parent's strength (one of them times 1.2 on a
   * mutation of that stat), the role and tags its draws select and nothing
   * else; the parent with 60% of its energy and its age as its last birth;
   * and the cursor two or three draws further.
   */
  ghost predicate Offspring(child: Entity, parent: Entity, energy0: real, rng: Rng, t: nat)
    reads child, parent, rng
  {
    var mutated := rng.reals(t + 1) < 0.15;
    var tag := MutationAt(rng.BelowAt(t + 2, 3));
    && child.kind == parent.kind && child.role == RoleFromRoll(rng.reals(t))
    && child.age == 0 && child.lastReproduction == 0 && child.inventory == EmptyInventory
    && !child.isSheltered && child.currentConstruction == null && child.position == None
    && child.mutations == (if mutated then parent.mutations + [tag] else [])
    && child.energy == (if mutated && tag == EnergyPlus then energy0 * 0.4 * 1.2 else energy0 * 0.4)
    && child.strength == (if mutated && tag == StrengthPlus then parent.strength * 1.2 else parent.strength)
    && parent.energy == energy0 * 0.6 && parent.lastReproduction == parent.age
    && rng.next == t + (if mutated then 3 else 2)
  }
}
