/**
 * The domain objects of the simulation (entities.py): resource deposits,
 * organisms (`Entity`) and the shelters they build (`Construction`).
 *
 * Organisms and shelters are objects with identity: the engine compares them
 * by reference and updates their fields in place. A faction and a role never
 * change once an organism exists, so they are constants, and functions over
 * lists of occupants that only look at roles read no heap.
 */
module Entities {
  import opened Wrappers
  import opened Oracle

  /** The two factions. The grid marks an empty cell with `null`, not with a third kind. */
  datatype Species = Species1 | Species2

  datatype Role = Normal | Builder | Miner

  datatype ResourceType = Food | Ore | Misc

  /** The tags `reproduce` can add to a child's list of mutations. */
  datatype Mutation = EnergyPlus | StrengthPlus | EfficiencyPlus

  /** A deposit lying on one cell of the resource layer. */
  datatype Resource = Resource(kind: ResourceType, amount: int, energyFactor: real, strengthFactor: real)

  /** An organism's stock: exactly the two keys ore and misc; food is eaten, never stored. */
  type Inventory = m: map<ResourceType, int> | m.Keys == {Ore, Misc}
    witness map[Ore := 0, Misc := 0]

  const EmptyInventory: Inventory := map[Ore := 0, Misc := 0]

  /** `Resource.create_ore`: the deposit seeded at world creation (3 units by default). */
  function CreateOre(amount: int := 3): Resource
  {
    Resource(Ore, amount, 3.0, 2.0)
  }

  /**
   * `Resource.create_random`: ore never appears this way; food or misc appears
   * when the draw is below 0.1, with an amount drawn from 1 to 3 after it.
   */
  method CreateRandom(kind: ResourceType, rng: Rng) returns (r: Option<Resource>)
    modifies rng`next
    ensures kind == Ore ==> r == None && rng.next == old(rng.next)
    ensures kind != Ore ==> (r.Some? <==> rng.reals(old(rng.next)) < 0.1)
    ensures kind != Ore ==> rng.next == old(rng.next) + (if r.Some? then 2 else 1)
    ensures r.Some? ==> r.value.kind == kind && r.value.amount == 1 + rng.BelowAt(old(rng.next) + 1, 3)
    ensures r.Some? ==> 1 <= r.value.amount <= 3
    ensures r.Some? && kind == Food ==> r.value.energyFactor == 1.0 && r.value.strengthFactor == 0.0
    ensures r.Some? && kind == Misc ==> r.value.energyFactor == 0.5 && r.value.strengthFactor == 0.5
  {
    if kind == Ore {
      return None;
    }
    var roll := rng.Random();
    if roll < 0.1 {
      var amount := rng.RandInt(1, 3);
      if kind == Food {
        return Some(Resource(Food, amount, 1.0, 0.0));
      } else {
        return Some(Resource(Misc, amount, 0.5, 0.5));
      }
    }
    return None;
  }

  /** The role an organism receives at creation from its draw: 16% builders, 16% miners. */
  function RoleFromRoll(roll: Unit): (r: Role)
    ensures r == Builder <==> roll < 0.16
    ensures r == Miner <==> 0.16 <= roll < 0.32
    ensures r == Normal <==> 0.32 <= roll
  {
    if roll < 0.16 then Builder else if roll < 0.32 then Miner else Normal
  }

  /** The tag `random.choice(['energy+', 'strength+', 'efficiency+'])` picks for index `i`. */
  function MutationAt(i: nat): Mutation
    requires i < 3
  {
    if i == 0 then EnergyPlus else if i == 1 then StrengthPlus else EfficiencyPlus
  }

  class Entity {
    const kind: Species
    const role: Role
    var energy: real
    var strength: real
    var age: int
    var mutations: seq<Mutation>
    var lastReproduction: int
    /** Set by the army logic; `None` until the organism is first listed for an army. */
    var position: Option<(int, int)>
    var inventory: Inventory
    var isSheltered: bool
    /** Back-reference to the shelter that seated it; written, never read, by the engine. */
    var currentConstruction: Construction?

    /** `Entity(type, energy, strength)`; the role comes from the draw `roleRoll` the constructor makes. */
    constructor (kind: Species, roleRoll: Unit, initialEnergy: real := 2.0, initialStrength: real := 1.0)
      ensures this.kind == kind && role == RoleFromRoll(roleRoll)
      ensures energy == initialEnergy && strength == initialStrength
      ensures age == 0 && mutations == [] && lastReproduction == 0 && position == None
      ensures inventory == EmptyInventory && !isSheltered && currentConstruction == null
    {
      this.kind := kind;
      role := RoleFromRoll(roleRoll);
      energy := initialEnergy;
      strength := initialStrength;
      age := 0;
      mutations := [];
      lastReproduction := 0;
      position := None;
      inventory := EmptyInventory;
      isSheltered := false;
      currentConstruction := null;
    }

    /** `get_power`: energy plus twice the strength, half as much again inside a shelter. */
    function GetPower(): real
      reads this`energy, this`strength, this`isSheltered
    {
      var base := energy + strength * 2.0;
      if isSheltered then base * 1.5 else base
    }

    predicate CanBuild()
      reads this`inventory
    {
      role == Builder && inventory[Ore] >= 1 && inventory[Misc] >= 2
    }

    predicate CanMine() {
      role == Miner
    }

    predicate CanReproduce()
      reads this`energy, this`age, this`lastReproduction
    {
      energy > 2.85 && age > 1 && age - lastReproduction > 1
    }

    /**
     * `build_construction`: when the builder holds 1 ore and 2 misc it spends
     * them on a new shelter of its own faction at `pos` and takes the first
     * seat in it; otherwise nothing happens and no shelter is returned.
     */
    method BuildConstruction(pos: (int, int)) returns (c: Construction?)
      modifies this`inventory, this`isSheltered, this`currentConstruction
      ensures old(CanBuild()) <==> c != null
      ensures c == null ==> inventory == old(inventory) && isSheltered == old(isSheltered)
                            && currentConstruction == old(currentConstruction)
      ensures c != null ==> fresh(c) && c.ownerType == kind && c.position == pos
                            && c.occupants == [this] && c.energy == 100.0
                            && c.maxOccupants == 10 && c.lastReproduction == 0
      ensures c != null ==> inventory[Ore] == old(inventory[Ore]) - 1
                            && inventory[Misc] == old(inventory[Misc]) - 2
                            && isSheltered && currentConstruction == c
    {
      if !CanBuild() {
        return null;
      }
      inventory := inventory[Ore := inventory[Ore] - 1];
      inventory := inventory[Misc := inventory[Misc] - 2];
      c := new Construction(kind, pos);
      var seated := c.AddOccupant(this);
    }

    /** What a stock becomes once `transfer_to_builder` has moved it: zero, unless it held nothing positive. */
    static function Drained(amount: int): int {
      if amount > 0 then 0 else amount
    }

    predicate Receives(builder: Entity) {
      builder.role == Builder && kind == builder.kind
    }

    /**
     * `transfer_to_builder`: to an allied builder, every positive ore and misc
     * stock moves across and the sender's stock drops to zero; to anyone
     * else nothing moves. A builder "transferring" to itself loses its stock,
     * because the source adds before it zeroes.
     */
    method TransferToBuilder(builder: Entity) returns (ok: bool)
      modifies this`inventory, builder`inventory
      ensures ok == Receives(builder)
      ensures !ok ==> inventory == old(inventory) && builder.inventory == old(builder.inventory)
      ensures ok && builder != this ==>
        && inventory[Ore] == Drained(old(inventory[Ore])) && inventory[Misc] == Drained(old(inventory[Misc]))
        && builder.inventory[Ore] == old(builder.inventory[Ore]) + old(inventory[Ore]) - Drained(old(inventory[Ore]))
        && builder.inventory[Misc] == old(builder.inventory[Misc]) + old(inventory[Misc]) - Drained(old(inventory[Misc]))
      ensures ok && builder == this ==>
        inventory[Ore] == Drained(old(inventory[Ore])) && inventory[Misc] == Drained(old(inventory[Misc]))
      ensures builder != this ==>
        && inventory[Ore] + builder.inventory[Ore] == old(inventory[Ore]) + old(builder.inventory[Ore])
        && inventory[Misc] + builder.inventory[Misc] == old(inventory[Misc]) + old(builder.inventory[Misc])
    {
      if Receives(builder) {
        var amount := inventory[Ore];
        if amount > 0 {
          builder.inventory := builder.inventory[Ore := builder.inventory[Ore] + amount];
          inventory := inventory[Ore := 0];
        }
        amount := inventory[Misc];
        if amount > 0 {
          builder.inventory := builder.inventory[Misc := builder.inventory[Misc] + amount];
          inventory := inventory[Misc := 0];
        }
        return true;
      }
      return false;
    }

    /**
     * `consume_resource`: only a miner can take ore. Ore and misc go to the
     * inventory; every consumed deposit adds `amount * factor` to energy and
     * strength.
     */
    method ConsumeResource(res: Resource)
      modifies this`inventory, this`energy, this`strength
      ensures res.kind == Ore && !CanMine() ==>
        inventory == old(inventory) && energy == old(energy) && strength == old(strength)
      ensures !(res.kind == Ore && !CanMine()) ==>
        && inventory == (if res.kind == Food then old(inventory)
                         else old(inventory)[res.kind := old(inventory[res.kind]) + res.amount])
        && energy == old(energy) + res.amount as real * res.energyFactor
        && strength == old(strength) + res.amount as real * res.strengthFactor
    {
      if res.kind == Ore && !CanMine() {
        return;
      }
      if res.kind == Ore || res.kind == Misc {
        inventory := inventory[res.kind := inventory[res.kind] + res.amount];
      }
      energy := energy + res.amount as real * res.energyFactor;
      strength := strength + res.amount as real * res.strengthFactor;
    }

    /**
     * `transfer_resources`: an ally receives `amount` of one stock when the
     * sender holds at least that much. The faction test comes first, so a
     * pair of different factions fails whatever the kind; between allies
     * food is not a stock (the source would raise a KeyError), so callers
     * may not name it there.
     */
    method TransferResources(other: Entity, kind': ResourceType, amount: int) returns (ok: bool)
      requires kind' != Food || kind != other.kind
      modifies this`inventory, other`inventory
      ensures ok == (kind == other.kind && old(inventory[kind']) >= amount)
      ensures !ok ==> inventory == old(inventory) && other.inventory == old(other.inventory)
      ensures ok && other != this ==>
        && inventory == old(inventory)[kind' := old(inventory[kind']) - amount]
        && other.inventory == old(other.inventory)[kind' := old(other.inventory[kind']) + amount]
      ensures other == this ==> inventory == old(inventory)
      ensures other != this ==>
        && inventory[Ore] + other.inventory[Ore] == old(inventory[Ore]) + old(other.inventory[Ore])
        && inventory[Misc] + other.inventory[Misc] == old(inventory[Misc]) + old(other.inventory[Misc])
    {
      if kind == other.kind && inventory[kind'] >= amount {
        inventory := inventory[kind' := inventory[kind'] - amount];
        other.inventory := other.inventory[kind' := other.inventory[kind'] + amount];
        return true;
      }
      return false;
    }

    /**
     * `reproduce`: the child takes 40% of the parent's energy and its
     * strength, the parent keeps 60% and records its age. Draws, in order:
     * the child's role, the mutation roll, and (when the roll is below 0.15)
     * the mutation tag. A mutation gives the child its parent's tags plus the
     * new one and multiplies one of its stats by 1.2.
     */
    method Reproduce(rng: Rng) returns (child: Entity)
      modifies this`energy, this`lastReproduction, rng`next
      ensures fresh(child) && child.kind == kind && child.role == RoleFromRoll(rng.reals(old(rng.next)))
      ensures energy == old(energy) * 0.6 && lastReproduction == age
      ensures child.age == 0 && child.lastReproduction == 0 && child.inventory == EmptyInventory
      ensures !child.isSheltered && child.currentConstruction == null && child.position == None
      ensures var mutated := rng.reals(old(rng.next) + 1) < 0.15;
              var tag := MutationAt(rng.BelowAt(old(rng.next) + 2, 3));
              && rng.next == old(rng.next) + (if mutated then 3 else 2)
              && child.mutations == (if mutated then mutations + [tag] else [])
              && child.energy == (if mutated && tag == EnergyPlus then old(energy) * 0.4 * 1.2
                                  else old(energy) * 0.4)
              && child.strength == (if mutated && tag == StrengthPlus then strength * 1.2 else strength)
              && (!(mutated && tag == EnergyPlus) ==> child.energy + energy == old(energy))
    {
      var roleRoll := rng.Random();
      child := new Entity(kind, roleRoll, energy * 0.4, strength);
      energy := energy * 0.6;
      lastReproduction := age;
      var roll := rng.Random();
      if roll < 0.15 {
        var i := rng.Below(3);
        var tag := MutationAt(i);
        child.mutations := mutations + [tag];
        if tag == EnergyPlus {
          child.energy := child.energy * 1.2;
        } else if tag == StrengthPlus {
          child.strength := child.strength * 1.2;
        }
      }
    }

    /** `update`: one year older, 0.08 less energy, never below zero. */
    method Update()
      modifies this`age, this`energy
      ensures age == old(age) + 1
      ensures energy >= 0.0
      ensures energy == if old(energy) - 0.08 > 0.0 then old(energy) - 0.08 else 0.0
    {
      age := age + 1;
      energy := if energy - 0.08 > 0.0 then energy - 0.08 else 0.0;
    }
  }

  /* ---------------------------------------------------------------------- */
  /* Occupant lists                                                          */
  /* ---------------------------------------------------------------------- */

  /** Position of the first occurrence of `e` in `s` (by identity, as Python's `list.remove`). */
  function IndexOf(s: seq<Entity>, e: Entity): (k: nat)
    requires e in s
    ensures k < |s| && s[k] == e && e !in s[..k]
  {
    if s[0] == e then 0 else 1 + IndexOf(s[1..], e)
  }

  /** `list.remove(e)`: drop the first occurrence of `e`. */
  function RemoveFirst(s: seq<Entity>, e: Entity): (r: seq<Entity>)
    requires e in s
    ensures |r| == |s| - 1 && forall x :: x in r ==> x in s
  {
    if s[0] == e then s[1..] else [s[0]] + RemoveFirst(s[1..], e)
  }

  /** `RemoveFirst` drops exactly the first occurrence and keeps the rest in order. */
  lemma {:induction false} RemoveFirstSplice(s: seq<Entity>, e: Entity)
    requires e in s
    ensures RemoveFirst(s, e) == s[..IndexOf(s, e)] + s[IndexOf(s, e) + 1..]
  {
    if s[0] == e {
    } else {
      var t := s[1..];
      RemoveFirstSplice(t, e);
      var k := IndexOf(t, e);
      assert s[..k + 1] == [s[0]] + t[..k];
      assert s[k + 2..] == t[k + 1..];
    }
  }

  /** `RemoveFirst` is the splice around the first occurrence, and takes exactly one copy of `e` out. */
  lemma {:induction false} RemoveFirstSplits(s: seq<Entity>, e: Entity)
    requires e in s
    ensures RemoveFirst(s, e) == s[..IndexOf(s, e)] + s[IndexOf(s, e) + 1..]
    ensures multiset(RemoveFirst(s, e)) == multiset(s) - multiset{e}
    ensures |RemoveFirst(s, e)| == |s| - 1
  {
    RemoveFirstSplice(s, e);
    var k := IndexOf(s, e);
    assert s == s[..k] + [e] + s[k + 1..];
    SpliceCount(s[..k], e, s[k + 1..]);
  }

  /** Cutting one element out of a sequence takes exactly one copy of it out of its multiset. */
  lemma SpliceCount<T>(a: seq<T>, e: T, b: seq<T>)
    ensures multiset(a + b) == multiset(a + [e] + b) - multiset{e}
  {
    assert multiset(a + [e] + b) == multiset(a) + multiset{e} + multiset(b);
    assert multiset(a + b) == multiset(a) + multiset(b);
  }

  /** Whether `remove_occupant(e)` takes `e` out of `occ`: specialists stay when at most two remain. */
  predicate Removes(occ: seq<Entity>, e: Entity) {
    e in occ && !(e.role != Normal && |occ| <= 2)
  }

  /** The occupant list after `remove_occupant(e)`. */
  function RemoveStep(occ: seq<Entity>, e: Entity): seq<Entity> {
    if Removes(occ, e) then RemoveFirst(occ, e) else occ
  }

  /** The occupant list after `remove_occupant` has been called on each of `todo` in turn. */
  function Evict(occ: seq<Entity>, todo: seq<Entity>): seq<Entity>
    decreases |todo|
  {
    if todo == [] then occ else Evict(RemoveStep(occ, todo[0]), todo[1..])
  }

  /** The organisms those calls actually took out, whose shelter flags they cleared. */
  function Cleared(occ: seq<Entity>, todo: seq<Entity>): set<Entity>
    decreases |todo|
  {
    if todo == [] then {}
    else (if Removes(occ, todo[0]) then {todo[0]} else {}) + Cleared(RemoveStep(occ, todo[0]), todo[1..])
  }

  function Normals(s: seq<Entity>): (r: seq<Entity>)
    ensures forall e :: e in r ==> e in s && e.role == Normal
    ensures forall e :: e in s && e.role == Normal ==> e in r
    ensures |r| <= |s|
  {
    if s == [] then [] else (if s[0].role == Normal then [s[0]] else []) + Normals(s[1..])
  }

  function Specials(s: seq<Entity>): (r: seq<Entity>)
    ensures forall e :: e in r ==> e in s && e.role != Normal
    ensures forall e :: e in s && e.role != Normal ==> e in r
    ensures |r| <= |s|
  {
    if s == [] then [] else (if s[0].role != Normal then [s[0]] else []) + Specials(s[1..])
  }

  /** A list of normal organisms keeps all of them, in order, when the specialists are filtered out. */
  lemma {:induction false} NormalsOfNormals(s: seq<Entity>)
    requires forall e :: e in s ==> e.role == Normal
    ensures Normals(s) == s
  {
    if s != [] {
      assert s[0] in s;
      assert forall e :: e in s[1..] ==> e in s;
      NormalsOfNormals(s[1..]);
      assert s == [s[0]] + s[1..];
    }
  }

  /** Every organism is either normal or a specialist. */
  lemma {:induction false} PartitionSize(s: seq<Entity>)
    ensures |Normals(s)| + |Specials(s)| == |s|
  {
    if s != [] {
      PartitionSize(s[1..]);
    }
  }

  /** Removing occupants never adds any: the list only shrinks, and stays inside the original. */
  lemma {:induction false} EvictShrinks(occ: seq<Entity>, todo: seq<Entity>)
    ensures |Evict(occ, todo)| <= |occ|
    ensures forall e :: e in Evict(occ, todo) ==> e in occ
    decreases |todo|
  {
    if todo != [] {
      var next := RemoveStep(occ, todo[0]);
      if Removes(occ, todo[0]) {
        RemoveFirstSplits(occ, todo[0]);
        forall e | e in next ensures e in occ {
          assert e in multiset(next);
        }
      }
      EvictShrinks(next, todo[1..]);
    }
  }

  predicate NoDuplicates(s: seq<Entity>) {
    forall i, j :: 0 <= i < j < |s| ==> s[i] != s[j]
  }

  /**
   * Emptying a shelter the way `take_damage` does, by calling
   * `remove_occupant` on each of its occupants in turn, does not always empty
   * it: every normal organism is taken out, but the specialists met while at
   * most two remain stay seated, so up to two specialists are left behind.
   */
  lemma EvictAllLeavesSpecialists(occ: seq<Entity>)
    ensures forall e :: e in Evict(occ, occ) ==> e.role != Normal
    ensures |Evict(occ, occ)| <= 2
    ensures forall e :: e in Evict(occ, occ) ==> e in occ
  {
    EvictBound(occ, occ);
  }

  /**
   * The induction behind `EvictAllLeavesSpecialists`. An organism kept while
   * it is still due to be processed has been counted against `todo`; one
   * kept beyond that was a specialist met while at most two remained.
   */
  lemma {:induction false} EvictBound(cur: seq<Entity>, todo: seq<Entity>)
    requires forall x :: x in cur && x.role == Normal ==> multiset(cur)[x] <= multiset(todo)[x]
    requires forall x :: x in cur && multiset(cur)[x] > multiset(todo)[x] ==> |cur| <= 2
    ensures forall e :: e in Evict(cur, todo) ==> e.role != Normal && e in cur
    ensures |Evict(cur, todo)| <= 2
    decreases |todo|
  {
    if todo != [] {
      var t := todo[0];
      var rest := todo[1..];
      assert todo == [t] + rest;
      assert multiset(todo) == multiset{t} + multiset(rest);
      var next := RemoveStep(cur, t);
      if Removes(cur, t) {
        RemoveFirstSplits(cur, t);
        assert multiset(next) == multiset(cur) - multiset{t};
        forall x | x in next
          ensures x in cur && multiset(next)[x] + multiset(todo)[x] == multiset(cur)[x] + multiset(rest)[x]
        {
          assert x in multiset(next);
        }
      } else {
        assert next == cur;
      }
      EvictBound(next, rest);
    }
  }

  /** Calls of `remove_occupant` on organisms that are not seated change nothing. */
  lemma {:induction false} EvictAbsent(occ: seq<Entity>, todo: seq<Entity>)
    requires forall e :: e in todo ==> e !in occ
    ensures Evict(occ, todo) == occ && Cleared(occ, todo) == {}
    decreases |todo|
  {
    if todo != [] {
      assert todo[0] in todo;
      forall e | e in todo[1..] ensures e !in occ {
        assert e in todo;
      }
      EvictAbsent(occ, todo[1..]);
    }
  }

  /** Calling `remove_occupant` on one more organism at the end takes one more `RemoveStep`. */
  lemma {:induction false} EvictSnoc(occ: seq<Entity>, todo: seq<Entity>, x: Entity)
    ensures Evict(occ, todo + [x]) == RemoveStep(Evict(occ, todo), x)
    decreases |todo|
  {
    if todo == [] {
      assert [x][1..] == [];
    } else {
      assert (todo + [x])[0] == todo[0] && (todo + [x])[1..] == todo[1..] + [x];
      EvictSnoc(RemoveStep(occ, todo[0]), todo[1..], x);
    }
  }

  /** One more `remove_occupant` at the end takes out `x` exactly when it removes `x` from what the others left. */
  lemma {:induction false} ClearedSnoc(occ: seq<Entity>, todo: seq<Entity>, x: Entity)
    ensures Cleared(occ, todo + [x]) == Cleared(occ, todo) + (if Removes(Evict(occ, todo), x) then {x} else {})
    decreases |todo|
  {
    if todo == [] {
      assert [x][1..] == [];
    } else {
      assert (todo + [x])[0] == todo[0] && (todo + [x])[1..] == todo[1..] + [x];
      ClearedSnoc(RemoveStep(occ, todo[0]), todo[1..], x);
    }
  }

  /** Going through the list `todo` in order: the first `m + 1` removals are the first `m` and then one more. */
  lemma EvictPrefix(occ: seq<Entity>, todo: seq<Entity>, m: nat)
    requires m < |todo|
    ensures Evict(occ, todo[..m + 1]) == RemoveStep(Evict(occ, todo[..m]), todo[m])
    ensures Cleared(occ, todo[..m + 1]) ==
      Cleared(occ, todo[..m]) + (if Removes(Evict(occ, todo[..m]), todo[m]) then {todo[m]} else {})
  {
    assert todo[..m + 1] == todo[..m] + [todo[m]];
    EvictSnoc(occ, todo[..m], todo[m]);
    ClearedSnoc(occ, todo[..m], todo[m]);
  }

  /**
   * A destroyed shelter can keep an occupant: a builder seated alone is not
   * taken out by `remove_occupant`, so emptying the shelter leaves it seated
   * with its flags untouched.
   */
  lemma LoneBuilderStays(b: Entity)
    requires b.role == Builder
    ensures Evict([b], [b]) == [b] && Cleared([b], [b]) == {}
  {
    assert !Removes([b], b);
    assert [b][1..] == [];
  }

  lemma {:induction false} NormalsNoDuplicates(s: seq<Entity>)
    requires NoDuplicates(s)
    ensures NoDuplicates(Normals(s))
    decreases |s|
  {
    if s != [] {
      NormalsNoDuplicates(s[1..]);
      if s[0].role == Normal {
        assert s[0] !in s[1..];
        assert s[0] !in Normals(s[1..]);
      }
    }
  }

  /**
   * The war band that `try_reproduce` releases keeps its shelter flags: once
   * the occupant list has been reassigned to the specialists and the normals
   * after the eighth, the `remove_occupant` calls on the eight soldiers find
   * none of them seated (when the list held no organism twice).
   */
  lemma WarBandRemovalIsNoOp(occ: seq<Entity>)
    requires NoDuplicates(occ) && |Normals(occ)| >= 8
    ensures var kept := Specials(occ) + Normals(occ)[8..];
            Evict(kept, Normals(occ)[..8]) == kept && Cleared(kept, Normals(occ)[..8]) == {}
  {
    var n := Normals(occ);
    NormalsNoDuplicates(occ);
    forall e | e in n[..8] ensures e !in Specials(occ) + n[8..] {
      var k :| 0 <= k < 8 && n[..8][k] == e;
      assert n[k] == e && e in n;
      forall m | 0 <= m < |n| - 8 ensures n[8..][m] != e {
        assert n[8..][m] == n[8 + m];
      }
    }
    EvictAbsent(Specials(occ) + n[8..], n[..8]);
  }

  class Construction {
    const ownerType: Species
    const position: (int, int)
    /** The shelter's health; the source calls it energy. */
    var energy: real
    const maxOccupants: int
    var occupants: seq<Entity>
    var lastReproduction: int

    /** `Construction(owner_type, position)` with the defaults: health 100, ten seats. */
    constructor (ownerType: Species, position: (int, int))
      ensures this.ownerType == ownerType && this.position == position
      ensures energy == 100.0 && maxOccupants == 10 && occupants == [] && lastReproduction == 0
    {
      this.ownerType := ownerType;
      this.position := position;
      energy := 100.0;
      maxOccupants := 10;
      occupants := [];
      lastReproduction := 0;
    }

    predicate HasRoom()
      reads this`occupants
    {
      |occupants| < maxOccupants
    }

    /**
     * `add_occupant`: seats `e` at the end of the list and marks it sheltered
     * here exactly when a seat is free; otherwise changes nothing. A shelter
     * within its capacity stays within it.
     */
    method AddOccupant(e: Entity) returns (ok: bool)
      modifies this`occupants, e`isSheltered, e`currentConstruction
      ensures ok == old(HasRoom())
      ensures ok ==> occupants == old(occupants) + [e] && e.isSheltered && e.currentConstruction == this
      ensures !ok ==> occupants == old(occupants) && e.isSheltered == old(e.isSheltered)
                      && e.currentConstruction == old(e.currentConstruction)
      ensures old(|occupants|) <= maxOccupants ==> |occupants| <= maxOccupants
    {
      if |occupants| < maxOccupants {
        occupants := occupants + [e];
        e.isSheltered := true;
        e.currentConstruction := this;
        return true;
      }
      return false;
    }

    /**
     * `remove_occupant`: takes the first occurrence of `e` out of the list and
     * clears its flags, unless `e` is not seated, or is a specialist and at
     * most two organisms are seated; then nothing changes.
     */
    method RemoveOccupant(e: Entity)
      modifies this`occupants, e`isSheltered, e`currentConstruction
      ensures occupants == RemoveStep(old(occupants), e)
      ensures forall x :: x in occupants ==> x in old(occupants)
      ensures Removes(old(occupants), e) ==> !e.isSheltered && e.currentConstruction == null
      ensures !Removes(old(occupants), e) ==> e.isSheltered == old(e.isSheltered)
                                               && e.currentConstruction == old(e.currentConstruction)
      ensures Removes(old(occupants), e) ==> |occupants| == |old(occupants)| - 1
                                             && occupants == old(occupants)[..IndexOf(old(occupants), e)]
                                                             + old(occupants)[IndexOf(old(occupants), e) + 1..]
    {
      if e in occupants {
        if e.role != Normal && |occupants| <= 2 {
          return;
        }
        RemoveFirstSplits(occupants, e);
        occupants := RemoveFirst(occupants, e);
        e.isSheltered := false;
        e.currentConstruction := null;
      }
    }

    /** `remove_occupant` on each of `todo` in turn: the loop both eviction paths of the source run. */
    method RemoveEach(todo: seq<Entity>)
      modifies this`occupants, todo`isSheltered, todo`currentConstruction
      ensures occupants == Evict(old(occupants), todo)
      ensures forall e :: e in todo && e in Cleared(old(occupants), todo) ==>
        !e.isSheltered && e.currentConstruction == null
      ensures forall e :: e in todo && e !in Cleared(old(occupants), todo) ==>
        e.isSheltered == old(e.isSheltered) && e.currentConstruction == old(e.currentConstruction)
    {
      ghost var done: set<Entity> := {};
      var k := 0;
      while k < |todo|
        invariant 0 <= k <= |todo|
        invariant Evict(occupants, todo[k..]) == Evict(old(occupants), todo)
        invariant Cleared(old(occupants), todo) == done + Cleared(occupants, todo[k..])
        invariant forall e :: e in todo && e in done ==> !e.isSheltered && e.currentConstruction == null
        invariant forall e :: e in todo && e !in done ==>
          e.isSheltered == old(e.isSheltered) && e.currentConstruction == old(e.currentConstruction)
      {
        var e := todo[k];
        assert todo[k..][0] == e && todo[k..][1..] == todo[k + 1..];
        if Removes(occupants, e) {
          done := done + {e};
        }
        RemoveOccupant(e);
        k := k + 1;
      }
    }

    /**
     * `take_damage`: health drops by exactly `amount`, and the result says
     * whether it reached zero. While health stays positive the occupants
     * are untouched; otherwise each occupant goes through
     * `remove_occupant` (see `EvictAllLeavesSpecialists` for what stays).
     */
    method TakeDamage(amount: real) returns (destroyed: bool)
      modifies this`energy, this`occupants, occupants`isSheltered, occupants`currentConstruction
      ensures energy == old(energy) - amount
      ensures destroyed == (energy <= 0.0)
      ensures !destroyed ==> occupants == old(occupants)
      ensures !destroyed ==> forall e :: e in old(occupants) ==>
        e.isSheltered == old(e.isSheltered) && e.currentConstruction == old(e.currentConstruction)
      ensures destroyed ==> occupants == Evict(old(occupants), old(occupants))
      ensures forall e :: e in occupants ==> e in old(occupants)
      ensures |occupants| <= old(|occupants|)
      ensures destroyed ==> forall e :: e in old(occupants) ==>
        if e in Cleared(old(occupants), old(occupants)) then !e.isSheltered && e.currentConstruction == null
        else e.isSheltered == old(e.isSheltered) && e.currentConstruction == old(e.currentConstruction)
    {
      energy := energy - amount;
      if energy <= 0.0 {
        EvictShrinks(occupants, occupants);
        RemoveEach(occupants);
      }
      return energy <= 0.0;
    }

    /**
     * `try_reproduce`. With fewer than two occupants nothing happens. A full
     * shelter holding at least eight normal organisms releases the first
     * eight as a war band and keeps its specialists and remaining normals;
     * a full shelter with fewer normals does nothing. Below capacity, once
     * the cooldown has reached 2, two distinct occupants are sampled, a
     * child with 1.2 times their average energy and strength is seated, both
     * parents lose 10% of their energy and the cooldown restarts.
     */
    method TryReproduce(rng: Rng) returns (army: Option<seq<Entity>>)
      modifies this`occupants, this`lastReproduction, occupants`energy
      modifies occupants`isSheltered, occupants`currentConstruction, rng`next
      ensures old(|occupants|) < 2 ==>
        && army == None && occupants == old(occupants) && lastReproduction == old(lastReproduction)
        && Untouched(old(occupants), rng)
      ensures old(|occupants|) >= 2 && old(|occupants|) >= maxOccupants && |Normals(old(occupants))| >= 8 ==>
        && army == Some(Normals(old(occupants))[..8])
        && occupants == Evict(Specials(old(occupants)) + Normals(old(occupants))[8..], Normals(old(occupants))[..8])
        && lastReproduction == old(lastReproduction)
        && rng.next == old(rng.next) && forall e :: e in old(occupants) ==> e.energy == old(e.energy)
      ensures old(|occupants|) >= 2 && old(|occupants|) >= maxOccupants && |Normals(old(occupants))| >= 8
              && NoDuplicates(old(occupants)) ==>
        && occupants == Specials(old(occupants)) + Normals(old(occupants))[8..]
        && Untouched(old(occupants), rng)
      ensures old(|occupants|) >= maxOccupants && |Normals(old(occupants))| < 8 ==>
        && army == None && occupants == old(occupants) && lastReproduction == old(lastReproduction)
        && Untouched(old(occupants), rng)
      ensures 2 <= old(|occupants|) < maxOccupants && old(lastReproduction) < 2 ==>
        && army == None && occupants == old(occupants) && lastReproduction == old(lastReproduction)
        && Untouched(old(occupants), rng)
      ensures 2 <= old(|occupants|) < maxOccupants && old(lastReproduction) >= 2 ==>
        var (a, b) := rng.PairAt(old(rng.next), old(|occupants|));
        var p1, p2, n := old(occupants)[a], old(occupants)[b], old(|occupants|);
        && army == None && lastReproduction == 0
        && |occupants| == n + 1 && occupants[..n] == old(occupants)
        && fresh(occupants[n]) && occupants[n].kind == ownerType
        && occupants[n].role == RoleFromRoll(rng.reals(old(rng.next) + 2)) && rng.next == old(rng.next) + 3
        && occupants[n].isSheltered && occupants[n].currentConstruction == this
        && occupants[n].energy == (old(p1.energy) + old(p2.energy)) * 0.5 * 1.2
        && occupants[n].strength == (old(p1.strength) + old(p2.strength)) * 0.5 * 1.2
        && (p1 != p2 ==> p1.energy == old(p1.energy) * 0.9 && p2.energy == old(p2.energy) * 0.9)
        && (p1 == p2 ==> p1.energy == old(p1.energy) * 0.9 * 0.9)
        && (forall x :: x in old(occupants) && x != p1 && x != p2 ==> x.energy == old(x.energy))
        && (forall x :: x in old(occupants) ==>
              x.isSheltered == old(x.isSheltered) && x.currentConstruction == old(x.currentConstruction))
      ensures old(|occupants|) <= maxOccupants ==> |occupants| <= maxOccupants
    {
      if |occupants| >= 2 {
        if |occupants| >= maxOccupants {
          if |Normals(occupants)| >= 8 {
            var soldiers := ReleaseBand();
            return Some(soldiers);
          }
        } else if lastReproduction >= 2 {
          Procreate(rng);
        }
      }
      return None;
    }

    /** Nothing `try_reproduce` may touch has changed for the organisms of `occ`, and no draw was made. */
    twostate predicate Untouched(occ: seq<Entity>, rng: Rng)
      reads occ, rng
    {
      && rng.next == old(rng.next)
      && forall e :: e in occ ==>
           e.energy == old(e.energy) && e.isSheltered == old(e.isSheltered)
           && e.currentConstruction == old(e.currentConstruction)
    }

    /**
     * The war-band branch of `try_reproduce`: the first eight normal
     * occupants leave together, each through `remove_occupant`; the
     * specialists and the remaining normals stay. Since the list has
     * already been reassigned when the calls are made, a soldier is only
     * taken out (and its flags cleared) if it was seated twice; in a list
     * without duplicates every soldier keeps its shelter flags.
     */
    method ReleaseBand() returns (soldiers: seq<Entity>)
      requires |Normals(occupants)| >= 8
      modifies this`occupants, occupants`isSheltered, occupants`currentConstruction
      ensures soldiers == Normals(old(occupants))[..8]
      ensures forall e :: e in soldiers ==> e in old(occupants)
      ensures var kept := Specials(old(occupants)) + Normals(old(occupants))[8..];
              && occupants == Evict(kept, soldiers)
              && (forall e :: e in soldiers && e in Cleared(kept, soldiers) ==> !e.isSheltered && e.currentConstruction == null)
              && (forall e :: e in soldiers && e !in Cleared(kept, soldiers) ==>
                    e.isSheltered == old(e.isSheltered) && e.currentConstruction == old(e.currentConstruction))
      ensures forall e :: e in old(occupants) && e !in soldiers ==>
        e.isSheltered == old(e.isSheltered) && e.currentConstruction == old(e.currentConstruction)
      ensures NoDuplicates(old(occupants)) ==>
        && occupants == Specials(old(occupants)) + Normals(old(occupants))[8..]
        && forall e :: e in old(occupants) ==>
             e.isSheltered == old(e.isSheltered) && e.currentConstruction == old(e.currentConstruction)
      ensures |occupants| <= old(|occupants|)
    {
      var normals := Normals(occupants);
      var specials := Specials(occupants);
      soldiers := normals[..8];
      forall e | e in soldiers ensures e in old(occupants) {
        var k :| 0 <= k < 8 && soldiers[k] == e;
        assert normals[k] == e;
      }
      occupants := specials + normals[8..];
      assert forall i :: 0 <= i < |soldiers| ==> soldiers[i] in old(occupants);
      RemoveEach(soldiers);
      PartitionSize(old(occupants));
      EvictShrinks(specials + normals[8..], soldiers);
      if NoDuplicates(old(occupants)) {
        WarBandRemovalIsNoOp(old(occupants));
      }
    }

    /**
     * The breeding branch of `try_reproduce`: two distinct occupants are
     * sampled, and their child, with 1.2 times their average energy and
     * strength and the role its own draw selects, takes the free seat; both
     * parents lose 10% of their energy and the cooldown restarts. Nobody
     * else's energy changes.
     */
    method Procreate(rng: Rng)
      requires 2 <= |occupants| < maxOccupants
      modifies this`occupants, this`lastReproduction, occupants`energy, rng`next
      ensures var (a, b) := rng.PairAt(old(rng.next), old(|occupants|));
        var p1, p2, n := old(occupants)[a], old(occupants)[b], old(|occupants|);
        && lastReproduction == 0
        && |occupants| == n + 1 && occupants[..n] == old(occupants)
        && fresh(occupants[n]) && occupants[n].kind == ownerType
        && occupants[n].role == RoleFromRoll(rng.reals(old(rng.next) + 2)) && rng.next == old(rng.next) + 3
        && occupants[n].isSheltered && occupants[n].currentConstruction == this
        && occupants[n].energy == (old(p1.energy) + old(p2.energy)) * 0.5 * 1.2
        && occupants[n].strength == (old(p1.strength) + old(p2.strength)) * 0.5 * 1.2
        && (p1 != p2 ==> p1.energy == old(p1.energy) * 0.9 && p2.energy == old(p2.energy) * 0.9)
        && (p1 == p2 ==> p1.energy == old(p1.energy) * 0.9 * 0.9)
        && (forall x :: x in old(occupants) && x != p1 && x != p2 ==> x.energy == old(x.energy))
    {
      var a, b := rng.Sample2(|occupants|);
      var parent1, parent2 := occupants[a], occupants[b];
      var avgEnergy := (parent1.energy + parent2.energy) * 0.5;
      var avgStrength := (parent1.strength + parent2.strength) * 0.5;
      var roleRoll := rng.Random();
      var child := new Entity(ownerType, roleRoll, avgEnergy * 1.2, avgStrength * 1.2);
      var seated := AddOccupant(child);
      if seated {
        parent1.energy := parent1.energy * 0.9;
        parent2.energy := parent2.energy * 0.9;
        lastReproduction := 0;
      }
    }

    /** `update`: the reproduction cooldown grows by one tick. */
    method Update()
      modifies this`lastReproduction
      ensures lastReproduction == old(lastReproduction) + 1
    {
      lastReproduction := lastReproduction + 1;
    }
  }
}
