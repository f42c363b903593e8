# Two-faction grid ecosystem: a Dafny model of the simulation engine

The simulation is an N x N world where two factions of organisms live.
They move, eat, fight, breed, build shelters, hide in them, defend them,
deliver ore to their builders and form armies that march on the enemy.
This project models the engine of that simulation and proves what its
operations promise. The engine is made of the domain objects (`entities.py`)
and the `World` class with its phased `update` tick (`world.py`).

The model keeps the source's form:

* **Organisms and shelters are classes.** `Entities.Entity` and
  `Entities.Construction` are Dafny classes, because the engine compares
  them by reference and updates their fields in place. Faction, role, owner,
  position and capacity are never reassigned, so they are `const`.
* **Deposits and small records are datatypes.** `Resource`, `Target` and
  `Tally` are datatypes. An inventory is a map whose keys are exactly ore and
  misc.
* **The world is a class over arrays.** `WorldEngine.World` holds three
  `array2` layers: organisms, deposits and shelters. It also holds the six
  counters and the `armies` map. Ghost footprints `EntityRepr` and
  `ConstructionRepr` hold every organism and shelter the world has held.
  `Valid()` says that the layers, the occupant lists and the armies only
  refer to those objects, that every soldier records a grid cell as its
  position, that no shelter seats more than its capacity, and that every
  shelter on the layer records its own cell.
* **The tick is a chain of methods with loops.** Each loop of `update` is a
  method with a `for` loop, split row by row and cell by cell. Each method
  states what its step does to the layers. Movement is double-buffered in a
  second layer that then replaces the first, as in the source.
* **Randomness is an oracle.** Every call to Python's `random` module draws
  from an `Oracle.Rng` object. It holds a stream of reals in [0, 1), a stream
  of naturals and a cursor. Draws happen in the source's order. Contracts
  name the drawn values, so "a draw below 0.1" and "the index `choice`
  picked" appear in the statements. Nothing is said about how the draws are
  distributed.
* **The pure helpers are functions.** These are in `Geometry`: Manhattan and
  king-move distance, the step direction, row-major order. In `Entities`
  they are `GetPower`, `CanBuild`, `CanMine` and `CanReproduce`. Lists of
  occupants are specified through `Normals`, `Specials`, `RemoveFirst` and
  `Evict`. `Evict` is the result of calling `remove_occupant` on each
  organism of a list in turn.

The properties proved include:

* The neighbourhood `get_neighbors` lists is exactly the in-grid cells one
  king move away. It lists them without repeats, at most eight, in row-major
  order.
* `find_nearest_target` and the army target scan return `None` exactly when
  nothing qualifies. Otherwise the result qualifies, is at minimal Manhattan
  distance, and is the first such cell in row-major order, because the scans
  only replace their best on a strictly smaller distance.
* The per-cell action priority: an enemy shelter hides anything else on its
  cell, and a mate beats a free allied seat.
* The capacity bound of shelters holds at every step of the tick.
* The exact effect of `remove_occupant`, as a splice, together with the fact
  that emptying a destroyed shelter can leave up to two specialists seated.
* War-band soldiers keep their shelter flags when the occupant list has no
  duplicates.
* Inventory transfers conserve each stock.
* Every failed guard is a no-op.
* The seeding of `initialize_world` and the regrowth of `update_resources`
  are stated cell by cell in terms of the draws each cell takes.
* The ore lying on the map never grows during a tick.
* The counters equal a fresh recount of the current layers.
* After `update`, and after `update_armies`, every band has at least four
  living soldiers.

## Model

| member | source | states |
|---|---|---|
| Oracle.Rng.constructor | world.py:2 | a fresh oracle over the given streams starts at draw 0 |
| Oracle.Rng.BelowAt | world.py:42-43 | the index drawn for a range of `n` values is below `n` |
| Oracle.Rng.PairAt | entities.py:104 | the two positions `random.sample(list, 2)` draws are distinct and inside the list |
| Oracle.Rng.Random | world.py:32 | `random.random()` returns the current real of the stream and advances the cursor by one |
| Oracle.Rng.RandInt | world.py:42-43 | `random.randint(lo, hi)` lies in the closed range `[lo, hi]` and is the value the current draw selects |
| Oracle.Rng.Below | world.py:170 | `random.choice` picks an index inside the list, the one the current draw selects |
| Oracle.Rng.Sample2 | entities.py:104 | `random.sample(list, 2)` picks two distinct positions, the pair `PairAt` names, using two draws |
| Oracle.Rng.Shuffle | world.py:128 | `random.shuffle` returns a permutation of its input: same length, same multiset, same elements; one draw per position after the first |
| Oracle.SwapPermutes | world.py:128 | swapping two positions of a list keeps its multiset, which is the loop invariant of `Shuffle` |
| Entities.CreateRandom | entities.py:28-39 | ore never appears and draws nothing; food or misc appears exactly when the first draw is below 0.1, its amount `1 + ` the index the next draw selects among three (so 1 to 3 units), the cursor moving by two on a hit and one on a miss; factors 1.0/0.0 (food) or 0.5/0.5 (misc) |
| Entities.RoleFromRoll | entities.py:132-138 | builder iff the roll is below 0.16, miner iff it is in [0.16, 0.32), normal otherwise |
| Entities.MutationAt | entities.py:214 | the mutation tag each of the three indices `random.choice` can draw names |
| Entities.Entity.constructor | entities.py:122-145 | a new organism has the given faction, energy and strength, the role its roll selects, age 0, no mutations, an empty inventory, no shelter and no position |
| Entities.Entity.GetPower | entities.py:147-151 | energy plus twice the strength, half as much again inside a shelter |
| Entities.Entity.CanBuild | entities.py:153-156 | a builder holding at least 1 ore and 2 misc, the guard of `BuildConstruction` and `BuildAt` |
| Entities.Entity.CanMine | entities.py:171-172 | exactly the miners, the guard of `ConsumeResource` for ore |
| Entities.Entity.CanReproduce | entities.py:203-206 | energy above 2.85, age above 1 and more than one tick since the last birth |
| Entities.Entity.BuildConstruction | entities.py:153-169 | a shelter is returned iff `can_build()` held; on success it is new, owned by the builder's faction, at the given position, health 100, ten seats, the builder its only occupant, and the builder spent 1 ore and 2 misc; on failure nothing changes |
| Entities.Entity.TransferToBuilder | entities.py:174-184 | succeeds iff the receiver is an allied builder; on success the sender's positive stocks drop to zero and the receiver gains them; otherwise nothing changes; between two organisms each stock's sum is conserved |
| Entities.Entity.ConsumeResource | entities.py:186-193 | a non-miner gains nothing from ore; otherwise ore and misc go to the inventory (food does not) and energy and strength grow by `amount * factor` |
| Entities.Entity.TransferResources | entities.py:195-201 | succeeds iff the two are allies and the sender holds at least `amount`; then exactly `amount` moves; otherwise nothing changes; each stock's sum is conserved |
| Entities.Entity.Reproduce | entities.py:208-221 | the child has the parent's faction, 0.4 of its energy and its strength, the role its draw selects; the parent keeps 0.6 and records its age; a mutation draw below 0.15 appends a tag and multiplies the matching child stat by 1.2; without an energy mutation child plus parent energy equals the old parent energy |
| Entities.Entity.Update | entities.py:223-225 | age grows by one and energy drops by 0.08, clamped at zero |
| Entities.IndexOf | entities.py:71 | the first position holding the organism, by identity |
| Entities.RemoveFirst | entities.py:71 | `list.remove` shortens the list by one and adds nothing |
| Entities.RemoveFirstSplice | entities.py:71 | `list.remove` is the splice around the first occurrence |
| Entities.RemoveFirstSplits | entities.py:71 | `list.remove` is that splice, takes exactly one copy of the organism out of the multiset, and shortens the list by one |
| Entities.SpliceCount | entities.py:71 | cutting one element out of a list takes exactly one copy of it out of its multiset |
| Entities.Normals | entities.py:90 | the normal occupants: exactly the normal members of the list |
| Entities.Specials | entities.py:91 | the specialists: exactly the non-normal members of the list |
| Entities.NormalsOfNormals | world.py:423 | filtering a list of normal organisms keeps all of them, in order |
| Entities.PartitionSize | entities.py:90-91 | the normal and special lists split the occupants between them |
| Entities.EvictShrinks | entities.py:66-73 | repeated `remove_occupant` only shrinks the list and adds nobody |
| Entities.EvictAllLeavesSpecialists | entities.py:80-83 | evicting every occupant of a destroyed shelter removes all normal organisms but can leave up to two specialists seated |
| Entities.EvictBound | entities.py:66-73 | the induction behind the previous row: what stays is a specialist met while at most two remained |
| Entities.EvictAbsent | entities.py:67 | `remove_occupant` on organisms that are not seated changes nothing and clears no flag |
| Entities.EvictSnoc | entities.py:81-83 | calling `remove_occupant` on one more organism at the end of the list takes one more removal step |
| Entities.EvictPrefix | entities.py:81-83 | the first `m + 1` removals of a walk through the list are the first `m` followed by one more |
| Entities.LoneBuilderStays | entities.py:66-83 | a destroyed shelter seating only a builder keeps it seated with its flags, so the specialists left behind can be there |
| Entities.NormalsNoDuplicates | entities.py:90 | filtering out specialists keeps a list free of duplicates |
| Entities.WarBandRemovalIsNoOp | entities.py:96-99 | after the reassignment of the occupant list, the `remove_occupant` calls on the eight soldiers find none of them seated, so they keep their shelter flags |
| Entities.Construction.constructor | entities.py:45-56 | a new shelter has the given owner and position, health 100, ten seats, no occupants, cooldown 0 |
| Entities.Construction.HasRoom | entities.py:59 | fewer occupants than seats, the test `add_occupant` makes |
| Entities.Construction.AddOccupant | entities.py:58-64 | succeeds iff a seat is free; on success appends the organism and sets its flags; on failure nothing changes; a shelter within capacity stays within it |
| Entities.Construction.RemoveOccupant | entities.py:66-73 | removes the first occurrence and clears its flags unless the organism is absent, or is a specialist with at most two seated; then it is a no-op; the others stay in order |
| Entities.Construction.RemoveEach | entities.py:81-83 | `remove_occupant` on each organism of a list in turn leaves `Evict` and clears exactly the flags of those taken out |
| Entities.Construction.TakeDamage | entities.py:75-84 | health drops by exactly the amount, and the result is `health <= 0`; while health stays positive nothing else changes; otherwise every occupant goes through `remove_occupant` |
| Entities.Construction.TryReproduce | entities.py:86-116 | fewer than two occupants, or full with fewer than eight normals, or below capacity with cooldown under 2: nothing changes, no energy, flag or draw included; full with at least eight normals: returns the first eight, keeps the specials followed by the remaining normals, and when the list has no duplicates the soldiers keep their shelter flags; below capacity with cooldown at least 2: the child with 1.2 times the parents' average stats and the role its draw selects is seated, sheltered in this shelter, the parents lose 10% (a parent drawn twice loses it twice), the other occupants keep their energy, no old occupant's flags change, the cooldown resets; capacity bound preserved |
| Entities.Construction.ReleaseBand | entities.py:88-101 | the war band is the first eight normal occupants; the occupants become the specialists followed by the remaining normals with the eight `remove_occupant` calls applied; exactly the soldiers those calls take out lose their flags; when the list has no duplicates nobody's flag changes |
| Entities.Construction.Procreate | entities.py:103-113 | two sampled parents; the child with 1.2 times their average energy and strength and the role its draw selects takes the new last seat, sheltered here; both parents keep 90% of their energy and every other occupant keeps its own; cooldown 0; three draws used |
| Entities.Construction.Update | entities.py:118-119 | the cooldown grows by one |
| Geometry.StepApproaches | world.py:400-418 | a step towards a different cell is one king move and strictly shortens both the king-move and the Manhattan distance |
| Geometry.Manhattan | world.py:357-358 | `manhattan_distance` is zero exactly on the same cell and lies between the king-move distance and twice it |
| Geometry.StepTowards | world.py:406-411 | the cell one step from the current towards the target: at most one king move, the current cell only on the target, never further away along either axis |
| WorldEngine.SeedKind | world.py:32-36 | faction 1 iff the roll is below p1, faction 2 iff it is in [p1, p1 + p2), empty otherwise |
| WorldEngine.Free | world.py:167-168 | the listed cells empty in the organism layer, exactly |
| WorldEngine.FreeIncreasing | world.py:167-168 | filtering a neighbour list kept in row-major order keeps it in that order |
| WorldEngine.Open | world.py:235-237 | the listed cells empty in both the organism and the shelter layer, exactly |
| WorldEngine.NoNewOreInRow | world.py:346-355 | a row whose every ore deposit was already there holds at most as much ore |
| WorldEngine.NoNewOreBounds | world.py:346-355 | a layer whose every ore deposit was already there holds at most as much ore as before |
| WorldEngine.RemoveAtDrops | world.py:41-45 | dropping one candidate cell from a list without repeats drops exactly that cell |
| WorldEngine.RowCells | world.py:41-45 | the cells of a row, in order |
| WorldEngine.Cells | world.py:41-45 | every cell of the grid exactly once: the candidates the ore seeding draws from |
| WorldEngine.SeedCursor | world.py:30-36 | the draw index the organism seeding has reached before a cell, in row-major order: one draw per empty cell and two per seeded one; never before the start |
| WorldEngine.OreDraws | world.py:41-45 | the ore cells the draws select, each among the cells not yet chosen: exactly `n` of them when there are enough cells |
| WorldEngine.OreDrawsStep | world.py:41-45 | the first ore cell is the one the current draw selects, and the rest are drawn from the other cells |
| WorldEngine.OreDrawsWithin | world.py:41-45 | every ore cell drawn is one of the candidates |
| WorldEngine.OreDrawsAdvance | world.py:41-45 | after one more draw, the cells drawn so far plus those still to come are still the whole draw |
| WorldEngine.OreDrawsDistinct | world.py:44-45 | drawing from candidates without repeats never picks a cell twice, which the source ensures with its `not in` test |
| WorldEngine.DrawCells | world.py:41-45 | the drawing loop returns exactly the cells the draws select and uses one draw per cell |
| WorldEngine.Regrowth | world.py:348-355 | what an empty cell gets at a cursor: a deposit iff the food or the misc draw is below 0.1, never ore, with 1 to 3 units |
| WorldEngine.RegrowCursor | world.py:346-355 | the draw index `update_resources` has reached before a cell, in row-major order, occupied cells drawing nothing; never before the start |
| WorldEngine.Alive | world.py:435 | `army[:] = [s for s in army if s.energy > 0]`: exactly the living soldiers |
| WorldEngine.SurvivorsKeep | world.py:433-439 | every band with at least four living soldiers is kept, as its living soldiers |
| WorldEngine.SurvivorsSound | world.py:433-439 | every kept band is the living soldiers of some given band with at least four of them |
| WorldEngine.SurvivorsLive | world.py:433-439 | every kept band has at least four soldiers, all alive, each from one of the given bands |
| WorldEngine.SurvivorsAppend | world.py:433-439 | thinning two lists of bands one after the other is thinning their concatenation: the order of the bands is kept |
| WorldEngine.DefendsSnoc | world.py:132-134 | recording one more defender with its shelter extends the defender list by that pair |
| WorldEngine.PopLast | world.py:131 | popping the last position leaves every other position in the list |
| WorldEngine.World.constructor | world.py:7-26 | a valid world of the given size with zero counters, empty stocks, empty army lists and no shelters, seeded as `initialize_world` does: every cell holds the organism its draw selects or nothing, and exactly `size * size / 20` distinct cells hold ore, the cells the later draws select; requires that p1 + p2 is at most one (main.py:63-64) |
| WorldEngine.World.InitializeWorld | world.py:28-46 | every cell holds a fresh organism of the faction its own draw selects (energy 2, strength 1, the role the following draw selects, empty inventory, unsheltered) or nothing; then exactly `size * size / 20` distinct cells, the ones the next draws select, hold an ore deposit of 3 units and every other cell none |
| WorldEngine.World.SeedOrganisms | world.py:30-36 | every cell is seeded as the draw at its cursor selects, with fresh organisms; the cursor ends where the seeding cursor function says |
| WorldEngine.World.SeedRow | world.py:31-36 | one row seeded as the draws at its cursors select; later rows still empty; the cursor moves to the next row's start |
| WorldEngine.World.SeedCell | world.py:32-36 | the roll is the current draw; the cell gets an organism iff the roll selects a faction, of that faction, with the role the next draw selects, energy 2, strength 1 and empty state; one or two draws used; no other cell changes |
| WorldEngine.World.SeedOre | world.py:38-46 | exactly `size * size / 20` distinct in-grid cells get an ore deposit, every other cell none |
| WorldEngine.World.PickOreCells | world.py:39-45 | the ore cells are the ones the draws select among all cells: exactly `size * size / 20` distinct in-grid cells, one draw each |
| WorldEngine.World.LayOre | world.py:45-46 | each chosen cell gets an ore deposit of 3 units and every other cell none |
| WorldEngine.World.GetNeighbors | world.py:48-57 | exactly the in-grid cells at king-move distance one, strictly increasing in row-major order (so no repeats and not the cell itself), at most eight |
| WorldEngine.World.NeighborRow | world.py:51-56 | one `dx` row of neighbours appended to those of the rows above, keeping the order |
| WorldEngine.World.MoveTowards | world.py:400-418 | the result is the current cell or the step towards the target; the step is taken exactly when it lands inside the grid on a cell empty in the organism layer |
| WorldEngine.World.CellAction | world.py:371-396 | a cell offers attack iff an enemy owns a shelter there; else mate iff an ally able to reproduce stands there and the organism can reproduce; else shelter iff an allied shelter has room; else nothing |
| WorldEngine.World.FindNearestTarget | world.py:360-398 | `None` iff no cell within `max_distance` offers an action; otherwise the offering cell and its action, at minimal Manhattan distance, the first in row-major order among the nearest |
| WorldEngine.World.ScanRow | world.py:365-398 | one row of the scan: from the best target of the rows above, the best target of the rows up to this one, still the nearest offering cell and the first in row-major order among equally near ones |
| WorldEngine.World.CountEntities | world.py:59-97 | each faction's counters become its organisms on the grid plus its shelters' occupants, its shelter count, and the ore and misc of all those organisms; shelters not owned by faction 1 count for faction 2 |
| WorldEngine.World.Census | world.py:68-97 | the two loops together give each faction's organism tally plus its shelter tally |
| WorldEngine.World.TallyOrganisms | world.py:68-80 | the first loop's tallies are the organism-layer totals of each faction |
| WorldEngine.World.TallyOrganismRow | world.py:69-80 | one row of the first loop |
| WorldEngine.World.TallyShelters | world.py:82-97 | the second loop's tallies are the shelter-layer totals of each faction, occupants included |
| WorldEngine.World.TallyShelterRow | world.py:83-97 | one row of the second loop |
| WorldEngine.World.TallyStock | world.py:89-91 | the ore and misc carried by the occupants of a shelter |
| WorldEngine.World.StoreCounters | world.py:61-66 | the counters hold the given tallies |
| WorldEngine.World.Snapshot | world.py:355 | a copy of the deposit layer, cell for cell |
| WorldEngine.World.UpdateResources | world.py:346-355 | cells holding a deposit keep it and draw nothing; every empty cell, in row-major order at its own cursor, gets food when its first draw is below 0.1, else misc when its second is, else stays empty; never ore; the cursor ends after the last cell's draws |
| WorldEngine.World.RegrowRow | world.py:347-355 | one row of `update_resources` at its cursors; no other row changes |
| WorldEngine.World.RegrowCell | world.py:348-355 | one cell: an occupied cell keeps its deposit and draws nothing, an empty one gets what its draws select; no other cell changes |
| WorldEngine.World.RegrowStep | world.py:348-355 | one cell of a row at its cursor: the earlier cells of the row stay regrown, this cell becomes what its draws give, the later cells are untouched and the cursor moves past this cell's draws; other rows keep their deposits |
| WorldEngine.World.Consume | world.py:143-146 | the deposit under the organism is removed; a non-miner gains nothing from ore, otherwise the organism gains the deposit's amount in stock (ore or misc) and amount times each factor in energy and strength; with no deposit nothing changes; no other cell changes |
| WorldEngine.World.Hit | world.py:115 | the shelter loses exactly the damage and reports whether its health is gone; while it holds, the occupants stay |
| WorldEngine.World.ClearIfDestroyed | world.py:139-141 | a shelter with no health left leaves the shelter layer; nothing else changes |
| WorldEngine.World.Deploy | world.py:132-134 | one defender goes through `remove_occupant` and onto the chosen buffer cell; no other buffer cell changes |
| WorldEngine.World.Evacuate | world.py:119-137 | the defenders recorded are the first occupants in seat order, each paired with the shelter, and exactly those went through `remove_occupant`; fewer than all leave only when every neighbour empty in the organism layer and the buffer is filled; defenders land only on such cells; no shelter flag is raised |
| WorldEngine.World.Sortie | world.py:128-137 | after the shuffle, the first occupants in seat order come out one per free cell, each recorded with the shelter, until the cells or the occupants run out |
| WorldEngine.World.DeployLast | world.py:130-134 | the last free cell is popped and one defender goes through `remove_occupant` and onto it |
| WorldEngine.World.SortieRound | world.py:129-134 | one defender: it goes through `remove_occupant`, takes the last free cell, and the defenders recorded are still the first occupants in seat order; it lands only on a free cell and no shelter flag is raised |
| WorldEngine.World.Assault | world.py:112-141 | the shelter loses a fifth of the attacker's power and leaves the layer iff its health is gone; while it stands, the first occupants in seat order come out as in `Evacuate`, until the free neighbour cells run out; defenders land only on neighbour cells empty in the organism layer and the buffer |
| WorldEngine.World.Defend | world.py:118-141 | after the hit: the first occupants in seat order come out as defenders, as in `Evacuate`, and the shelter leaves the layer iff its health is gone; no other shelter cell changes |
| WorldEngine.World.AttackAdjacent | world.py:111-141 | every adjacent enemy shelter loses a fifth of the attacker's power; shelters are only ever removed, and only next to the attacker; the buffer only gains defenders on cells empty in the organism layer and the buffer |
| WorldEngine.World.AttackAround | world.py:111-141 | the same as `AttackAdjacent`, given the neighbour list; distinct neighbour cells hold distinct shelters |
| WorldEngine.World.Bombard | world.py:111-141 | over the neighbour cells and the shelters on them: every adjacent enemy shelter loses a fifth of the attacker's power, and only neighbour cells can lose their shelter |
| WorldEngine.World.Onslaught | world.py:111-141 | the loop over the neighbours: each enemy shelter among them loses a fifth of the attacker's power, and only those cells can lose their shelter |
| WorldEngine.World.Besiege | world.py:112-141 | one neighbour: an enemy shelter there loses a fifth of the attacker's power, the other neighbours' shelters keep their health, and the attacker's power does not change |
| WorldEngine.World.Seat | world.py:177 | `add_occupant` inside the world: seated iff the shelter has room, else nothing changes |
| WorldEngine.World.Raid | world.py:154-161 | a targeted shelter loses a fifth of the attacker's power and is removed iff its health is gone; no other shelter changes |
| WorldEngine.World.MateNear | world.py:163-172 | no child iff the partner is missing, either cannot reproduce, or no neighbour is empty in the current layer, and then the parent's energy, last birth and the draws are untouched; otherwise a fresh child of the faction lands on such a neighbour of the buffer, with the stats, role and tags `reproduce` gives it, the parent keeps 60% of its energy and records its age as its last birth (`Offspring`); no other buffer cell changes |
| WorldEngine.World.Brood | world.py:167-171 | no child iff every neighbour is taken in the current layer, and then nothing changes; otherwise the child lands on a neighbour empty in the current layer, as `Offspring` describes |
| WorldEngine.World.Litter | world.py:170-171 | the drawn cell of the list receives a fresh child of `reproduce`, as `Offspring` describes; no other buffer cell changes |
| WorldEngine.World.Engage | world.py:151-178 | the organism takes a seat iff the target is a shelter with room within distance one and the action is shelter, and it is then an occupant; a near attack takes a fifth of the attacker's power and removes the shelter iff its health is gone, and otherwise no shelter changes; a near mate produces a child iff the partner is there, both can reproduce and a neighbour is empty, the child being fresh, of the faction, on such a neighbour, with parent and child as `Offspring` describes; without a child the organism's energy, last birth and the draws are untouched; only that buffer cell changes |
| WorldEngine.World.Pursue | world.py:151-184 | the organism is seated iff the target seats it; the turn ends iff it was seated or `move_towards` moved it, and then it is sheltered or in the buffer on the step cell |
| WorldEngine.World.Wander | world.py:186-195 | the organism lands on a neighbour empty in the current layer iff the draw is below 0.2 and such a neighbour exists; otherwise it stays; only its cell of the buffer changes |
| WorldEngine.World.ActAt | world.py:106-195 | an empty cell or sheltered organism changes nothing; otherwise the deposit under it is gone, it ends sheltered or in the buffer on its own cell or on a neighbour empty in the current layer, shelters are only removed, and other deposits stay |
| WorldEngine.World.Advance | world.py:148-195 | after choosing a target the organism ends sheltered, or in the buffer on its own cell or on a neighbour empty in the current layer; shelters are only removed |
| WorldEngine.World.Head | world.py:151-195 | the organism is seated (and sheltered) exactly when the target seats it; otherwise it lands in the buffer on the step towards the target when that moves it, else on its own cell or a free neighbour; with no target it stays exactly when the draw is at least 0.2 or no neighbour is free |
| WorldEngine.World.MovePhase | world.py:103-195 | the first phase over all cells: shelters only removed, deposits only consumed, the defenders recorded belong to the world |
| WorldEngine.World.MoveRow | world.py:105-195 | one row of the first phase, with the same guarantees |
| WorldEngine.World.Strike | world.py:205-210 | exactly the neighbours of the other faction with strictly lower power are cleared; equal power is no casualty; nothing else changes |
| WorldEngine.World.Breed | world.py:212-218 | no child iff the organism cannot reproduce or no neighbour is empty in the buffer, and then its energy, last birth and the draws are untouched; otherwise a fresh child of its faction fills such a cell, with the stats, role and tags `reproduce` gives it, and the parent keeps 60% of its energy and records its age as its last birth (`Offspring`); no other cell changes |
| WorldEngine.World.Hatch | world.py:217-218 | the child of `reproduce` fills the chosen buffer cell and no other cell changes; as `Offspring` states, the child has 40% of the parent's energy and its strength (one of them times 1.2 on an energy or strength mutation), the role and tags its draws select, and no stock or shelter; the parent keeps 60% of its energy and records its age as its last birth |
| WorldEngine.World.CombatPhase | world.py:197-218 | every cell of the buffer keeps its organism, is cleared, or holds a newborn: nobody changes cell |
| WorldEngine.World.Unseat | world.py:255 | `remove_occupant` inside the world |
| WorldEngine.World.PlaceFirst | world.py:257-260 | the occupant goes to the first cell of the list empty in the organism layer, if any; nothing else changes |
| WorldEngine.World.Alarm | world.py:246-260 | with no enemy around the shelter nothing changes; otherwise every occupant goes through `remove_occupant`, leaving at most two specialists, and the k-th occupant lands on the k-th neighbour empty in the organism layer, in neighbour order, while the rest of those cells stay empty |
| WorldEngine.World.Disperse | world.py:254-260 | the occupant loop of the alarm: the list becomes `Evict` of all occupants, exactly the removed ones have their flags cleared, and, for an increasing neighbour list, the k-th occupant lands on the k-th neighbour cell empty in the organism layer while the rest of those cells stay empty; other cells keep their organisms |
| WorldEngine.World.AlarmRound | world.py:254-260 | one occupant goes through `remove_occupant` and onto the next empty neighbour, keeping the placement so far |
| WorldEngine.World.PlaceNext | world.py:257-260 | the next occupant takes the next empty neighbour in order |
| WorldEngine.World.BuildAt | world.py:233-243 | a shelter is built iff the organism can build and at least three neighbours are empty in the organism and the shelter layer; it is new, on the builder's cell, owned by its faction, and seats only the builder, which spent 1 ore and 2 misc and is now sheltered in it; no other shelter changes, and no other organism's stock or flags |
| WorldEngine.World.Raise | world.py:239-260 | the builder's new shelter enters the layer at its cell with the builder seated alone, even after the alarm; the builder spent 1 ore and 2 misc; without the alarm, or with no enemy on a neighbour cell, the organism layer is unchanged; with both, the builder is also put on the first neighbour cell empty in the organism layer and the other empty neighbour cells stay empty |
| WorldEngine.World.Found | world.py:239-241 | the new shelter, with health 100, enters the layer at the builder's cell with the builder as its only occupant, now sheltered in it; the builder spent 1 ore and 2 misc; no other cell changes |
| WorldEngine.World.BuildPass | world.py:262-274 | every cell either keeps its shelter or gains a new one owned by the faction of the organism there |
| WorldEngine.World.BuildRow | world.py:263-274 | one row of a build pass, with the same guarantee |
| WorldEngine.World.Seek | world.py:281-287 | the neighbour loop of the shelter step: no seat iff no allied neighbour shelter has room; otherwise the organism is seated in the first such shelter in neighbour order, with its flags set, and no other shelter's occupants change |
| WorldEngine.World.EnterAt | world.py:277-287 | an unsheltered organism is seated in the first allied neighbour shelter with room, in neighbour order, and leaves the layer; no seat iff there is no such shelter; every other shelter keeps its occupants and every other organism its flags |
| WorldEngine.World.ShelterPass | world.py:276-287 | the organism layer only loses organisms |
| WorldEngine.World.DeliverAt | world.py:290-305 | a miner with ore or misc hands its whole stock to the first allied builder among its neighbours; no handover iff there is none, and then no stock changes; each stock's sum is conserved, and no third organism's stock changes |
| WorldEngine.World.DeliverPass | world.py:289-305 | the delivery pass over all cells keeps the world valid |
| WorldEngine.World.ReturnOne | world.py:308-321 | a defender returns iff it is outside, its shelter has health and room, and it stands next to the shelter; it then leaves the first such cell and is seated; else the occupants, the defender's flags and the layer do not change |
| WorldEngine.World.ReturnPass | world.py:307-321 | the organism layer only loses organisms |
| WorldEngine.World.RecruitRowEligible | world.py:331-337 | every recruit of a row belongs to the world and is a normal, unsheltered organism of the faction |
| WorldEngine.World.RecruitsEligible | world.py:328-337 | every recruit of the scan belongs to the world and is a normal, unsheltered organism of the faction |
| WorldEngine.World.Enlist | world.py:328-337 | the recruits are the eligible organisms in row-major order, each recording its cell as its position |
| WorldEngine.World.EnlistRow | world.py:330-337 | one row of the scan; nobody else's position changes |
| WorldEngine.World.FormArmy | world.py:420-428 | a new band is appended for the first warrior's faction iff at least eight of the given organisms are normal; the band is exactly those warriors |
| WorldEngine.World.FormArmies | world.py:327-341 | each faction gains the band of its first ten recruits iff it has at least ten, and nothing otherwise |
| WorldEngine.World.FormTeam | world.py:328-341 | one faction's recruiting and band forming; the other faction's armies do not change |
| WorldEngine.World.Band | world.py:339-341 | ten normal recruits become one new band of their faction |
| WorldEngine.World.NearestEnemy | world.py:441-452 | `None` iff no enemy stands on the grid; otherwise an enemy cell at minimal Manhattan distance, the first in row-major order among the nearest (what `min` returns) |
| WorldEngine.World.StepSoldier | world.py:455-462 | a soldier without a position stays; otherwise when `move_towards` moves it, its old cell is cleared, it stands on the new cell and records it; nothing else changes |
| WorldEngine.World.March | world.py:455-462 | every soldier steps in turn; the world stays valid |
| WorldEngine.Survivors | world.py:433-439 | the bands whose living soldiers number at least four, each cut down to those soldiers, in band order; never more bands than given |
| WorldEngine.World.UpdateTeam | world.py:432-462 | the faction's bands become its surviving bands, each with at least four living soldiers |
| WorldEngine.World.Regroup | world.py:435-438 | the army list is replaced by the surviving bands |
| WorldEngine.World.Campaign | world.py:441-462 | a kept band marches on the nearest enemy; the world stays valid |
| WorldEngine.World.Campaigns | world.py:433-462 | the kept bands march in order; the world stays valid |
| WorldEngine.World.UpdateArmies | world.py:430-462 | each faction's list of bands becomes the survivors of its old list; afterwards every band has at least four living soldiers |
| WorldEngine.World.Update | world.py:99-344 | one tick keeps the world valid and deposits non-negative, the ore lying on the map never grows, and afterwards every band has at least four living soldiers |
| WorldEngine.World.Finish | world.py:223-344 | the shelter part and the armies; every band then has at least four living soldiers |
| WorldEngine.World.Warfare | world.py:323-344 | the counters are the census of the layers as they stood, and each faction's bands are the survivors of its old bands plus the band its first ten recruits form; every band then has at least four living soldiers |
| WorldEngine.World.Recount | world.py:323-324 | the counters become the census of the layers, and the bands that will be formed and kept do not change |
| WorldEngine.World.Mobilize | world.py:326-344 | each faction's bands become the survivors of its bands plus the band its first ten recruits form; the counters do not change |
| WorldEngine.World.Turn | world.py:99-221 | the two phases and regrowth: the organism layer is replaced by a fresh one and the ore lying on the map does not grow |
| WorldEngine.World.Regrow | world.py:221 | `update_resources` at the end of a tick keeps the world valid and every deposit non-negative, and the ore lying on the map does not grow |
| WorldEngine.World.Act | world.py:99-220 | the two phases on a fresh buffer that then replaces the organism layer; deposits only consumed |
| WorldEngine.World.Swap | world.py:220 | the buffer becomes the organism layer |
| WorldEngine.World.Settle | world.py:223-321 | build, build, shelter, deliver, return; shelters added are new |

## Left out

- Printing, the visualization, the Tk configuration dialog and the main
  loop are not part of this model. `main.py` contributes only the
  requirement that the two seeding probabilities add up to at most one,
  which becomes the world constructor's precondition.
- Floating point: energy, strength, power and health are `real`, so there
  is no rounding. `int(size * size * 0.05)` is modelled as
  `size * size / 20`.
- Distributions are not modelled. Every random value is an oracle draw,
  and the contracts speak about the threshold each draw is compared with.
- `EntityType.EMPTY` is never given to an organism or a shelter, so the
  model has two factions; an empty cell is `null`.
- `Resource.create_ore` is the function `CreateOre`. It has no contract of
  its own; `InitializeWorld` and `SeedOre` state what it produces.
- The ore seeding at world.py:41-46 draws cells with replacement until it
  finds enough distinct ones. The model draws each deposit among the cells
  not yet chosen. This reaches the same layouts and always terminates;
  the number of rejected draws is not modelled. The source also takes two
  `randint` draws per attempt, one per coordinate (world.py:42-43), where
  the model takes one draw per deposit (`DrawCells`).
- The threat block at world.py:246-260 reads a `construction` variable that
  can be stale or `None` (the crash is not modelled). The model runs it only
  right after a shelter was built in the first build pass, on that shelter
  (`Alarm`). It does not model the cases where the builder did not build:
  the stale shelter of an earlier cell, or the crash.
- The miner-ore check at world.py:228-231 only prints, so it is left out.
- `transfer_resources` with food between two allies would raise a
  `KeyError` in the source (between different factions the faction test
  fails first and nothing is looked up), so `TransferResources` requires a
  stock kind other than food for allies. The engine never calls it.
- `Entity.update`, `Construction.update` and `Construction.try_reproduce`
  are modelled but never called by `update`, as in the source. So organisms
  stay at age 0 during a simulation.
- Organisms in the source can be referenced from two cells at once: builders
  stay on the grid when seated, `Alarm` may place a seated specialist, and a
  mate's child can overwrite a buffer cell. The model keeps all of these;
  `Valid` does not claim that an organism appears once.
- `can_reproduce` needs an age above 1, and nothing in the tick ages an
  organism. So in a running simulation the mating and breeding branches
  never fire. The model keeps them and states what they do; it does not
  prove that they are dead.
- WorldEngine.World.Update: does not state the counters; `CountEntities`
  states them in terms of the layers just before it runs.
- WorldEngine.World.Update: the source's "ore never increases" is proved
  for the ore lying on the map (`OreLying`), not for ore carried in
  inventories or stored in shelters; mining, delivery and building move
  ore between those places one organism at a time, and `ConsumeResource`,
  `TransferToBuilder` and `BuildConstruction` state each move.
- WorldEngine.World.Finish: states validity and the band bound only; its
  two halves run on different states, and `Settle`'s passes and `Warfare`
  (the counters and the new bands) state what each does.
- WorldEngine.World.Turn: states the fresh layer and the map-ore bound
  only; `Act` and `UpdateResources` state their effects on the state each
  starts from.
- WorldEngine.World.Act: states the fresh layer and that deposits are only
  consumed; `MovePhase` and `CombatPhase` run on the intermediate buffer,
  and `ActAt`, `Strike` and `Breed` state each cell's step.
- WorldEngine.World.Settle: states that added shelters are new only; its
  five passes run one after another on intermediate states, and
  `BuildAt`, `Raise`, `Found`, `Alarm`, `EnterAt`, `DeliverAt` and `ReturnOne`
  state each step.
- WorldEngine.World.DeliverPass: states only that the world stays valid;
  `DeliverAt` states what each delivery does and that it conserves stocks.
- WorldEngine.World.March: states only that the world stays valid;
  `StepSoldier` states each soldier's step.
- WorldEngine.World.Campaign: states only that the world stays valid;
  `NearestEnemy` and `StepSoldier` state the target and the steps.
- WorldEngine.World.Campaigns: states only that the world stays valid;
  `Campaign` states each band's march.
- WorldEngine.World.ShelterPass: states only that the organism layer loses
  organisms; `EnterAt` states each cell's step.
- WorldEngine.World.ReturnPass: states only that the organism layer loses
  organisms; `ReturnOne` states each defender's return.
- WorldEngine.World.MovePhase: states what can happen to the shelter and
  deposit layers, not the final buffer; `ActAt` states each cell's move.
- WorldEngine.World.MoveRow: states what can happen to the shelter and
  deposit layers, not the final buffer; each cell moves on the buffer
  the earlier cells left, and `ActAt` states each cell's move: the
  resources it consumes, where the organism ends up and the children it
  places.
- WorldEngine.World.CombatPhase: does not tie a cleared cell to a stronger
  adjacent enemy; the pass clears and breeds cell by cell, so the powers
  and the buffer change under it, and `Strike` states each clearing (exactly
  the neighbours the striking organism `Beats` are removed) while `Breed`
  states each birth.
- WorldEngine.World.BuildPass: does not state which shelters are built;
  each build takes free cells from the later builders' neighbourhoods and
  an alarm can place an evicted builder on a later cell, and `BuildAt`, `Found` and `Alarm` state each cell's step.
- WorldEngine.World.BuildRow: does not state which shelters are built, for
  the same reason as `BuildPass`; `BuildAt` states each cell's step.
- WorldEngine.World.Enlist: does not state that organisms other than the
  recruits keep their position; `EnlistRow` states it row by row.
- WorldEngine.World.UpdateTeam: thins every band before any band marches,
  where the source thins and marches band by band. Marching changes
  positions and the organism layer but no energy, so the bands and the
  marches are the same.
- The source removes a dissolved band with `list.remove(army)`, which
  removes the first equal band. Every band kept before it has at least four
  soldiers and it has fewer, so the model removes that band itself.
