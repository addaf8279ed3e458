# ParticleManager particle pool, in Dafny

This project models the particle pool of `ParticleManager`, a Direct3D particle demo with rain, rain splashes and fire.

**The pool.** It is one fixed array of `Particle` records, `m_particleList`, with 10000 slots. Each record carries one `next` link, so the array is threaded into four intrusive singly-linked lists:

- the free list;
- the general list, which holds the splash rings;
- the rain list;
- the fire list.

**What happens each frame.** Every frame:

1. kills expired particles and recycles rain drops that reached the ground;
2. spawns new fire particles;
3. moves every particle;
4. flattens the three active lists into the instance array the renderer draws.

**How the model is built.** It follows the C++ code's own form:

- `ParticleManager` is a class. Its fields are the pool (`array<Particle>`), the instance array (`array<Instance>`), the four head indices and the two counters.
- A link is a slot index, with `-1` (`Null`) for the null pointer.
- Every operation that relinks or rewrites records is a `method` with `modifies` clauses. Its `while` loops walk the lists exactly as the C++ loops do.
- Next to the heads, the class keeps each list's contents as a ghost `seq<int>`.
- `Linked` ties the lists to the links: every list chains from its head through the array to `Null`, and every slot is on exactly one list.
- `Valid` is the invariant between frames. It is `Linked`, plus the rain and fire lists staying ordered by Z after their head, plus the fire counter equal to the fire list's length. The general list is left out of the Z-order part, because motion does not keep it ordered (see "## Left out").

**How the properties are proved.** Each pass is specified by a function of the list contents and the records before it:

- `Alive` and `Casualties` give a kill pass's survivors and the order in which it frees the others;
- `PushAll` and `ReturnAll` give the free list after a kill pass;
- `AfterFirePass` gives the records after the fire pass;
- `InsertPos` and `Spliced` give where PlaceNodeInZSortedList inserts a node;
- `Loads` and `Spawned` give the records and the count of a run of spawns;
- `FrameMotion` gives one frame of motion;
- `Filled` gives the instance array after the fill.

The lemmas of the value modules (`Chains`, `ZOrder`, `Lifecycle`, `Moves`, `Spawning`, `Splash`, `Motion`, `Layout`) prove what the code promises about those functions. The methods' loop invariants are predicates of the same modules (`PushPass`, `ReturnPass`, `RainPass`, `SpawnPass`).

**Inputs and types.**

- Random integers and the ring directions' cosines and sines are method parameters, bounded as at their call sites.
- C++ floats are `real`.
- The configuration values that InitializeParticleSystem assigns are constants in module `Settings`.

## Model

| member | source | states |
|---|---|---|
| Particles.Moved | ParticleManager.cpp:563-571 | Only the position changes, by velocity times frame time; an axis with zero velocity keeps its coordinate, and a zero-length frame changes nothing |
| Particles.GeneralStep | ParticleManager.cpp:513-536 | A general particle never ends its frame below the ground, ages by exactly one frame, and keeps its link and colour |
| Particles.RainStep | ParticleManager.cpp:540-548 | A rain drop gains gravity times frame time in Y velocity on every frame, keeps its X and Z velocity, its lifetime and its link |
| Particles.FireStep | ParticleManager.cpp:550-560 | A fire particle feels no gravity (its velocity is unchanged), ages by one frame, keeps link and colour, and with no Z velocity keeps its Z |
| Particles.Recycled | ParticleManager.cpp:620-627 | A drop below the ground returns to the spawn height with the spawn Y velocity and keeps X, Z, lifetime and link; a drop not below the ground is untouched |
| Particles.Smoked | ParticleManager.cpp:658-664 | Below the smoke lifetime the colour becomes (0.1, 0.1, 0.1) and nothing else changes; otherwise the record is untouched |
| Particles.Truncate | ParticleManager.cpp:862 | The C++ `(int)` cast: the integer within one of the real on the side of zero |
| Chains.Iota | ParticleManager.cpp:232-239 | The slot indices 0 .. n-1 in index order |
| Chains.IotaChain | ParticleManager.cpp:232-239 | Records linking slot k to k + 1 and ending the last slot with null form one chain over every slot in index order, starting at slot 0 |
| Chains.IotaCount | ParticleManager.cpp:227-239 | Every slot of the pool is counted exactly once on the initial free list, and nothing outside the pool is |
| Chains.PartitionDistinct | ParticleManager.h:14-22 | With every slot on exactly one list, no list repeats a slot |
| Chains.Disjoint | ParticleManager.h:37-41 | The four lists share no slot and hold only slots of the pool |
| Chains.PartitionSize | ParticleManager.h:96-102 | The four lists together hold exactly the pool's slots |
| Chains.PartitionCovers | ParticleManager.h:96-102 | Every slot of the backing array is on one of the four lists |
| Chains.ChainFrame | ParticleManager.cpp:511-561 | Rewriting a record off the chain, or without touching its link, leaves the chain intact |
| Chains.ThreadedFrame | ParticleManager.cpp:511-561 | Rewriting one record without touching its link keeps all four chains and the partition |
| Chains.ChainKept | ParticleManager.cpp:511-561 | Records that keep the links of the chain's slots keep the chain |
| Chains.ChainPop | ParticleManager.cpp:815-817 | Breaking off the free-list head leaves the chain that starts at its successor |
| Chains.ChainPush | ParticleManager.cpp:593-594 | A detached slot pointed at the old head becomes the new head of the chain |
| Chains.ChainUnlink | ParticleManager.cpp:588-590 | Giving the predecessor the link of the slot behind it removes exactly that slot from the chain |
| Chains.ChainSplice | ParticleManager.cpp:996-1000 | Taking the predecessor's link and then becoming its successor puts the detached slot right behind it |
| Chains.SpliceLinksChain | ParticleManager.cpp:979-1002 | Linking a detached slot in at position p gives the chain with the slot at p; into an empty list it becomes the head |
| Chains.SpliceLinksFrame | ParticleManager.cpp:979-1002 | The insertion rewrites only the inserted node and its predecessor, and only their links |
| Chains.InsertedInto | ParticleManager.cpp:972-1004 | After an insertion the other three lists still chain and every slot is on exactly one list again |
| ZOrder.ScanFrom | ParticleManager.cpp:987-1002 | The walk stops before the first later node strictly shallower than the new one, or at the end; every node it passes is at least as deep |
| ZOrder.InsertPos | ParticleManager.cpp:979-1002 | Position 0 in an empty list; otherwise never in front of the head, after every non-head node at least as deep, before the first shallower one |
| ZOrder.InsertPosUnique | ParticleManager.cpp:987-1002 | Any position meeting the walk's stopping condition is the insertion position |
| ZOrder.InsertKeepsTailOrder | ParticleManager.cpp:987-1002 | A list non-increasing in Z from its second node stays so after the insertion, equal depths going after existing ones |
| ZOrder.HeadIsNeverDisplaced | ParticleManager.cpp:987-1002 | A non-empty list keeps its head |
| ZOrder.Placed | ParticleManager.cpp:972-1004 | Linking the detached node in keeps the partition and the other chains, changes only links, and keeps a list ordered after its head ordered |
| ZOrder.PlacedAmong | ParticleManager.h:128-133 | The same for the list chosen by `headNode`; the other two active lists and their heads are unchanged |
| ZOrder.SettledPlaced | ParticleManager.h:128-133 | A node with no Z velocity inserted in Z order leaves a Z-ordered list of such nodes Z-ordered |
| ZOrder.SettledKept | ParticleManager.cpp:540-560 | Records that keep their Z position and Z velocity keep a Z-ordered list Z-ordered |
| Lifecycle.Alive | ParticleManager.cpp:578-609 | The survivors of a kill pass: no expired particle, slots of the list only |
| Lifecycle.Dead | ParticleManager.cpp:578-609 | The slots a kill pass removes: every one has expired |
| Lifecycle.AliveDeadSplit | ParticleManager.cpp:584-599 | Every slot of the list goes to exactly one of survivors and removed |
| Lifecycle.AliveWithin | ParticleManager.cpp:584-599 | A survivor is a slot of the list it came from |
| Lifecycle.AliveAppend | ParticleManager.cpp:584-599 | Filtering the list piece by piece is filtering the whole |
| Lifecycle.AliveStep | ParticleManager.cpp:586-598 | Checking one more node adds it to the survivors or to the removed, by its lifetime |
| Lifecycle.AliveHead | ParticleManager.cpp:601-609 | The head, checked last, is the first survivor or the last slot removed |
| Lifecycle.SurvivorsAndCasualties | ParticleManager.cpp:578-609 | A kill pass splits the list into survivors and casualties, losing and adding nothing |
| Lifecycle.CasualtiesExpired | ParticleManager.cpp:578-609 | Every slot a kill pass frees has expired |
| Lifecycle.AliveKeepsOrder | ParticleManager.cpp:584-599 | Removing slots keeps a Z-ordered list Z-ordered |
| Lifecycle.SurvivorsKeepTailOrder | ParticleManager.cpp:633-690 | Survivors of a list Z-ordered after its head stay Z-ordered after their head |
| Lifecycle.AliveFrame | ParticleManager.cpp:588 | Which particles survive depends only on their own lifetimes |
| Lifecycle.SurvivorsSettled | ParticleManager.cpp:633-690 | The fire survivors stay Z-ordered in records that keep every Z position and Z velocity |
| Lifecycle.ReverseSlots | ParticleManager.cpp:644-653 | Reversing the order of returned slots keeps the slots |
| Lifecycle.PushStep | ParticleManager.cpp:592-594 | Each push puts the slot on top of the free list; the free list gains exactly the pushed slots |
| Lifecycle.PushPassStart | ParticleManager.cpp:578-584 | Before the general walk nothing has been checked and nothing freed |
| Lifecycle.PushPassNext | ParticleManager.cpp:584-598 | The walk stands on the last survivor, whose link leads to the next unchecked node or to null |
| Lifecycle.PushPassDrop | ParticleManager.cpp:586-596 | An expired successor leaves the list, goes on top of the free list, and the walk stays |
| Lifecycle.PushPassKeep | ParticleManager.cpp:598 | A surviving successor becomes the node the walk stands on |
| Lifecycle.PushPassFinal | ParticleManager.cpp:584-599 | After the walk the list is the head and the survivors behind it; the free list has their casualties pushed in list order |
| Lifecycle.PushPassEnd | ParticleManager.cpp:601-609 | Checking the head completes the pass: the list is exactly the survivors, the free list has every casualty pushed, the head last |
| Lifecycle.AfterFirePass | ParticleManager.cpp:658-664 | The fire pass keeps every particle's lifetime, Z position and Z velocity |
| Lifecycle.FirePassKeepsDepth | ParticleManager.cpp:633-690 | No particle moves in depth during the fire pass |
| Lifecycle.ReturnPassStart | ParticleManager.cpp:633-636 | Before the fire walk nothing has been checked, freed or counted |
| Lifecycle.ReturnPassNext | ParticleManager.cpp:636-665 | The walk stands on the last survivor, linked to the next unchecked node, whose lifetime is as it was before the pass |
| Lifecycle.ReturnPassDrop | ParticleManager.cpp:638-657 | An expired successor leaves the list and goes behind the free-list head, and the counter drops by one |
| Lifecycle.ReturnPassKeep | ParticleManager.cpp:658-665 | A surviving successor may turn to smoke and becomes the node the walk stands on |
| Lifecycle.SmokedNext | ParticleManager.cpp:658-664 | Smoking the next survivor extends the fire pass's effect on the records by that one node |
| Lifecycle.ReturnPassFinal | ParticleManager.cpp:636-666 | After the walk: the head and the survivors behind it remain, their casualties are returned and counted, and the survivors have smoked |
| Lifecycle.ReturnPassEndDrop | ParticleManager.cpp:667-683 | An expired head is returned last: survivors, free list, counter and records are those of the whole pass |
| Lifecycle.ReturnPassEndKeep | ParticleManager.cpp:684-689 | A surviving head may smoke and stays: survivors, free list, counter and records are those of the whole pass |
| Lifecycle.SmokedHead | ParticleManager.cpp:684-689 | Smoking the surviving head completes the fire pass's effect on the records |
| Lifecycle.ReturnStep | ParticleManager.cpp:644-653 | Returning slots one at a time gives ReturnAll |
| Lifecycle.ReturnStepBehindHead | ParticleManager.cpp:644-648 | With a free-list head, each slot goes right behind it and the head stays |
| Lifecycle.ReturnStepAsHead | ParticleManager.cpp:649-653 | With an empty free list, the first returned slot becomes the head |
| Lifecycle.ReturnSlots | ParticleManager.cpp:644-653 | Returning loses no free slot and adds only the returned ones |
| Moves.Traded | ParticleManager.cpp:586-609 | Moving slots between one active list and the free list leaves the other two lists chained and the partition intact |
| Moves.UnlinkSuccessor | ParticleManager.cpp:588-590 | Unlinking the successor leaves the list without it, detaches it, and changes only the predecessor's link |
| Moves.UnlinkHead | ParticleManager.cpp:603-605 | The list then starts at the old head's successor; the head is detached, no record changes |
| Moves.PushDetached | ParticleManager.cpp:593-594 | Pushing the detached slot makes it the free-list head; the partition is restored and only links change |
| Moves.ReturnDetached | ParticleManager.cpp:644-653 | Returning the detached slot puts it behind the free-list head, or makes it the head of an empty free list; only links change |
| Moves.ReturnChain | ParticleManager.cpp:644-653 | The return rewrites only the links of the slot and of the free-list head |
| Moves.ReturnedSlots | ParticleManager.cpp:644-653 | A return adds exactly the one slot to the free list |
| Motion.Step | ParticleManager.cpp:511-560 | One frame keeps the link; rain and fire keep Z velocity; a general particle ends above ground; rain never ages, the others age by one frame |
| Motion.AdvancedAt | ParticleManager.cpp:511-560 | A loop over a list gives each of its slots one step and leaves every other slot alone |
| Motion.AdvancedSnoc | ParticleManager.cpp:515-537 | Advancing one more node of the walk is one more step on that node |
| Motion.AdvancedSettledSelf | ParticleManager.cpp:540-560 | The rain and fire loops keep their own list Z-ordered |
| Motion.AdvancedSettledOther | ParticleManager.cpp:511-561 | A loop leaves a list sharing no slot with it Z-ordered |
| Motion.FrameSteps | ParticleManager.cpp:511-561 | Over the frame, each slot of each active list takes its own list's step exactly once |
| Motion.FrameKeepsSettled | ParticleManager.cpp:511-561 | The frame keeps the rain and fire lists Z-ordered |
| Motion.FrameLifetimes | ParticleManager.cpp:511-561 | General particles end above ground and age; rain lifetimes are untouched; fire particles age |
| Motion.GeneralDepthStep | ParticleManager.cpp:515-536 | A general particle moves in Z by its full Z velocity over the frame, bounce or not |
| Motion.GeneralPairFlips | ParticleManager.cpp:563-571 | Two general particles whose Z velocities part them by more than their distance swap depth order in one frame |
| Spawning.LoadsAt | ParticleManager.cpp:815-829 | Each spawned slot holds its record (own alpha and link); every other slot is unchanged |
| Spawning.LoadsAppend | ParticleManager.cpp:803-838 | Two runs of spawns are one run over both |
| Spawning.LoadedPlaced | ParticleManager.cpp:831 | Loading a detached slot changes no depth on the list; a record with no Z velocity inserted in Z order keeps the list Z-ordered |
| Spawning.LoadsKeepSettled | ParticleManager.cpp:864-905 | Spawning into slots off a list keeps that list Z-ordered |
| Spawning.Spawned | ParticleManager.cpp:803-838 | A spawner places all requested particles unless the free list runs out first, then as many as were free |
| Spawning.RingDropMotion | ParticleManager.cpp:797-827 | A ring particle starts at the target, moves flat at 0.35 and is alive |
| Spawning.Ring | ParticleManager.cpp:803-812 | The ring has `count` particles, particle i heading in direction i |
| Spawning.FireSparkBounds | ParticleManager.cpp:846-875 | A fire particle starts in a 0.8 by 1.0 box at the target, rises at 1.5, never moves in Z, and lives 6 to 7.5 seconds |
| Spawning.Sparks | ParticleManager.cpp:862-875 | The fire effect has `(int)(150 * frameTime)` particles, one per draw |
| Spawning.RainDropInBox | ParticleManager.cpp:931-958 | A drop starts inside the rain box between ground and spawn height, falling straight down at the spawn velocity |
| Spawning.Drops | ParticleManager.cpp:931-940 | The rain effect has RainInstanceCount drops, one per draw |
| Spawning.SpawnStart | ParticleManager.cpp:803-813 | Before the spawn loop nothing is spawned |
| Spawning.SpawnStep | ParticleManager.cpp:813-831 | One round takes the free-list head, loads it and inserts it into the list |
| Spawning.SpawnKeepsOther | ParticleManager.cpp:864-905 | A run of spawns keeps any list holding none of the free slots Z-ordered |
| Splash.Splashes | ParticleManager.cpp:620 | The drops that splash are those below the ground |
| Splash.Rings | ParticleManager.cpp:623 | Each splash adds one ring of 8 particles |
| Splash.RainPassStart | ParticleManager.cpp:612-617 | Before the rain pass nothing has changed |
| Splash.RainPassAt | ParticleManager.cpp:618-630 | A drop the pass reaches keeps its X, Z and Z velocity; a drop already reset is above the ground |
| Splash.RainPassSkip | ParticleManager.cpp:629 | A drop above the ground is passed over unchanged |
| Splash.SplashesStep | ParticleManager.cpp:620-623 | One more splash adds one ring at the drop's X-Z position on the ground |
| Splash.RainPassRing | ParticleManager.cpp:623 | The ring takes the next slots of the old free list into the general list |
| Splash.RainPassReset | ParticleManager.cpp:625-627 | After its ring the drop is reset and the pass has dealt with one more drop |
| Splash.RainPassKeepsSettled | ParticleManager.cpp:612-631 | The rain pass moves nothing in depth outside the slots it fills, so the rain and fire lists stay Z-ordered |
| Splash.RainPassKeepsLife | ParticleManager.cpp:612-631 | Outside the slots it fills, the rain pass changes no lifetime |
| Splash.RainPassGrowsGeneral | ParticleManager.cpp:623 | The rain pass only adds to the general list |
| Splash.RainPassPayload | ParticleManager.cpp:612-631 | After the whole pass a slot outside the free list holds its old record, reset if it is a drop; the rest is left alone |
| Layout.Zeros | ParticleManager.cpp:704 | The zero fill: every entry cleared |
| Layout.Instances | ParticleManager.cpp:706-714 | One entry per node, in list order, with the node's position and colour |
| Layout.Overlay | ParticleManager.cpp:717-724 | Writing from an index changes exactly the entries written |
| Layout.SlotsAreBlocks | ParticleManager.cpp:703-738 | When everything fits: rain from 0, fire from RainInstanceCount, general right after fire, zeros elsewhere |
| Layout.FilledIsBlocks | ParticleManager.cpp:703-738 | With the rain within its block, the fill is those blocks end to end, none overwriting another |
| Layout.FillFits | ParticleManager.cpp:716-729 | With the rain block full, every rain, fire and general entry lies inside the instance array |
| Layout.OverrunWithoutRain | ParticleManager.cpp:716-729 | Without a full rain block that bound fails: an all-general pool would write past the end |
| Manager.ParticleManager.constructor | ParticleManager.cpp:195-240 | Every slot is free in index order from slot 0, the active lists are empty, the counters are zero, the instance array is cleared, and Valid holds |
| Manager.ParticleManager.ThreadFreeList | ParticleManager.cpp:235-239 | The loop links the whole pool into one chain in index order, changing only links |
| Manager.ParticleManager.StartRain | ParticleManager.cpp:58-62 | From the freshly built pool, starting the rain gives the full rain block of RainInstanceCount drops |
| Manager.ParticleManager.PopFree | ParticleManager.cpp:815-817 | Breaking off the free-list head detaches exactly that slot |
| Manager.ParticleManager.InsertSorted | ParticleManager.cpp:972-1004 | The node goes in at InsertPos with only its own and its predecessor's link changed; an empty list gets it as head |
| Manager.ParticleManager.FindPredecessor | ParticleManager.cpp:987-1002 | The walk stops on the node right before InsertPos |
| Manager.ParticleManager.PlaceNodeInZSortedList | ParticleManager.cpp:972-1004 | The chosen list gains the node at InsertPos, a non-empty list keeps its head, the other lists and all non-link fields are untouched, tail Z order is kept |
| Manager.ParticleManager.UpdateParticles | ParticleManager.cpp:511-561 | The records become FrameMotion of the old ones; links and Valid are kept |
| Manager.ParticleManager.AdvanceLists | ParticleManager.cpp:511-561 | The three loops in order give FrameMotion |
| Manager.ParticleManager.AdvanceList | ParticleManager.cpp:513-560 | One loop gives every node of its list one step and leaves all other records alone |
| Manager.ParticleManager.AdvanceWalk | ParticleManager.cpp:513-560 | The walk from the head to null advances exactly the list's nodes |
| Manager.ParticleManager.AdvanceSuccessor | ParticleManager.cpp:556-559 | One round advances the current node and moves to its successor |
| Manager.ParticleManager.AdvanceNode | ParticleManager.cpp:511-560 | The loop body changes exactly one record, by its list's step |
| Manager.ParticleManager.AdvanceGeneral | ParticleManager.cpp:515-536 | The general loop body: gravity while above ground, move, age, bounce |
| Manager.ParticleManager.MoveParticles | ParticleManager.cpp:563-571 | A null node changes nothing; otherwise only that node's position moves |
| Manager.ParticleManager.KillParticles | ParticleManager.cpp:574-693 | Valid holds again; rain keeps its drops; fire is exactly its survivors; general keeps all its survivors; every drop below the ground is back at the spawn height with the spawn fall speed, and every surviving fire particle below the smoke lifetime is smoke-coloured (KilledAs) |
| Manager.ParticleManager.GeneralPhase | ParticleManager.cpp:578-610 | The general list becomes its survivors, the casualties are pushed on the free list in check order, only links change, Valid is kept |
| Manager.ParticleManager.RainPhase | ParticleManager.cpp:611-631 | The whole rain pass (RainPass): drops below the ground reset, one 8-particle ring per splash loaded into the next free slots and moved to the general list; rain and fire keep their slots, fire lifetimes are kept, Valid is kept |
| Manager.ParticleManager.FirePhase | ParticleManager.cpp:632-691 | The fire list becomes its survivors, the casualties are returned behind the free-list head, the counter drops by one for each, survivors below the smoke lifetime turn to smoke, and Valid (Z order, counter) is kept |
| Manager.KilledRecords | ParticleManager.cpp:574-693 | Over the three passes, each drop ends reset as the rain pass resets it and each fire survivor ends smoked as the fire pass smokes it; the general pass changes no record |
| Manager.KilledDrops | ParticleManager.cpp:612-631 | Every drop of the rain list ends the three passes as its old record reset |
| Manager.KilledSparks | ParticleManager.cpp:658-689 | Every surviving fire particle ends the three passes as its old record smoked |
| Manager.KilledDrop | ParticleManager.cpp:620-627 | One drop: reset by the rain pass, untouched by the general and fire passes |
| Manager.KilledSpark | ParticleManager.cpp:658-664 | One fire survivor: untouched by the general and rain passes, smoked by the fire pass |
| Manager.FireLivesKept | ParticleManager.cpp:633-690 | The fire pass finds the same survivors as it would have before the general and rain passes, which change no fire lifetime |
| Manager.ParticleManager.KillGeneral | ParticleManager.cpp:578-610 | The list becomes its survivors, the casualties are pushed on the free list in check order, only links change |
| Manager.ParticleManager.KillGeneralHead | ParticleManager.cpp:601-609 | The head is checked last and pushed if expired |
| Manager.ParticleManager.KillGeneralWalk | ParticleManager.cpp:584-599 | The walk over the nodes after the head completes the PushPass |
| Manager.ParticleManager.KillRain | ParticleManager.cpp:611-631 | Every drop below ground splashes and is reset; rain and fire keep their slots |
| Manager.ParticleManager.KillRainWalk | ParticleManager.cpp:617-630 | The loop deals with every drop of the rain list |
| Manager.ParticleManager.RainWalkStep | ParticleManager.cpp:618-630 | A splash and reset re-checks the same drop (the `continue`); otherwise the walk moves on; progress is strict |
| Manager.ParticleManager.SplashDrop | ParticleManager.cpp:620-627 | The ring, then the reset to spawn height |
| Manager.ParticleManager.ResetDrop | ParticleManager.cpp:625-626 | Only that drop's Y and Y velocity change |
| Manager.ParticleManager.KillFire | ParticleManager.cpp:632-691 | Fire becomes its survivors, casualties are returned behind the free-list head, the counter drops by one per casualty, survivors may smoke |
| Manager.ParticleManager.KillFireHead | ParticleManager.cpp:667-690 | The head is checked last |
| Manager.ParticleManager.FireDropHead | ParticleManager.cpp:667-683 | An expired head is returned and counted |
| Manager.ParticleManager.FireKeepHead | ParticleManager.cpp:684-689 | A surviving head may smoke |
| Manager.ParticleManager.KillFireWalk | ParticleManager.cpp:636-666 | The walk completes the ReturnPass |
| Manager.ParticleManager.FireWalkStep | ParticleManager.cpp:638-665 | One round of the walk |
| Manager.ParticleManager.FireDropSuccessor | ParticleManager.cpp:638-657 | An expired successor is returned and counted; the walk stays |
| Manager.ParticleManager.FireKeepSuccessor | ParticleManager.cpp:658-665 | A surviving successor may smoke; the walk moves to it |
| Manager.ParticleManager.TurnToSmoke | ParticleManager.cpp:659-664 | Only that record changes, as Smoked says |
| Manager.ParticleManager.PushSuccessorToFree | ParticleManager.cpp:588-594 | The successor leaves the general list and becomes the free-list head |
| Manager.ParticleManager.PushHeadToFree | ParticleManager.cpp:603-608 | The expired head becomes the free-list head |
| Manager.ParticleManager.ReturnSuccessorToFree | ParticleManager.cpp:640-656 | The successor leaves the fire list and goes behind the free-list head; the counter drops by one |
| Manager.ParticleManager.ReturnHeadToFree | ParticleManager.cpp:669-683 | The expired fire head goes behind the free-list head; the counter drops by one |
| Manager.ParticleManager.ReturnNode | ParticleManager.cpp:644-653 | The detached slot is returned as ReturnAfterHead says, links only |
| Manager.ParticleManager.LinkBehindFreeHead | ParticleManager.cpp:644-653 | The two link writes |
| Manager.ParticleManager.Load | ParticleManager.cpp:819-829 | Only the loaded slot changes |
| Manager.ParticleManager.TakeLoaded | ParticleManager.cpp:815-829 | The free-list head is taken and loaded |
| Manager.ParticleManager.SpawnOne | ParticleManager.cpp:815-831 | The free-list head, loaded, goes into the chosen list at InsertPos; other lists are unchanged; Z order is kept for records with no Z velocity |
| Manager.ParticleManager.PlaceLoaded | ParticleManager.cpp:831 | The loaded slot goes into the chosen list at InsertPos |
| Manager.ParticleManager.SpawnAll | ParticleManager.cpp:803-838 | The number spawned is `Spawned`: the first m free slots take the first m records; stops when the free list is empty |
| Manager.ParticleManager.SpawnNext | ParticleManager.cpp:813-831 | One round of the spawn loop |
| Manager.ParticleManager.Frame | ParticleManager.cpp:76-98 | Valid holds again, the rain keeps its drops, the fill stays in bounds and gives Filled, and activeParticles counts the active entries |
| Manager.ParticleManager.KillAndIgnite | ParticleManager.cpp:81-84 | Valid is kept and the rain list is unchanged |
| Manager.ParticleManager.UpdateBuffers | ParticleManager.cpp:696-738 | With a full rain block, the array becomes Filled, every write in bounds; activeParticles is the index after the last entry |
| Manager.ParticleManager.FillInstances | ParticleManager.cpp:703-737 | The zero fill and the three loops |
| Manager.ParticleManager.WriteList | ParticleManager.cpp:706-714 | The loop writes the list's instances in order from `start` and returns the next index |
| Manager.ParticleManager.WriteOne | ParticleManager.cpp:709-712 | One pass of the loop puts the current node's instance right after those already written |
| Manager.ParticleManager.MakeRingEffect | ParticleManager.cpp:786-840 | Ring particles go into the general list as `Spawned`; rain and fire are untouched |
| Manager.ParticleManager.MakeFireEffect | ParticleManager.cpp:842-906 | `(int)(150 * frameTime)` fire particles while free slots last; the counter counts each; the fire list stays Z-ordered |
| Manager.ParticleManager.InitiateRainEffects | ParticleManager.cpp:908-970 | RainInstanceCount drops while free slots last; the rain list grows by exactly that many and stays Z-ordered |

## Left out

- **Direct3D plumbing.** The vertex, index and instance buffers, the `Map`/`memcpy`/`Unmap` tail of UpdateBuffers, RenderBuffers, the textures, the getters and Shutdown are calls into an API this model does not see. UpdateBuffers is modelled up to `m_activeParticles = index`.
- **Initialize.** Only its call order is modelled: the constructor stands for InitializeParticleSystem and the instance-array allocation of InitializeBuffers, and StartRain is its final InitiateRainEffects. The texture loads and their failure returns are not modelled.
- **Floats.** C++ floats are reals, so no IEEE rounding is modelled. Only the comparisons matter for the structure.
- **`m_activeParticles`.** It is a `float` in the source. The model keeps it as an `int`, the value of the index it is assigned.
- **Randomness.** `RNGClass::GetRandomInteger` becomes draw parameters, bounded as at the call sites.
- **Ring directions.** The cosines and sines are a `circle` parameter.
- **Uninitialised records.** `new Particle[...]` leaves records uninitialised; the model starts them at `Blank`. No spawner writes `alpha`, so a particle keeps whatever its slot held.
- **Fire spawn count.** MakeFireEffect follows the code, `(int)(150 * frameTime)` (FireSparkCount), not the header comment's "per second / frametime".
- KillParticles: the general list is only stated to contain all its survivors (a multiset inclusion). The free list and the splash-ring records are not stated at this level. GeneralPhase, RainPhase and FirePhase state them exactly, one pass each, and they are not composed into one formula over the state before the call.
- Valid: says nothing about the order of the general list. PlaceNodeInZSortedList puts each ring particle in Z order after the head. But a ring particle moves in Z at 0.35 times the sine of its direction (ParticleManager.cpp:806-809), and MoveParticles moves it. So the order holds only as each particle is placed, and one frame can break it (GeneralPairFlips).
- UpdateBuffers: requires the rain list to hold exactly RainInstanceCount drops. The source starts the fire and general entries at RainInstanceCount whatever the rain count, and with fewer drops a full general list would write past the end of `m_Instances` (OverrunWithoutRain). StartRain shows that the program's call order establishes this requirement, and KillParticles never frees a drop.
- Frame: requires a full rain block for the same reason.
- Frame: `dt`, the ring directions and the fire draws are parameters.
- Frame: the GPU copy and its failure return are not modelled.
