# BombSquad map generator and engine utilities, modelled in Dafny

This project models the procedural arena generator of the BombSquad game and
the small engine and game utilities around it. The generator exists twice, as
a JavaScript reference (`BombSquad_MapGen`) and as a C++ port
(`SDL2_Engine/Projects/BombSquad`). The model keeps the two versions apart
wherever they behave differently.

The generator pipeline:

- **Seeding** (`createInitialMap`): every cell of a width × height grid of tile
  symbols becomes `Free` or stays at its default, from one random draw per cell.
  The JS and C++ versions compare the draw in opposite senses.
- **Smoothing** (`simulateStep`): a cellular automaton over the 8-neighbourhood
  with a death limit and a birth rate. The JS step reads states and counts from
  a snapshot of the grid. The C++ step reads states from the snapshot but counts
  neighbours on the live grid, so earlier writes in a sweep change later counts.
  The JS driver either runs a fixed number of steps or stops at a repeated
  change count or after `maxSmoothing` steps.
- **Region identification** (`RegionIdentifier`): a worklist flood fill labels
  the 4-connected regions of a tile symbol and sorts them largest first.
- **Regions** (`Region.js`): each region's centroid, edge cells and per-cell depth.
  The depth comes from an 8-neighbour breadth-first search from each member.
- **Region linking** (`linkRegions`, `getLine`, `drawCircle`): the regions are
  joined to the main region. Corridors are error-accumulating grid lines
  widened by discs. Both versions sort the other regions by distance and
  start their pass at index 1. The JS version sorts nearest first, so index 0
  is the region itself and its first pass takes the nearest other region. The
  C++ version sorts farthest first, so its first pass takes the second
  farthest region.
- **Spawn placement** (`findPlayerSpawns`, `findPath`): candidate cells are ranked
  by depth, and spawns are picked greedily far apart using an A*-style grid path
  search. The 4-neighbours of each spawn become `Safe`.
- **Obstacles** (`spawnObstacles`, `placeObstacles`): `Free` cells are turned
  into obstacles.

The engine utilities:

- the fixed-capacity string `FString`;
- relative-path resolution `deductLocation`;
- the case-insensitive name-to-enum tables of `StringToInputValues`;
- the `Bitmask` flag type;
- `UIBounds` rectangles;
- the `Math` helpers (sign, clamp, smallest, largest);
- `Endian` byte reversal;
- the `Map<T>` grid container;
- powerup aggregation in `Powerup`, `TempProperties` and `PlayerProperties`;
- the sound-effect channel pool of `Audio`;
- the `Globals` interface registry;
- the scene flags of `ISceneBase` and the list phases of `SceneManager`;
- the JS `Color` hex notation, a lenient form of section 5.2 of CSS Color Module Level 4;
- the `ExtendProperties.js` helpers (clamp, character classes, `Path.getDirectory`,
  `Validate`).

Grids are `array2` values with a snapshot function `Cells`. Each grid-changing
method states its new grid as a function of the old one. Lemmas then prove
what the source promises about those functions: bounds, "only these cells
change", partition and maximality of regions, link spreading, path shape and
spawn separation. Objects whose fields the source updates in place are classes
with `modifies` clauses. Random draws, and results of calls into code outside
the model, are parameters.

## Model

| member | source | states |
|---|---|---|
| Endian.ReverseBytes | SDL2_Engine/Projects/SDL2_Engine/src/Utilities/Endian/Endian.hpp:44-57 | the result has the value's length and byte i is the value's byte N-1-i, i.e. it is the reversed byte sequence |
| Endian.Convert | SDL2_Engine/Projects/SDL2_Engine/src/Utilities/Endian/Endian.hpp:71-72 | conversion keeps the value's width |
| Endian.ReverseTwice | SDL2_Engine/Projects/SDL2_Engine/src/Utilities/Endian/Endian.hpp:44-57 | reversing the bytes twice gives the original value back |
| Endian.ConvertRoundTrip | SDL2_Engine/Projects/SDL2_Engine/src/Utilities/Endian/Endian.hpp:71-72 | converting twice restores the value on either host, and a little-endian host passes the value through unchanged |
| EngineMath.Sign | SDL2_Engine/Projects/SDL2_Engine/src/Math.hpp:45-46 | the sign is -1 or 1, times the value gives its absolute value, and zero has sign 1 |
| EngineMath.Clamp | SDL2_Engine/Projects/SDL2_Engine/src/Math.hpp:59-60 | a value inside [min, max] is returned unchanged, below min gives min, above max gives max (min is compared first), and for min <= max the result lies in the range |
| EngineMath.Clamp01 | SDL2_Engine/Projects/SDL2_Engine/src/Math.hpp:71-72 | the result lies in [0, 1] |
| EngineMath.Clamp01IsClamp | SDL2_Engine/Projects/SDL2_Engine/src/Math.hpp:71-72 | clamp01 is clamp with bounds 0 and 1, and leaves values in [0, 1] unchanged |
| EngineMath.ExtractMin | SDL2_Engine/Projects/SDL2_Engine/src/Math.hpp:192-211 | the result is the running value or one of the remaining arguments, and is no larger than any of them |
| EngineMath.ExtractMax | SDL2_Engine/Projects/SDL2_Engine/src/Math.hpp:224-243 | the result is the running value or one of the remaining arguments, and is no smaller than any of them |
| EngineMath.Smallest | SDL2_Engine/Projects/SDL2_Engine/src/Math.hpp:126-127 | the result is one of the arguments and no larger than any of them |
| EngineMath.Largest | SDL2_Engine/Projects/SDL2_Engine/src/Math.hpp:139-140 | the result is one of the arguments and no smaller than any of them |
| UIBounds.Half | SDL2_Engine/Projects/SDL2_Engine/src/UI/UIElements/Interfaces/UIBounds.hpp:79 | w / 2 in C++: truncates toward zero for negative and non-negative widths |
| UIBounds.ContainsIsInclusive | SDL2_Engine/Projects/SDL2_Engine/src/UI/UIElements/Interfaces/UIBounds.hpp:57 | all four corners of a rectangle are contained, and a point left of, above, right of or below it is not |
| UIBounds.CentreContained | SDL2_Engine/Projects/SDL2_Engine/src/UI/UIElements/Interfaces/UIBounds.hpp:57-79 | the integer-halved centre used by distance lies inside the rectangle |
| UIBounds.IntersectsSymmetric | SDL2_Engine/Projects/SDL2_Engine/src/UI/UIElements/Interfaces/UIBounds.hpp:68 | intersects(a, b) holds exactly when intersects(b, a) does |
| UIBounds.IntersectsIffCommonPoint | SDL2_Engine/Projects/SDL2_Engine/src/UI/UIElements/Interfaces/UIBounds.hpp:57-68 | for rectangles of non-negative size, intersects holds exactly when some point is contained in both |
| UIBounds.DistanceAntisymmetric | SDL2_Engine/Projects/SDL2_Engine/src/UI/UIElements/Interfaces/UIBounds.hpp:79 | distance(b, a) is the negation of distance(a, b), and the distance from a rectangle to itself is zero |
| Bitmask.Bitmask.constructor | SDL2_Engine/Projects/SDL2_Engine/src/Utilities/Bitmask.hpp:99 | the default mask holds no flags |
| Bitmask.Bitmask.Copy | SDL2_Engine/Projects/SDL2_Engine/src/Utilities/Bitmask.hpp:108 | the copy holds the same flags as the original |
| Bitmask.Bitmask.FromValues | SDL2_Engine/Projects/SDL2_Engine/src/Utilities/Bitmask.hpp:118 | the variadic constructor starts from 0 and ORs every argument in, front to back |
| Bitmask.Bitmask.AndAssign | SDL2_Engine/Projects/SDL2_Engine/src/Utilities/Bitmask.hpp:216 | &= leaves the AND of the old mask and the value, and returns the same object |
| Bitmask.Bitmask.OrAssign | SDL2_Engine/Projects/SDL2_Engine/src/Utilities/Bitmask.hpp:240 | the OR-assignment leaves the OR of the old mask and the value, and returns the same object |
| Bitmask.Bitmask.XorAssign | SDL2_Engine/Projects/SDL2_Engine/src/Utilities/Bitmask.hpp:264 | ^= leaves the XOR of the old mask and the value, and returns the same object |
| Bitmask.Bitmask.ShiftLeftAssign | SDL2_Engine/Projects/SDL2_Engine/src/Utilities/Bitmask.hpp:286 | <<= shifts the 32-bit pattern left, and returns the same object |
| Bitmask.Bitmask.ShiftRightAssign | SDL2_Engine/Projects/SDL2_Engine/src/Utilities/Bitmask.hpp:308 | >>= is the arithmetic shift of a signed int, and returns the same object |
| Bitmask.Bitmask.Assign | SDL2_Engine/Projects/SDL2_Engine/src/Utilities/Bitmask.hpp:342 | assignment from a value replaces the mask, and returns the same object |
| Bitmask.OrAllBits | SDL2_Engine/Projects/SDL2_Engine/src/Utilities/Bitmask.hpp:118 | a flag is in the constructed mask exactly when some constructor argument holds it |
| Bitmask.OrAllContainsEach | SDL2_Engine/Projects/SDL2_Engine/src/Utilities/Bitmask.hpp:383-388 | every argument's flags are all present in the constructed mask |
| Bitmask.OrDisjoint | SDL2_Engine/Projects/SDL2_Engine/src/Utilities/Bitmask.hpp:228 | a flag is missing from a OR x exactly when it is missing from both |
| Bitmask.Bitmask.Nor | SDL2_Engine/Projects/SDL2_Engine/src/Utilities/Bitmask.hpp:156 | a flag is in the result exactly when it is in neither the mask nor the value |
| Bitmask.Bitmask.Nand | SDL2_Engine/Projects/SDL2_Engine/src/Utilities/Bitmask.hpp:180 | a flag is in the result exactly when it is not in both the mask and the value |
| Bitmask.Bitmask.And | SDL2_Engine/Projects/SDL2_Engine/src/Utilities/Bitmask.hpp:204 | a flag is in the result exactly when it is in both the mask and the value |
| Bitmask.Bitmask.Or | SDL2_Engine/Projects/SDL2_Engine/src/Utilities/Bitmask.hpp:228 | a flag is in the result exactly when it is in the mask or in the value |
| Bitmask.Bitmask.Xor | SDL2_Engine/Projects/SDL2_Engine/src/Utilities/Bitmask.hpp:252 | a flag is in the result exactly when it is in one of the mask and the value but not both |
| Bitmask.Bitmask.Complement | SDL2_Engine/Projects/SDL2_Engine/src/Utilities/Bitmask.hpp:317 | a flag is in the result exactly when it is missing from the mask |
| Bitmask.Bitmask.ShiftLeft | SDL2_Engine/Projects/SDL2_Engine/src/Utilities/Bitmask.hpp:275 | the 32-bit pattern shifted left: the low `s` bits of the result are clear |
| Bitmask.Bitmask.ShiftRight | SDL2_Engine/Projects/SDL2_Engine/src/Utilities/Bitmask.hpp:297 | the arithmetic shift of a signed 32-bit int: the sign bit is kept and the high `s` bits all copy it |
| Bitmask.Bitmask.Equals | SDL2_Engine/Projects/SDL2_Engine/src/Utilities/Bitmask.hpp:354 | the mask equals the value exactly when their XOR has no flag set |
| Bitmask.Bitmask.NotEquals | SDL2_Engine/Projects/SDL2_Engine/src/Utilities/Bitmask.hpp:366 | != holds exactly when == does not |
| Bitmask.ShiftLeftDoubles | SDL2_Engine/Projects/SDL2_Engine/src/Utilities/Bitmask.hpp:275 | each extra bit of left shift doubles the 32-bit pattern, wrapping modulo 2^32 |
| Bitmask.ShiftRightNonNegative | SDL2_Engine/Projects/SDL2_Engine/src/Utilities/Bitmask.hpp:297 | a mask with the sign bit clear shifts right like an unsigned value |
| Audio.Dec | SDL2_Engine/Projects/SDL2_Engine/src/Audio/Audio.cpp:58 | size_t decrement: 0 wraps to the largest size_t value, anything else drops by one |
| Audio.Resized | SDL2_Engine/Projects/SDL2_Engine/src/Audio/Audio.cpp:357 | vector<bool>::resize keeps the flags that fit and extends with false |
| Audio.HighestFree | SDL2_Engine/Projects/SDL2_Engine/src/Audio/Audio.cpp:155-167 | the downward scan finds the highest clear flag, every flag above it is set, and -1 means all are set |
| Audio.CountUsed | SDL2_Engine/Projects/SDL2_Engine/src/Audio/Audio.cpp:33-34 | the number of flagged channels never exceeds the number of flags |
| Audio.ChannelPool.constructor | SDL2_Engine/Projects/SDL2_Engine/src/Audio/Audio.cpp:350-357 | the ceiling is the larger of the initial and configured counts when one is configured, else -1; all granted channels start free and the count is 0 |
| Audio.ChannelPool.IncreaseSFXChannels | SDL2_Engine/Projects/SDL2_Engine/src/Audio/Audio.cpp:396-409 | growth is refused exactly when a ceiling is set and reached; otherwise the channel count is what the mixer grants and the flags are resized to it |
| Audio.ChannelPool.ReserveChannel | SDL2_Engine/Projects/SDL2_Engine/src/Audio/Audio.cpp:149-171 | with every channel used and growth refused the result is -1 and nothing changes; otherwise, when every channel was used, the channel count becomes the number the mixer granted and the flags are resized to it, then the result is the highest free channel of that pool, which is flagged, or -1 with the flags unchanged when none is free; the count goes up by one exactly when a channel was taken |
| Audio.ChannelPool.ScanForFree | SDL2_Engine/Projects/SDL2_Engine/src/Audio/Audio.cpp:155-167 | the scan returns the highest free channel |
| Audio.ChannelPool.ReleaseChannel | SDL2_Engine/Projects/SDL2_Engine/src/Audio/Audio.cpp:180-200 | a negative channel clears every flag, resizes them to the channel count and zeroes the counter; otherwise the flag is cleared and the counter drops only if it was set |
| Audio.ChannelPool.ChannelComplete | SDL2_Engine/Projects/SDL2_Engine/src/Audio/Audio.cpp:54-63 | as written: the finished-channel callback decrements the counter unconditionally and clears the channel's flag |
| Audio.ChannelPool.ChannelCompleteIntended | SDL2_Engine/Projects/SDL2_Engine/src/Audio/Audio.cpp:54-63 | as intended: the counter drops only when the finished channel was still flagged, the flag is cleared, and a pool whose counter matched its flags still does |
| Audio.NoneUsed | SDL2_Engine/Projects/SDL2_Engine/src/Audio/Audio.cpp:357 | with no flag set the in-use count is 0 |
| Audio.CountUsedUpdate | SDL2_Engine/Projects/SDL2_Engine/src/Audio/Audio.cpp:158-162 | changing one flag moves the in-use count by exactly one, and leaving it alone does not move it |
| Audio.ReserveKeepsConsistent | SDL2_Engine/Projects/SDL2_Engine/src/Audio/Audio.cpp:155-167 | reserving from a pool whose counter matches its flags keeps them matching |
| Audio.ReleaseKeepsConsistent | SDL2_Engine/Projects/SDL2_Engine/src/Audio/Audio.cpp:190-198 | releasing one channel keeps the counter matching the flags |
| Audio.ReleaseAllConsistent | SDL2_Engine/Projects/SDL2_Engine/src/Audio/Audio.cpp:182-188 | releasing all channels leaves a pool with nothing in use |
| Audio.CallbackBreaksConsistency | SDL2_Engine/Projects/SDL2_Engine/src/Audio/Audio.cpp:54-63 | the callback on a channel that is not flagged (released by hand first) leaves the counter at 2^64 - 1 while no flag is set |
| Audio.GrowKeepsCount | SDL2_Engine/Projects/SDL2_Engine/src/Audio/Audio.cpp:402-405 | growing the flags keeps the in-use count |
| GlobalsRegistry.UpdateVisits | SDL2_Engine/Projects/SDL2_Engine/src/Globals.cpp:119-123 | update visits one interface per entry in the update order |
| GlobalsRegistry.Globals.constructor | SDL2_Engine/Projects/SDL2_Engine/src/Globals.cpp:37 | a new registry is empty and valid |
| GlobalsRegistry.Globals.InterfaceExists | SDL2_Engine/Projects/SDL2_Engine/src/Globals.cpp:79 | true exactly for registered identifiers |
| GlobalsRegistry.Globals.Retrieve | SDL2_Engine/Projects/SDL2_Engine/src/Globals.cpp:90-96 | nothing for an unknown identifier, otherwise the registered interface |
| GlobalsRegistry.Globals.IntroduceInterface | SDL2_Engine/Projects/SDL2_Engine/src/Globals.cpp:49-68 | a failed setup registers nothing and returns nothing; a successful one maps the identifier and appends it to the update order |
| GlobalsRegistry.Globals.AddInterface | SDL2_Engine/Projects/SDL2_Engine/src/Globals.hpp:43-57 | an identifier already registered is refused without change; a new identifier whose setup fails leaves the registry unchanged, and one whose setup succeeds is mapped to the interface and appended to the update order; the registry stays valid (identifiers and update order agree, no duplicates) |
| GlobalsRegistry.Globals.Update | SDL2_Engine/Projects/SDL2_Engine/src/Globals.cpp:119-123 | every interface is visited once, in registration order |
| GlobalsRegistry.Globals.TearDown | SDL2_Engine/Projects/SDL2_Engine/src/Globals.cpp:136-145 | interfaces are destroyed last-registered first |
| GlobalsRegistry.IntroducePreservesValid | SDL2_Engine/Projects/SDL2_Engine/src/Globals.cpp:63-64 | registering a new identifier keeps the map and the update order in agreement and the order free of duplicates |
| GlobalsRegistry.VisitsAfterIntroduce | SDL2_Engine/Projects/SDL2_Engine/src/Globals.cpp:63-64 | registering a new interface appends it to the visits and leaves the earlier visits as they were |
| GlobalsRegistry.Host.constructor | SDL2_Engine/Projects/SDL2_Engine/src/Globals.cpp:13 | the singleton slot starts empty |
| GlobalsRegistry.Host.Create | SDL2_Engine/Projects/SDL2_Engine/src/Globals.cpp:103-112 | create throws when the singleton exists; otherwise it makes a fresh, empty, valid registry |
| GlobalsRegistry.Host.Destroy | SDL2_Engine/Projects/SDL2_Engine/src/Globals.cpp:130-157 | with a singleton, its interfaces are destroyed in reverse registration order and the slot is emptied; without one nothing happens |
| Powerups.Powerup.constructor | SDL2_Engine/Projects/BombSquad/src/Game/Powerups/Powerup.hpp:29-45 | a new powerup has an empty mask and the default values |
| Powerups.Powerup.SetActor | SDL2_Engine/Projects/BombSquad/src/Game/Powerups/Powerup.hpp:185 | only the actor changes; the mask is untouched |
| Powerups.Powerup.SetTextureId | SDL2_Engine/Projects/BombSquad/src/Game/Powerups/Powerup.hpp:194 | only the texture identifier changes; the mask is untouched |
| Powerups.Powerup.SetName | SDL2_Engine/Projects/BombSquad/src/Game/Powerups/Powerup.hpp:203 | only the name changes; the mask is untouched |
| Powerups.Powerup.SetDescription | SDL2_Engine/Projects/BombSquad/src/Game/Powerups/Powerup.hpp:212 | only the description changes; the mask is untouched |
| Powerups.Powerup.SetDuration | SDL2_Engine/Projects/BombSquad/src/Game/Powerups/Powerup.hpp:221 | only the duration changes; the mask is untouched |
| Powerups.Powerup.SetFuseLength | SDL2_Engine/Projects/BombSquad/src/Game/Powerups/Powerup.hpp:230 | the fuse length is stored and the fuse-duration flag is added to the mask; nothing else changes |
| Powerups.Powerup.SetDeltaBlastRadius | SDL2_Engine/Projects/BombSquad/src/Game/Powerups/Powerup.hpp:239 | the blast delta is stored and its flag added; nothing else changes |
| Powerups.Powerup.SetDetonateAll | SDL2_Engine/Projects/BombSquad/src/Game/Powerups/Powerup.hpp:246 | detonate-all is set and its flag added; nothing else changes |
| Powerups.Powerup.SetDeltaBombCount | SDL2_Engine/Projects/BombSquad/src/Game/Powerups/Powerup.hpp:255 | the bomb-count delta is stored and its flag added; nothing else changes |
| Powerups.Powerup.SetReverseControls | SDL2_Engine/Projects/BombSquad/src/Game/Powerups/Powerup.hpp:264 | the reversal state is stored and its flag added; nothing else changes |
| Powerups.Powerup.SetTeleport | SDL2_Engine/Projects/BombSquad/src/Game/Powerups/Powerup.hpp:271 | teleport is set and its flag added; nothing else changes |
| Powerups.Powerup.SetMines | SDL2_Engine/Projects/BombSquad/src/Game/Powerups/Powerup.hpp:280 | the mines state is stored and its flag added; nothing else changes |
| Powerups.Powerup.SetSpeed | SDL2_Engine/Projects/BombSquad/src/Game/Powerups/Powerup.hpp:289 | the speed is stored and its flag added; nothing else changes |
| Powerups.MaskOfMembers | SDL2_Engine/Projects/BombSquad/src/Game/Powerups/TempProperties.cpp:217-227 | an effect is in the collective mask exactly when some stored powerup carries it |
| Powerups.LastWith | SDL2_Engine/Projects/BombSquad/src/Game/Powerups/TempProperties.cpp:16-20 | the backward search finds the most recent powerup carrying the effect; none after it carries it, and -1 means none does |
| Powerups.LastWithFindsFlag | SDL2_Engine/Projects/BombSquad/src/Game/Powerups/TempProperties.cpp:13-20 | the backward search succeeds exactly when the effect is in the collective mask |
| Powerups.TotalsWithoutFlag | SDL2_Engine/Projects/BombSquad/src/Game/Powerups/TempProperties.cpp:35-143 | the early return of 0 for an absent flag agrees with the sum loops, which would also give 0 |
| Powerups.Without | SDL2_Engine/Projects/BombSquad/src/Game/Powerups/TempProperties.cpp:195-208 | removal never lengthens the list |
| Powerups.WithoutMembers | SDL2_Engine/Projects/BombSquad/src/Game/Powerups/TempProperties.cpp:197-201 | removal keeps exactly the powerups whose mask differs from the given mask |
| Powerups.Tick | SDL2_Engine/Projects/BombSquad/src/Game/Powerups/TempProperties.cpp:157-169 | a tick never lengthens the list |
| Powerups.TickMembers | SDL2_Engine/Projects/BombSquad/src/Game/Powerups/TempProperties.cpp:157-169 | the kept nodes are exactly the aged nodes that have not expired |
| Powerups.AnyExpiresCons | SDL2_Engine/Projects/BombSquad/src/Game/Powerups/TempProperties.cpp:162 | a list has an expiring node exactly when its head or its tail has one |
| Powerups.TickNodes | SDL2_Engine/Projects/BombSquad/src/Game/Powerups/TempProperties.cpp:154-169 | the loop (from the last node) keeps the aged, unexpired nodes, and its flag is set exactly when some node expired |
| Powerups.TickShrinksIffExpiry | SDL2_Engine/Projects/BombSquad/src/Game/Powerups/TempProperties.cpp:162-168 | a tick shortens the list exactly when some node expires |
| Powerups.UpdateLoopStartOutOfRange | SDL2_Engine/Projects/BombSquad/src/Game/Powerups/TempProperties.cpp:157-159 | the update loop as written starts at size(), which is never a valid index |
| Powerups.TempProperties.constructor | SDL2_Engine/Projects/BombSquad/src/Game/Powerups/TempProperties.hpp:102 | a new list is empty with an empty mask, which is consistent |
| Powerups.TempProperties.ConstructMask | SDL2_Engine/Projects/BombSquad/src/Game/Powerups/TempProperties.cpp:217-227 | the result is the union of the stored powerups' masks |
| Powerups.TempProperties.GetFuseLength | SDL2_Engine/Projects/BombSquad/src/Game/Powerups/TempProperties.cpp:11-24 | with the flag set the result is the fuse length of the most recent powerup carrying it |
| Powerups.TempProperties.GetReverseControls | SDL2_Engine/Projects/BombSquad/src/Game/Powerups/TempProperties.cpp:83-96 | false without the flag, otherwise the state of the most recent powerup carrying it |
| Powerups.TempProperties.GetMines | SDL2_Engine/Projects/BombSquad/src/Game/Powerups/TempProperties.cpp:105-118 | false without the flag, otherwise the state of the most recent powerup carrying it |
| Powerups.TempProperties.GetDeltaBlastRadius | SDL2_Engine/Projects/BombSquad/src/Game/Powerups/TempProperties.cpp:33-49 | 0 without the flag, otherwise the sum of the blast deltas of the powerups carrying it |
| Powerups.TempProperties.GetDeltaBombCount | SDL2_Engine/Projects/BombSquad/src/Game/Powerups/TempProperties.cpp:58-74 | 0 without the flag, otherwise the sum of the bomb-count deltas of the powerups carrying it |
| Powerups.TempProperties.GetSpeed | SDL2_Engine/Projects/BombSquad/src/Game/Powerups/TempProperties.cpp:127-143 | 0 without the flag, otherwise the sum of the speeds of the powerups carrying it |
| Powerups.TempProperties.Add | SDL2_Engine/Projects/BombSquad/src/Game/Powerups/TempProperties.cpp:184 | the powerup is appended with a zero timer and the mask becomes the old union plus its mask |
| Powerups.TempProperties.Remove | SDL2_Engine/Projects/BombSquad/src/Game/Powerups/TempProperties.cpp:195-208 | the powerups whose mask equals the given one are removed, order kept, and the mask is rebuilt |
| Powerups.TempProperties.Update | SDL2_Engine/Projects/BombSquad/src/Game/Powerups/TempProperties.cpp:152-173 | every timer advances, expired powerups are removed, and the mask is rebuilt only when something expired; consistency is kept |
| Powerups.TempProperties.Clear | SDL2_Engine/Projects/BombSquad/src/Game/Powerups/TempProperties.hpp:102 | the list and the mask are emptied |
| Powerups.NoExpiryKeepsMask | SDL2_Engine/Projects/BombSquad/src/Game/Powerups/TempProperties.cpp:172 | when nothing expires, not rebuilding the mask is correct: the mask is unchanged |
| Powerups.MaskOfCons | SDL2_Engine/Projects/BombSquad/src/Game/Powerups/TempProperties.cpp:222-223 | the mask of a list with a node in front is that node's mask united with the rest |
| Powerups.ClampInt | SDL2_Engine/Projects/BombSquad/src/Game/Powerups/PlayerProperties.cpp:5 | CLAMP yields a value within the bounds, and a value already inside is unchanged |
| Powerups.ClampReal | SDL2_Engine/Projects/BombSquad/src/Game/Powerups/PlayerProperties.cpp:5 | CLAMP on floats yields a value within the bounds, and a value already inside is unchanged |
| Powerups.MaxReal | SDL2_Engine/Projects/BombSquad/src/Game/Powerups/PlayerProperties.cpp:4 | MAX yields one of its arguments and is at least both |
| Powerups.BlastPowerupIgnoredAsWritten | SDL2_Engine/Projects/BombSquad/src/Game/Powerups/PlayerProperties.cpp:122-123 | as written, a permanent +3 blast-radius powerup leaves a radius of 2 unchanged, where 5 was intended |
| Powerups.IntendedBlastRadius | SDL2_Engine/Projects/BombSquad/src/Game/Powerups/PlayerProperties.cpp:122-123 | as intended, a blast powerup moves the radius by its own delta within the clamp range, and no other effect touches it |
| Powerups.ApplyPermanent | SDL2_Engine/Projects/BombSquad/src/Game/Powerups/PlayerProperties.cpp:118-132 | as written: a powerup with no effects changes nothing; the fuse length it sets lies in [0, 30]; the bomb count moves by the bomb-count delta within [1, 100]; the blast radius also moves by the bomb-count delta, within [1, 9999]; the speed grows by the bonus and is at least 1 |
| Powerups.PlayerProperties.constructor | SDL2_Engine/Projects/BombSquad/src/Game/Powerups/PlayerProperties.hpp:27 | a new player starts from the reset values with no temporary powerups |
| Powerups.PlayerProperties.Reset | SDL2_Engine/Projects/BombSquad/src/Game/Powerups/PlayerProperties.cpp:13-24 | the temporary list is emptied and the starting values are restored |
| Powerups.PlayerProperties.FuseLength | SDL2_Engine/Projects/BombSquad/src/Game/Powerups/PlayerProperties.cpp:33-39 | the temporary value when its flag is set, else the base one, clamped to [0, 30] |
| Powerups.PlayerProperties.BlastRadius | SDL2_Engine/Projects/BombSquad/src/Game/Powerups/PlayerProperties.cpp:48-54 | the base plus the temporary delta, clamped to [1, 9999] |
| Powerups.PlayerProperties.BombCount | SDL2_Engine/Projects/BombSquad/src/Game/Powerups/PlayerProperties.cpp:63-69 | the base plus the temporary delta, clamped to [1, 100] |
| Powerups.PlayerProperties.IsReversed | SDL2_Engine/Projects/BombSquad/src/Game/Powerups/PlayerProperties.cpp:78 | the temporary state when its flag is set, else the base one |
| Powerups.PlayerProperties.HasMinesNow | SDL2_Engine/Projects/BombSquad/src/Game/Powerups/PlayerProperties.cpp:87 | the temporary state when its flag is set, else the base one |
| Powerups.PlayerProperties.CurrentSpeed | SDL2_Engine/Projects/BombSquad/src/Game/Powerups/PlayerProperties.cpp:96-102 | the base plus the temporary bonus, at least 1 |
| Powerups.PlayerProperties.Add | SDL2_Engine/Projects/BombSquad/src/Game/Powerups/PlayerProperties.cpp:113-136 | a timed powerup joins the temporary list and leaves the base values alone; any other changes each carried effect's base value as `ApplyPermanent` states, the blast radius moving by the bomb-count delta as written |
| Powerups.PlayerProperties.Update | SDL2_Engine/Projects/BombSquad/src/Game/Powerups/PlayerProperties.hpp:103 | the temporary list is ticked and stays consistent |
| Scenes.SceneBase.constructor | SDL2_Engine/Projects/SDL2_Engine/src/Scenes/ISceneBase.cpp:10 | a new scene has render order 0 and is active and visible |
| Scenes.SceneBase.Shutdown | SDL2_Engine/Projects/SDL2_Engine/src/Scenes/ISceneBase.cpp:17 | the Active flag is cleared (the XOR runs only when it is set) and nothing else changes |
| Scenes.SceneBase.Show | SDL2_Engine/Projects/SDL2_Engine/src/Scenes/ISceneBase.cpp:24 | the Visible flag is set and nothing else changes |
| Scenes.SceneBase.Hide | SDL2_Engine/Projects/SDL2_Engine/src/Scenes/ISceneBase.cpp:31 | the Visible flag is cleared and nothing else changes |
| Scenes.SceneBase.Prioritise | SDL2_Engine/Projects/SDL2_Engine/src/Scenes/ISceneBase.cpp:38 | the Priority flag is set and nothing else changes |
| Scenes.SceneBase.Deprioritise | SDL2_Engine/Projects/SDL2_Engine/src/Scenes/ISceneBase.cpp:45 | the Priority flag is cleared and nothing else changes |
| Scenes.FlagChangesIdempotent | SDL2_Engine/Projects/SDL2_Engine/src/Scenes/ISceneBase.cpp:17-45 | setting or clearing a flag twice is the same as once, and afterwards the flag is set or clear respectively |
| Scenes.TypeIds | SDL2_Engine/Projects/SDL2_Engine/src/Scenes/SceneManager.cpp:76 | one type identifier per scene, in list order |
| Scenes.LastIndexOf | SDL2_Engine/Projects/SDL2_Engine/src/Scenes/SceneManager.cpp:74-86 | the backward search finds the highest index holding the type, none after it does, and -1 exactly when the type is absent |
| Scenes.ActiveOnly | SDL2_Engine/Projects/SDL2_Engine/src/Scenes/SceneManager.cpp:225-237 | the removal phase never lengthens the list |
| Scenes.ActiveOnlyMembers | SDL2_Engine/Projects/SDL2_Engine/src/Scenes/SceneManager.cpp:225-237 | a scene survives the removal phase exactly when it is still flagged Active |
| Scenes.InactiveBackwards | SDL2_Engine/Projects/SDL2_Engine/src/Scenes/SceneManager.cpp:225-237 | the destroyed and the surviving scenes together account for the whole list |
| Scenes.FilterStep | SDL2_Engine/Projects/SDL2_Engine/src/Scenes/SceneManager.cpp:227-235 | one step of the backward removal loop: the scene at i is kept in front of the later survivors or destroyed after the later inactive ones |
| Scenes.InactiveBackwardsMembers | SDL2_Engine/Projects/SDL2_Engine/src/Scenes/SceneManager.cpp:225-237 | the removal phase destroys exactly the scenes no longer flagged Active |
| Scenes.Admitted | SDL2_Engine/Projects/SDL2_Engine/src/Scenes/SceneManager.cpp:242-257 | every waiting scene whose creation succeeded joins the rotation |
| Scenes.Rejected | SDL2_Engine/Projects/SDL2_Engine/src/Scenes/SceneManager.cpp:242-257 | every waiting scene whose creation failed is discarded, and admitted plus discarded account for all waiting scenes |
| Scenes.Permuted | SDL2_Engine/Projects/SDL2_Engine/src/Scenes/SceneManager.cpp:276 | the sorted list holds at position i the scene the rearrangement puts there |
| Scenes.PermutedMembers | SDL2_Engine/Projects/SDL2_Engine/src/Scenes/SceneManager.cpp:276 | sorting keeps exactly the scenes it was given |
| Scenes.RenderOrder | SDL2_Engine/Projects/SDL2_Engine/src/Scenes/SceneManager.cpp:292-296 | no more scenes are rendered than are in the list |
| Scenes.RenderOrderMembers | SDL2_Engine/Projects/SDL2_Engine/src/Scenes/SceneManager.cpp:292-296 | exactly the visible scenes are rendered |
| Scenes.RenderOrderStartsAtEnd | SDL2_Engine/Projects/SDL2_Engine/src/Scenes/SceneManager.cpp:292-296 | rendering runs from the end of the list: a visible last scene is drawn first |
| Scenes.SceneManager.constructor | SDL2_Engine/Projects/SDL2_Engine/src/Scenes/SceneManager.cpp:141-147 | the manager keeps the setup object, starts with empty lists and is not running |
| Scenes.SceneManager.Quit | SDL2_Engine/Projects/SDL2_Engine/src/Scenes/SceneManager.cpp:123 | the running flag is cleared and nothing else changes |
| Scenes.SceneManager.RemoveScene | SDL2_Engine/Projects/SDL2_Engine/src/Scenes/SceneManager.cpp:72-87 | the result is true exactly when a scene of the type exists; then only the highest-index one loses its Active flag, otherwise no scene changes |
| Scenes.SceneManager.RemoveScenes | SDL2_Engine/Projects/SDL2_Engine/src/Scenes/SceneManager.cpp:98-116 | every scene of the type loses its Active flag, the others are unchanged, and the result says whether there was one |
| Scenes.SceneManager.ShutdownOfType | SDL2_Engine/Projects/SDL2_Engine/src/Scenes/SceneManager.cpp:103-112 | the backward loop shuts down exactly the scenes of the type and reports whether it met one |
| Scenes.SceneManager.InitialiseScene | SDL2_Engine/Projects/SDL2_Engine/src/Scenes/SceneManager.cpp:309-318 | the scene is tagged with its type and queued, and the call always succeeds |
| Scenes.SceneManager.CreateInterface | SDL2_Engine/Projects/SDL2_Engine/src/Scenes/SceneManager.cpp:156-180 | success exactly when a setup object is present; then it is consumed, the initial scene is tagged and queued and the manager runs; on failure nothing changes |
| Scenes.SceneManager.DestroyInterface | SDL2_Engine/Projects/SDL2_Engine/src/Scenes/SceneManager.cpp:187-216 | the waiting scenes and then the active ones are destroyed, each from its end, and the data is released |
| Scenes.SceneManager.RemoveInactive | SDL2_Engine/Projects/SDL2_Engine/src/Scenes/SceneManager.cpp:225-237 | the list keeps exactly its still-active scenes, in order, and the others are destroyed from the end |
| Scenes.SceneManager.SplitInactive | SDL2_Engine/Projects/SDL2_Engine/src/Scenes/SceneManager.cpp:225-237 | the loop yields the active scenes in order and the inactive ones last first |
| Scenes.SceneManager.AdmitPending | SDL2_Engine/Projects/SDL2_Engine/src/Scenes/SceneManager.cpp:240-261 | the successfully created waiting scenes are appended in order, the rest are discarded, and the waiting list is emptied |
| Scenes.SceneManager.UpdateCount | SDL2_Engine/Projects/SDL2_Engine/src/Scenes/SceneManager.cpp:279-289 | scenes are updated from the front up to, not including, the first non-priority scene after a priority one |
| Scenes.SceneManager.Rendered | SDL2_Engine/Projects/SDL2_Engine/src/Scenes/SceneManager.cpp:292-296 | the visible scenes are rendered from the end of the list |
| Scenes.SceneManager.Update | SDL2_Engine/Projects/SDL2_Engine/src/Scenes/SceneManager.cpp:223-297 | with nothing left in rotation the manager quits and nothing is updated or rendered; otherwise the rotation is the survivors plus the admitted scenes, reordered, its leading scenes up to the priority cut are updated, none of them a non-priority scene after a priority one, and the visible ones rendered |
| Additionals.FindFirstSep | SDL2_Engine/Projects/BombSquad/src/Additionals.cpp:27 | find_first_of("/\\", from): the result is -1 or a separator at or after from |
| Additionals.FindFirstSepSkips | SDL2_Engine/Projects/BombSquad/src/Additionals.cpp:27 | everything the search passes over is not a separator, so the result is the first separator |
| Additionals.LastSepBefore | SDL2_Engine/Projects/BombSquad/src/Additionals.cpp:37 | find_last_of("/\\", end): the result is -1 (no separator before end) or the last separator before end |
| Additionals.DeductLocation | SDL2_Engine/Projects/BombSquad/src/Additionals.cpp:15-75 | the two loops of deductLocation compute the specified resolution of the relative path against the parent's directory |
| Additionals.ParentDirectory | SDL2_Engine/Projects/BombSquad/src/Additionals.cpp:20-44 | the parent loop computes the parent's directory section by section |
| Additionals.ApplyRelative | SDL2_Engine/Projects/BombSquad/src/Additionals.cpp:46-71 | the relative loop applies the relative path's segments to the directory |
| Additionals.ParentLoopIsRest | SDL2_Engine/Projects/BombSquad/src/Additionals.cpp:25-44 | the parent loop over positions agrees with the section-by-section definition |
| Additionals.ParentFileIgnored | SDL2_Engine/Projects/BombSquad/src/Additionals.cpp:27-30 | the parent's final component, after its last separator, never reaches the result |
| Additionals.PlainParentKept | SDL2_Engine/Projects/BombSquad/src/Additionals.cpp:40 | a parent made of plain directory names keeps its directory part unchanged |
| Additionals.FinalComponentLast | SDL2_Engine/Projects/BombSquad/src/Additionals.cpp:64-70 | the relative path's final component is appended once, after its directory part is resolved |
| Additionals.LeadingSegment | SDL2_Engine/Projects/BombSquad/src/Additionals.cpp:56-64 | a leading "./" segment is skipped, "../" goes up one directory, and any other segment is appended |
| Additionals.CurrentDirDropped | SDL2_Engine/Projects/BombSquad/src/Additionals.cpp:57 | "./" and ".\\" segments of the relative path are dropped |
| Additionals.ParentDirGoesUp | SDL2_Engine/Projects/BombSquad/src/Additionals.cpp:60-61 | "../" and "..\\" segments of the relative path go up one directory |
| Additionals.UpRemovesLastDirectory | SDL2_Engine/Projects/BombSquad/src/Additionals.cpp:61 | going up removes the last directory name and ends in '/' |
| Additionals.UpFromSingleDirectory | SDL2_Engine/Projects/BombSquad/src/Additionals.cpp:61 | going up from a single directory finds no earlier separator and keeps all of it, doubling the separator |
| Additionals.AbsoluteRelativeKept | SDL2_Engine/Projects/BombSquad/src/Additionals.cpp:17 | a relative path containing ':' is returned unchanged |
| Additionals.ParentCurrentDirMerged | SDL2_Engine/Projects/BombSquad/src/Additionals.cpp:33 | a "./" segment of the parent does not advance the section start, so it is copied with the following segment |
| Additionals.MergedDirectory | SDL2_Engine/Projects/BombSquad/src/Additionals.cpp:25-44 | the parent loop on "a/./b/" yields "a/./b/" |
| Additionals.PlainNameFirst | SDL2_Engine/Projects/BombSquad/src/Additionals.cpp:40 | a plain first segment of the parent is copied to the directory |
| Additionals.DotSectionPending | SDL2_Engine/Projects/BombSquad/src/Additionals.cpp:33 | a "./" section of the parent stays pending |
| Additionals.PendingDotMerged | SDL2_Engine/Projects/BombSquad/src/Additionals.cpp:33-43 | the pending "./" is copied together with the segment that follows it |
| Additionals.ParentCurrentDirKept | SDL2_Engine/Projects/BombSquad/src/Additionals.cpp:15-75 | a "./" in the parent reaches the resolved location |
| Additionals.RelativeCurrentDirDropped | SDL2_Engine/Projects/BombSquad/src/Additionals.cpp:15-75 | "./" segments of the relative path do not reach the resolved location |
| Additionals.DotsDroppedAroundName | SDL2_Engine/Projects/BombSquad/src/Additionals.cpp:49-71 | "./" segments on both sides of a plain relative name are dropped |
| Additionals.PlainNameSegment | SDL2_Engine/Projects/BombSquad/src/Additionals.cpp:64 | a plain relative segment is appended |
| StringToInputValues.ToCompareString | SDL2_Engine/Projects/SDL2_Engine/src/Input/StringToInputValues.hpp:12-20 | a name is cut to its first 20 characters (the comparison buffer) and shorter names are kept whole |
| StringToInputValues.Lower | SDL2_Engine/Projects/SDL2_Engine/src/Utilities/FString.hpp:460-470 | toLower keeps the length and lower-cases every character |
| StringToInputValues.LowerIdempotent | SDL2_Engine/Projects/SDL2_Engine/src/Utilities/FString.hpp:460-470 | lower-casing twice is lower-casing once, and leaves no capital letter |
| StringToInputValues.StringToInputType | SDL2_Engine/Projects/SDL2_Engine/src/Input/StringToInputValues.cpp:15-23 | "gamepad", "keyboard" and "mouse", in any letter case, each give their device, and exactly the other names give Null |
| StringToInputValues.StringToGamePadID | SDL2_Engine/Projects/SDL2_Engine/src/Input/StringToInputValues.cpp:36-46 | "one" to "four" and "all", in any letter case, each give their ID, and exactly the other names give Null |
| StringToInputValues.StringToGamePadInputType | SDL2_Engine/Projects/SDL2_Engine/src/Input/StringToInputValues.cpp:59-66 | "button" and "axis", in any letter case, each give their input type, and exactly the other names give Null |
| StringToInputValues.StringToGamePadAxis | SDL2_Engine/Projects/SDL2_Engine/src/Input/StringToInputValues.cpp:79-90 | the six trigger and stick names, in any letter case, each give their axis, and exactly the other names give Null_Axis |
| StringToInputValues.StringToGamePadBtn | SDL2_Engine/Projects/SDL2_Engine/src/Input/StringToInputValues.cpp:103-123 | "a", "start" and "any" give their buttons (the others likewise in the body), and exactly the names outside the button literals give Null_Input |
| StringToInputValues.StringToKeyboardKey | SDL2_Engine/Projects/SDL2_Engine/src/Input/StringToInputValues.cpp:136-272 | a name outside the key literals, once lower-cased, gives Null, and no name yields a function key, because the "F1".."F24" literals are upper-case and the name is lower-cased |
| StringToInputValues.StringToMouseInputType | SDL2_Engine/Projects/SDL2_Engine/src/Input/StringToInputValues.cpp:285-292 | "button" and "axis", in any letter case, each give their input type, and exactly the other names give Null |
| StringToInputValues.StringToMouseButton | SDL2_Engine/Projects/SDL2_Engine/src/Input/StringToInputValues.cpp:305-315 | "left", "right", "middle", "extra1" and "extra2", in any letter case, each give their button, and exactly the other names give Null |
| StringToInputValues.StringToMouseAxis | SDL2_Engine/Projects/SDL2_Engine/src/Input/StringToInputValues.cpp:328-335 | "x" and "y", in any letter case, each give their axis, and exactly the other names give Null |
| StringToInputValues.CaseInsensitive | SDL2_Engine/Projects/SDL2_Engine/src/Input/StringToInputValues.cpp:15-336 | every lookup sees only the lower-cased name, so the argument's letter case never matters |
| StringToInputValues.UnrecognisedKeyIsNull | SDL2_Engine/Projects/SDL2_Engine/src/Input/StringToInputValues.cpp:136-273 | a keyboard name outside the key literals gives Null |
| StringToInputValues.FunctionKeyNeedsCapitalF | SDL2_Engine/Projects/SDL2_Engine/src/Input/StringToInputValues.cpp:212-235 | only a key starting with a capital 'F' reaches the function-key branches |
| StringToInputValues.OverlongNamesAreNull | SDL2_Engine/Projects/SDL2_Engine/src/Input/StringToInputValues.cpp:136-273 | a name longer than the comparison buffer is cut to 20 characters and matches no literal |
| StringToInputValues.OverlongKeyIsNull | SDL2_Engine/Projects/SDL2_Engine/src/Input/StringToInputValues.cpp:136-273 | no keyboard literal is as long as the comparison buffer |
| StringToInputValues.SpaceAndLettersGroup | SDL2_Engine/Projects/SDL2_Engine/src/Input/StringToInputValues.cpp:141-167 | a name outside the space and letter keys' literals is not matched by that group |
| StringToInputValues.SpaceAndLettersValues | SDL2_Engine/Projects/SDL2_Engine/src/Input/StringToInputValues.cpp:141-167 | the space and letter keys never yield a function key |
| StringToInputValues.SpaceAndLettersOverlong | SDL2_Engine/Projects/SDL2_Engine/src/Input/StringToInputValues.cpp:141-167 | no name of comparison-buffer length matches the space and letter keys |
| StringToInputValues.NumberRowGroup | SDL2_Engine/Projects/SDL2_Engine/src/Input/StringToInputValues.cpp:169-178 | a name outside the number-row keys' literals is not matched by that group |
| StringToInputValues.NumberRowValues | SDL2_Engine/Projects/SDL2_Engine/src/Input/StringToInputValues.cpp:169-178 | the number-row keys never yield a function key |
| StringToInputValues.NumberRowOverlong | SDL2_Engine/Projects/SDL2_Engine/src/Input/StringToInputValues.cpp:169-178 | no name of comparison-buffer length matches the number-row keys |
| StringToInputValues.NumberPadGroup | SDL2_Engine/Projects/SDL2_Engine/src/Input/StringToInputValues.cpp:179-188 | a name outside the number-pad digits' literals is not matched by that group |
| StringToInputValues.NumberPadValues | SDL2_Engine/Projects/SDL2_Engine/src/Input/StringToInputValues.cpp:179-188 | the number-pad digits never yield a function key |
| StringToInputValues.NumberPadOverlong | SDL2_Engine/Projects/SDL2_Engine/src/Input/StringToInputValues.cpp:179-188 | no name of comparison-buffer length matches the number-pad digits |
| StringToInputValues.ArrowsGroup | SDL2_Engine/Projects/SDL2_Engine/src/Input/StringToInputValues.cpp:190-193 | a name outside the arrow keys' literals is not matched by that group |
| StringToInputValues.ArrowsValues | SDL2_Engine/Projects/SDL2_Engine/src/Input/StringToInputValues.cpp:190-193 | the arrow keys never yield a function key |
| StringToInputValues.ArrowsOverlong | SDL2_Engine/Projects/SDL2_Engine/src/Input/StringToInputValues.cpp:190-193 | no name of comparison-buffer length matches the arrow keys |
| StringToInputValues.NumPadOperatorsGroup | SDL2_Engine/Projects/SDL2_Engine/src/Input/StringToInputValues.cpp:195-198 | a name outside the number-pad operators' literals is not matched by that group |
| StringToInputValues.NumPadOperatorsValues | SDL2_Engine/Projects/SDL2_Engine/src/Input/StringToInputValues.cpp:195-198 | the number-pad operators never yield a function key |
| StringToInputValues.NumPadOperatorsOverlong | SDL2_Engine/Projects/SDL2_Engine/src/Input/StringToInputValues.cpp:195-198 | no name of comparison-buffer length matches the number-pad operators |
| StringToInputValues.PunctuationGroup | SDL2_Engine/Projects/SDL2_Engine/src/Input/StringToInputValues.cpp:200-210 | a name outside the punctuation keys' literals is not matched by that group |
| StringToInputValues.PunctuationValues | SDL2_Engine/Projects/SDL2_Engine/src/Input/StringToInputValues.cpp:200-210 | the punctuation keys never yield a function key |
| StringToInputValues.PunctuationOverlong | SDL2_Engine/Projects/SDL2_Engine/src/Input/StringToInputValues.cpp:200-210 | no name of comparison-buffer length matches the punctuation keys |
| StringToInputValues.FunctionKeysGroup | SDL2_Engine/Projects/SDL2_Engine/src/Input/StringToInputValues.cpp:212-235 | a name outside the function keys' literals is not matched by that group |
| StringToInputValues.FunctionKeysValues | SDL2_Engine/Projects/SDL2_Engine/src/Input/StringToInputValues.cpp:212-235 | a name matched by the function keys starts with a capital 'F' |
| StringToInputValues.FunctionKeysOverlong | SDL2_Engine/Projects/SDL2_Engine/src/Input/StringToInputValues.cpp:212-235 | no name of comparison-buffer length matches the function keys |
| StringToInputValues.EscapeAndShiftGroup | SDL2_Engine/Projects/SDL2_Engine/src/Input/StringToInputValues.cpp:237-243 | a name outside escape, editing and shift keys' literals is not matched by that group |
| StringToInputValues.EscapeAndShiftValues | SDL2_Engine/Projects/SDL2_Engine/src/Input/StringToInputValues.cpp:237-243 | escape, editing and shift keys never yield a function key |
| StringToInputValues.EscapeAndShiftOverlong | SDL2_Engine/Projects/SDL2_Engine/src/Input/StringToInputValues.cpp:237-243 | no name of comparison-buffer length matches escape, editing and shift keys |
| StringToInputValues.ControlAltGroup | SDL2_Engine/Projects/SDL2_Engine/src/Input/StringToInputValues.cpp:244-252 | a name outside control, alt, windows and apps keys' literals is not matched by that group |
| StringToInputValues.ControlAltValues | SDL2_Engine/Projects/SDL2_Engine/src/Input/StringToInputValues.cpp:244-252 | control, alt, windows and apps keys never yield a function key |
| StringToInputValues.ControlAltOverlong | SDL2_Engine/Projects/SDL2_Engine/src/Input/StringToInputValues.cpp:244-252 | no name of comparison-buffer length matches control, alt, windows and apps keys |
| StringToInputValues.CommandKeysGroup | SDL2_Engine/Projects/SDL2_Engine/src/Input/StringToInputValues.cpp:253-266 | a name outside the command keys' literals is not matched by that group |
| StringToInputValues.CommandKeysValues | SDL2_Engine/Projects/SDL2_Engine/src/Input/StringToInputValues.cpp:253-266 | the command keys never yield a function key |
| StringToInputValues.CommandKeysOverlong | SDL2_Engine/Projects/SDL2_Engine/src/Input/StringToInputValues.cpp:253-266 | no name of comparison-buffer length matches the command keys |
| StringToInputValues.LocksGroup | SDL2_Engine/Projects/SDL2_Engine/src/Input/StringToInputValues.cpp:268-270 | a name outside the lock keys' literals is not matched by that group |
| StringToInputValues.LocksValues | SDL2_Engine/Projects/SDL2_Engine/src/Input/StringToInputValues.cpp:268-270 | the lock keys never yield a function key |
| StringToInputValues.LocksOverlong | SDL2_Engine/Projects/SDL2_Engine/src/Input/StringToInputValues.cpp:268-270 | no name of comparison-buffer length matches the lock keys |
| FixedString.Lowered | SDL2_Engine/Projects/SDL2_Engine/src/Utilities/FString.hpp:460-470 | lower-casing keeps the length |
| FixedString.Uppered | SDL2_Engine/Projects/SDL2_Engine/src/Utilities/FString.hpp:480-490 | upper-casing keeps the length |
| FixedString.LoweredIdempotent | SDL2_Engine/Projects/SDL2_Engine/src/Utilities/FString.hpp:460-490 | lower-casing twice is lower-casing once, upper-casing first makes no difference to it, and upper-casing twice is upper-casing once |
| FixedString.CaseMapsKeepNoNul | SDL2_Engine/Projects/SDL2_Engine/src/Utilities/FString.hpp:460-490 | the case maps never introduce a terminator, and leave no letter of the other case |
| FixedString.FindIn | SDL2_Engine/Projects/SDL2_Engine/src/Utilities/FString.hpp:503-519 | the result is -1 or a position at or after the start where the sequence matches |
| FixedString.FindInLeast | SDL2_Engine/Projects/SDL2_Engine/src/Utilities/FString.hpp:511-515 | the match found is the least one, and -1 means there is none from the start on |
| FixedString.RFindIn | SDL2_Engine/Projects/SDL2_Engine/src/Utilities/FString.hpp:532-548 | the result is the greatest match at or before the starting index, and -1 means there is none |
| FixedString.FirstWhere | SDL2_Engine/Projects/SDL2_Engine/src/Utilities/FString.hpp:561-612 | the least index at or after the start whose character is (find_first_of) or is not (find_first_not_of) one of the given ones, or -1 when there is none |
| FixedString.LastWhere | SDL2_Engine/Projects/SDL2_Engine/src/Utilities/FString.hpp:625-676 | the greatest index at or before the start whose character is (find_last_of) or is not (find_last_not_of) one of the given ones, or -1 when there is none |
| FixedString.SizeDecrement | SDL2_Engine/Projects/SDL2_Engine/src/Utilities/FString.hpp:630 | --i on a size_t stays a size_t value (0 wraps to the largest one) |
| FixedString.FindLastOfLeavesBuffer | SDL2_Engine/Projects/SDL2_Engine/src/Utilities/FString.hpp:630 | the size_t loop index never fails i >= 0: on an empty string, and after index 0, it is the largest size_t, outside the buffer |
| FixedString.SubstrLengthAgrees | SDL2_Engine/Projects/SDL2_Engine/src/Utilities/FString.hpp:691-697 | the clamped LENGTH picks out exactly the described characters, and a non-positive LENGTH gives the empty string |
| FixedString.SubstrIsPrefixOfSuffix | SDL2_Engine/Projects/SDL2_Engine/src/Utilities/FString.hpp:689-710 | a substring is a prefix of the suffix from the start, the whole suffix for a negative length, and min(length, rest) long otherwise |
| FixedString.Blit | SDL2_Engine/Projects/SDL2_Engine/src/Utilities/FString.hpp:735 | memcpy into a buffer changes exactly the copied range |
| FixedString.CountStep | SDL2_Engine/Projects/SDL2_Engine/src/Utilities/FString.hpp:819 | one step of the counting loop: one occurrence at the next match, then the count after it |
| FixedString.ReplaceStep | SDL2_Engine/Projects/SDL2_Engine/src/Utilities/FString.hpp:840-893 | one step of the construction: the text up to the next match, the replacement, then the rest replaced |
| FixedString.CountFits | SDL2_Engine/Projects/SDL2_Engine/src/Utilities/FString.hpp:819 | the occurrences counted do not overlap, so they fit in the string |
| FixedString.ReplacedLength | SDL2_Engine/Projects/SDL2_Engine/src/Utilities/FString.hpp:807-899 | each replacement changes the length by the difference of the two sequences' lengths |
| FixedString.NoOccurrenceUnchanged | SDL2_Engine/Projects/SDL2_Engine/src/Utilities/FString.hpp:807-899 | with no occurrence the count is 0 and the replacement is the string itself |
| FixedString.ReplaceBySelf | SDL2_Engine/Projects/SDL2_Engine/src/Utilities/FString.hpp:807-899 | replacing a sequence by itself changes nothing |
| FixedString.ReplacedNoNul | SDL2_Engine/Projects/SDL2_Engine/src/Utilities/FString.hpp:807-899 | replacing within a C-string by a C-string never introduces a terminator |
| FixedString.StrCmp | SDL2_Engine/Projects/SDL2_Engine/src/Utilities/FString.hpp:250-332 | the sign of strcmp is -1, 0 or 1 |
| FixedString.StrCmpProperties | SDL2_Engine/Projects/SDL2_Engine/src/Utilities/FString.hpp:250-332 | strcmp is zero exactly on equal strings, and swapping its arguments negates it |
| FixedString.StrCmpTransitive | SDL2_Engine/Projects/SDL2_Engine/src/Utilities/FString.hpp:320 | the order strcmp defines is transitive |
| FixedString.FString.Contents | SDL2_Engine/Projects/SDL2_Engine/src/Utilities/FString.hpp:103-112 | the characters before the terminator number exactly length() |
| FixedString.FString.constructor | SDL2_Engine/Projects/SDL2_Engine/src/Utilities/FString.hpp:40 | the C-string constructor holds the first min(strlen, N) characters of its argument, or nothing without one, and is terminated |
| FixedString.FString.FromChar | SDL2_Engine/Projects/SDL2_Engine/src/Utilities/FString.hpp:441-450 | the one-character constructor sets length 1 with the character at index 0 and a NUL after it; the string is valid, holding exactly that character, precisely when the character is not NUL |
| FixedString.FString.CopyOf | SDL2_Engine/Projects/SDL2_Engine/src/Utilities/FString.hpp:59 | the copy holds the first min(length, N) characters of the other string; from another capacity it is terminated in its last slot too, and from the same capacity (the implicit copy constructor) the whole buffer is copied, last slot included |
| FixedString.FString.AssignCString | SDL2_Engine/Projects/SDL2_Engine/src/Utilities/FString.hpp:939-957 | assignment from a C-string keeps its first min(strlen, N) characters and terminates them |
| FixedString.FString.AssignFString | SDL2_Engine/Projects/SDL2_Engine/src/Utilities/FString.hpp:912-927 | assignment from another string keeps its first min(length, N) characters; from another capacity a terminated last slot stays terminated, and from the same capacity (the implicit copy assignment) the whole buffer is copied, so the last slot is whatever the other string held there |
| FixedString.FString.Clear | SDL2_Engine/Projects/SDL2_Engine/src/Utilities/FString.hpp:90 | clear leaves an empty, terminated string |
| FixedString.FString.ToLower | SDL2_Engine/Projects/SDL2_Engine/src/Utilities/FString.hpp:460-470 | a fresh copy of the same capacity holding the lower-cased contents |
| FixedString.FString.ToUpper | SDL2_Engine/Projects/SDL2_Engine/src/Utilities/FString.hpp:480-490 | a fresh copy of the same capacity holding the upper-cased contents |
| FixedString.FString.Find | SDL2_Engine/Projects/SDL2_Engine/src/Utilities/FString.hpp:503-519 | find returns the least match position at or after the start, or -1 |
| FixedString.FString.RFind | SDL2_Engine/Projects/SDL2_Engine/src/Utilities/FString.hpp:532-548 | rfind returns the greatest match position at or before min(length - strlen, start), or -1 |
| FixedString.FString.Occurs | SDL2_Engine/Projects/SDL2_Engine/src/Utilities/FString.hpp:568-573 | the inner loop reports whether the character is one of the given ones |
| FixedString.FString.FindFirstOf | SDL2_Engine/Projects/SDL2_Engine/src/Utilities/FString.hpp:561-576 | the least index at or after the start holding one of the given characters, or -1 |
| FixedString.FString.FindFirstNotOf | SDL2_Engine/Projects/SDL2_Engine/src/Utilities/FString.hpp:589-612 | the least index at or after the start holding none of the given characters, or -1 |
| FixedString.FString.FindLastOf | SDL2_Engine/Projects/SDL2_Engine/src/Utilities/FString.hpp:625-640 | as written: for the calls that return (some character at or before the start matches), the greatest such index |
| FixedString.FString.FindLastOfIntended | SDL2_Engine/Projects/SDL2_Engine/src/Utilities/FString.hpp:625-640 | as intended: the greatest index at or before the start holding one of the given characters, or -1 |
| FixedString.FString.FindLastNotOf | SDL2_Engine/Projects/SDL2_Engine/src/Utilities/FString.hpp:653-676 | the greatest index at or before the start holding none of the given characters, or -1 |
| FixedString.FString.Substr | SDL2_Engine/Projects/SDL2_Engine/src/Utilities/FString.hpp:689-710 | a fresh string of the same capacity holding the clamped range of the contents |
| FixedString.FString.Append | SDL2_Engine/Projects/SDL2_Engine/src/Utilities/FString.hpp:722-746 | the first min(strlen, N - length) characters of the argument are added at the end; a full string is unchanged |
| FixedString.FString.Prepend | SDL2_Engine/Projects/SDL2_Engine/src/Utilities/FString.hpp:758-794 | the result is the first min(strlen + length, N) characters of the argument followed by the old contents, and the last slot takes the stack buffer's stale character unless the string is full |
| FixedString.FString.CountOccurrences | SDL2_Engine/Projects/SDL2_Engine/src/Utilities/FString.hpp:819 | the counting loop counts the occurrences met left to right, each search resuming past the previous one |
| FixedString.EmptyFindStalls | SDL2_Engine/Projects/SDL2_Engine/src/Utilities/FString.hpp:819-825 | an empty pattern is found again where the search resumes, so the counting loop as written never advances for an empty `find` |
| FixedString.FString.CopyChunk | SDL2_Engine/Projects/SDL2_Engine/src/Utilities/FString.hpp:845-885 | one copy of the construction loop extends the agreement with the full replacement, and the loop stops exactly when the buffer is full |
| FixedString.FString.BuildReplacement | SDL2_Engine/Projects/SDL2_Engine/src/Utilities/FString.hpp:840-893 | the buffer's first total characters are those of the full replacement |
| FixedString.FString.ReplacedBuffer | SDL2_Engine/Projects/SDL2_Engine/src/Utilities/FString.hpp:819-893 | the final length is the full replacement's length clamped to N, and the buffer holds that much of it, terminator-free |
| FixedString.FString.Replace | SDL2_Engine/Projects/SDL2_Engine/src/Utilities/FString.hpp:807-899 | as written: the contents become the full replacement cut at N; only N characters are copied back, so a full result keeps the old last slot as its terminator |
| FixedString.FString.ReplaceIntended | SDL2_Engine/Projects/SDL2_Engine/src/Utilities/FString.hpp:807-899 | as intended: for a non-empty `find` the same contents, with the terminator copied back, so the string stays valid; an empty `find` leaves the string unchanged |
| FixedString.FString.Equals | SDL2_Engine/Projects/SDL2_Engine/src/Utilities/FString.hpp:250-284 | == holds exactly when the contents agree |
| FixedString.FString.Less | SDL2_Engine/Projects/SDL2_Engine/src/Utilities/FString.hpp:320 | < holds exactly when strcmp of the arguments swapped is positive, and then the contents differ |
| FixedString.FString.Concat | SDL2_Engine/Projects/SDL2_Engine/src/Utilities/FString.hpp:344 | + with another string gives a fresh string of capacity N + C holding both, untruncated |
| FixedString.FString.ConcatCString | SDL2_Engine/Projects/SDL2_Engine/src/Utilities/FString.hpp:355 | + with a C-string gives a fresh string of capacity N holding both, cut at N |
| FixedString.ReplaceInBa | SDL2_Engine/Projects/SDL2_Engine/src/Utilities/FString.hpp:807-899 | replacing "a" by "cd" in "ba" finds one occurrence and gives "bcd" |
| FixedString.ReplaceAfterPrependLosesTerminator | SDL2_Engine/Projects/SDL2_Engine/src/Utilities/FString.hpp:790-895 | after prepend leaves a stale character in the last slot, a replace that fills a capacity-3 string leaves "bcd" followed by that character, not a terminator |
| FixedString.ReplaceIntendedAfterPrependKeepsTerminator | SDL2_Engine/Projects/SDL2_Engine/src/Utilities/FString.hpp:807-899 | with the terminator copied back, the same edits leave a valid "bcd" |
| Color.HexDigit | BombSquad_MapGen/JS_Framework/Rendering/Color.js:128 | a digit below 16 becomes one of the characters 0-9 or a-f that `toString(16)` writes |
| Color.ToHexString | BombSquad_MapGen/JS_Framework/Rendering/Color.js:128 | `toString(16)` of a channel yields at least one character |
| Color.DigitValue | BombSquad_MapGen/JS_Framework/Rendering/Color.js:188 | `parseInt(_, 16)` reads each hex digit as a value below 16 |
| Color.TrimStart | BombSquad_MapGen/JS_Framework/Rendering/Color.js:188 | `parseInt` skips leading white space: what is left is empty or starts with a non-space |
| Color.HexPrefix | BombSquad_MapGen/JS_Framework/Rendering/Color.js:188 | `parseInt` reads the longest run of hex digits at the front, and nothing past it |
| Color.Color.constructor | BombSquad_MapGen/JS_Framework/Rendering/Color.js:52-76 | `new Color()` with no argument falls to the default branch: r = g = b = 0, a = 1 |
| Color.Color.SetHex | BombSquad_MapGen/JS_Framework/Rendering/Color.js:160-208 | the setter's loop leaves exactly the colour the hex-setting function describes for the old colour and the string |
| Color.Color.SetRGBA | BombSquad_MapGen/JS_Framework/Rendering/Color.js:287-295 | each channel becomes the rounded number or 0 for a non-number; alpha the number or 1 |
| Color.Color.Inversed | BombSquad_MapGen/JS_Framework/Rendering/Color.js:111-112 | returns a fresh colour whose channels are the inverted ones; the receiver is unchanged |
| Color.HexSet | BombSquad_MapGen/JS_Framework/Rendering/Color.js:160-208 | a string not starting with '#' leaves the colour as it was; after a '#' the colour is reset to black opaque, and every component the string does not reach keeps that default |
| Color.SkipRateByLength | BombSquad_MapGen/JS_Framework/Rendering/Color.js:174-177 | up to five digits give one component per digit; six or more give one per two digits, rounded down |
| Color.HexDigitIsDigit | BombSquad_MapGen/JS_Framework/Rendering/Color.js:128 | every digit written by the getter is read back by `parseInt` as the same value and is not a sign, space or 'x' |
| Color.ParseTwoDigits | BombSquad_MapGen/JS_Framework/Rendering/Color.js:188 | two hex digits parse to 16 times the first plus the second |
| Color.ShortComponentDoubled | BombSquad_MapGen/JS_Framework/Rendering/Color.js:185 | a single digit is doubled, so digit d reads as 17 d |
| Color.PaddedByte | BombSquad_MapGen/JS_Framework/Rendering/Color.js:128-135 | a channel in 0..255 is padded to exactly two lower-case hex digits |
| Color.HexOf | BombSquad_MapGen/JS_Framework/Rendering/Color.js:126-138 | the getter returns '#' and at least six more characters; for byte channels exactly six lower-case hex digits follow |
| Color.HexRoundTrip | BombSquad_MapGen/JS_Framework/Rendering/Color.js:126-208 | setting `hex` to what the getter returned restores r, g and b of byte channels and resets alpha to 1 |
| Color.ParseByte | BombSquad_MapGen/JS_Framework/Rendering/Color.js:188 | the two padded digits of a byte parse back to that byte |
| Color.ReadThreePairs | BombSquad_MapGen/JS_Framework/Rendering/Color.js:174-202 | a six-digit body is read as three two-digit components into r, g and b, alpha staying 1 |
| Color.FourthComponentIsAlpha | BombSquad_MapGen/JS_Framework/Rendering/Color.js:201-203 | a fourth component sets alpha to its value divided by 255 |
| Color.SetRGBADefaults | BombSquad_MapGen/JS_Framework/Rendering/Color.js:289-292 | no numbers give opaque black; a number is rounded half up to the nearest integer |
| Color.InversedChannels | BombSquad_MapGen/JS_Framework/Rendering/Color.js:111-112 | `inversed` maps each integer channel v to 255 - v, keeps NaN and alpha, and applied twice gives the colour back |
| Color.InverseChannel | BombSquad_MapGen/JS_Framework/Rendering/Color.js:111-112 | one channel inverted through `setRGBA` is 255 - v (NaN stays NaN), and inverting twice restores it |
| Color.RoundInteger | BombSquad_MapGen/JS_Framework/Rendering/Color.js:289 | `Math.round` leaves an integer unchanged |
| ExtendProperties.Clamp | BombSquad_MapGen/JS_Framework/ExtendProperties.js:92-94 | below the minimum gives the minimum, above the maximum the maximum, otherwise the value; the result lies in the range when the range is not empty |
| ExtendProperties.Clamp01 | BombSquad_MapGen/JS_Framework/ExtendProperties.js:104-106 | the result always lies between 0 and 1 |
| ExtendProperties.Clamp01IsClamp | BombSquad_MapGen/JS_Framework/ExtendProperties.js:92-106 | the separately written `clamp01` agrees with `clamp` over 0 and 1 on every input |
| ExtendProperties.LexLeSingleLeft | BombSquad_MapGen/JS_Framework/ExtendProperties.js:204-206 | JavaScript string comparison of a one-character string against any string, as `isAlpha` and `isDigit` use it |
| ExtendProperties.LexLeSingleRight | BombSquad_MapGen/JS_Framework/ExtendProperties.js:204-206 | JavaScript string comparison of any string against a one-character string |
| ExtendProperties.IsAlpha | BombSquad_MapGen/JS_Framework/ExtendProperties.js:204-206 | on one character `isAlpha` is exactly the ASCII letter test; a longer string passes exactly when its first unit is a letter other than 'z' or 'Z' |
| ExtendProperties.IsDigit | BombSquad_MapGen/JS_Framework/ExtendProperties.js:216-218 | on one character `isDigit` is exactly the test for '0' to '9'; a longer string passes when its first unit is '0' to '8' |
| ExtendProperties.LastIndexOf | BombSquad_MapGen/JS_Framework/ExtendProperties.js:344 | `lastIndexOf` of one character is -1 or an index holding it with no later occurrence |
| ExtendProperties.AfterLastSeparator | BombSquad_MapGen/JS_Framework/ExtendProperties.js:346 | the position after the last '/' or backslash: every character from it on is no separator, and the one before it is one |
| ExtendProperties.GetDirectory | BombSquad_MapGen/JS_Framework/ExtendProperties.js:342-355 | a path with a '.' is cut after its last separator (to nothing when there is none), so the file name is dropped; a path without a '.' is a prefix of the result, which is at most one character longer, ends with a separator unless empty, and is the path itself when that already ends with a separator |
| ExtendProperties.GetDirectoryIdempotent | BombSquad_MapGen/JS_Framework/ExtendProperties.js:342-355 | `getDirectory` of its own result changes nothing |
| ExtendProperties.ValidateType | BombSquad_MapGen/JS_Framework/ExtendProperties.js:388-403 | throws exactly when the type is not a string or a strict check fails; otherwise returns the value when its `typeof` matches and the default when it does not |
| ExtendProperties.ValidateInstance | BombSquad_MapGen/JS_Framework/ExtendProperties.js:420-440 | throws for a non-function type or a strict mismatch; returns the value when it is an instance, else the default, else a new instance of the type |
| Automaton.Alive | BombSquad_MapGen/MapGenerator.js:227-234 | a cell counts once when it lies on the map and holds the live value, and not at all otherwise |
| Automaton.NeighbourCount | BombSquad_MapGen/MapGenerator.js:207-240 | the live cells among the eight neighbours number at most 8, and none on a map with no width or no height |
| Automaton.WindowIsNeighbours | SDL2_Engine/Projects/BombSquad/src/Game/MapGeneration/MapGenerator.cpp:180-192 | scanning the 3 by 3 window column by column, skipping the centre and off-map cells, counts exactly the eight-neighbour count |
| Automaton.UnchangedEqual | SDL2_Engine/Projects/BombSquad/src/Game/MapGeneration/MapGenerator.cpp:207-248 | a step whose change count is 0 leaves the map equal to the one before |
| Automaton.ChangesAfterPut | SDL2_Engine/Projects/BombSquad/src/Game/MapGeneration/MapGenerator.cpp:218-236 | writing one cell only changes whether that cell counts as changed |
| Automaton.SettledUnique | SDL2_Engine/Projects/BombSquad/src/Game/MapGeneration/MapGenerator.cpp:88-108 | the stopping rule picks a single prefix of a run's change counts: the loop stops at the first repeat of the previous count or at the limit |
| Automaton.SettledByRepeat | SDL2_Engine/Projects/BombSquad/src/Game/MapGeneration/MapGenerator.cpp:101-104 | a step that changes as many cells as the one before stops the loop |
| Automaton.SettledAtLimit | SDL2_Engine/Projects/BombSquad/src/Game/MapGeneration/MapGenerator.cpp:96 | a run with no repeat stops after exactly the maximum number of steps |
| CellularCpp.CreateInitialMap | SDL2_Engine/Projects/BombSquad/src/Game/MapGeneration/MapGenerator.cpp:149-163 | a fresh zero-filled map of the given size where exactly the cells whose roll is at most the initial chance are Free |
| CellularCpp.CountAliveNeighbours | SDL2_Engine/Projects/BombSquad/src/Game/MapGeneration/MapGenerator.cpp:175-196 | the number of Free tiles among the on-map neighbours of the point, itself excluded |
| CellularCpp.SimulateStep | SDL2_Engine/Projects/BombSquad/src/Game/MapGeneration/MapGenerator.cpp:207-248 | the map becomes the in-place sweep of its old contents, and the result is the number of tiles that changed |
| CellularCpp.Step | SDL2_Engine/Projects/BombSquad/src/Game/MapGeneration/MapGenerator.cpp:207-248 | one in-place sweep, column by column and down each column, keeps the map's width and height; the value of each tile is stated by SweepCharacterized |
| CellularCpp.SweepCharacterized | SDL2_Engine/Projects/BombSquad/src/Game/MapGeneration/MapGenerator.cpp:213-236 | each tile of the result is the rule applied to its old state and to its neighbour count on the map as it stood at its turn, earlier tiles already updated |
| CellularCpp.StepChangesByRule | SDL2_Engine/Projects/BombSquad/src/Game/MapGeneration/MapGenerator.cpp:222-235 | a Free tile may only become Restricted, any other tile may only become Free, and nothing else changes |
| CellularCpp.SweepFixedPoint | SDL2_Engine/Projects/BombSquad/src/Game/MapGeneration/MapGenerator.cpp:207-248 | reading counts from the live map leaves the same maps unchanged as the simultaneous rule does: a fixed point of one is a fixed point of the other |
| CellularCpp.QuietStepRepeats | SDL2_Engine/Projects/BombSquad/src/Game/MapGeneration/MapGenerator.cpp:96-104 | a step that changes nothing is followed by another that changes nothing |
| CellularCpp.Smooth | SDL2_Engine/Projects/BombSquad/src/Game/MapGeneration/MapGenerator.cpp:81-108 | the map after smoothing is the initial map stepped as many times as counts were logged: exactly the iteration count when it is not negative, otherwise until the stopping rule holds |
| CellularCpp.RunSteps | SDL2_Engine/Projects/BombSquad/src/Game/MapGeneration/MapGenerator.cpp:81-85 | the map after `iterations` steps, with one logged count per step |
| CellularCpp.RunUntilSettled | SDL2_Engine/Projects/BombSquad/src/Game/MapGeneration/MapGenerator.cpp:88-108 | steps until a count repeats the one before or the limit is hit; the -1 start value (`UINT_MAX` as `int`) matches no count |
| CellularCpp.PlaceObstacles | SDL2_Engine/Projects/BombSquad/src/Game/MapGeneration/MapGenerator.cpp:696-706 | exactly the Free tiles whose roll is at most the obstacle chance become Obstacles; nothing else changes |
| CellularJs.Glyph | BombSquad_MapGen/MapGenerator.js:10-16 | each standard symbol is a one-character string in the registry |
| CellularJs.GlyphsDistinct | BombSquad_MapGen/MapGenerator.js:10-16 | the registry gives distinct symbols distinct strings |
| CellularJs.CreateInitialMap | BombSquad_MapGen/MapGenerator.js:164-194 | a fresh map of the given size where exactly the cells whose draw succeeded are Free and the rest Restricted |
| CellularJs.CountAliveNeighbours | BombSquad_MapGen/MapGenerator.js:207-240 | the number of Free cells among the on-map neighbours, the centre excluded; 0 on a map with no width or no height |
| CellularJs.SimulateStep | BombSquad_MapGen/MapGenerator.js:251-315 | the map becomes the step of its old contents, every cell counted on the pre-step copy, and the result is the number of cells that changed |
| CellularJs.StepColumns | BombSquad_MapGen/MapGenerator.js:279-311 | on a map that starts equal to the copy `refMap`, every cell ends as the rule applied to the copy, and the count is the number of cells whose value changed |
| CellularJs.Step | BombSquad_MapGen/MapGenerator.js:251-315 | the simultaneous step keeps the map's width and height; what it does to each cell is stated by StepFlipsByRule |
| CellularJs.StepFlipsByRule | BombSquad_MapGen/MapGenerator.js:285-309 | a cell changes exactly when it is Free with fewer than `deathLimit` Free neighbours or not Free with more than `birthRate`; a Free cell can only become Restricted and any other cell only Free |
| CellularJs.QuietStepRepeats | BombSquad_MapGen/MapGenerator.js:107-119 | a step that changes nothing is followed by another that changes nothing, so settling smoothing stops there |
| CellularJs.Smooth | BombSquad_MapGen/MapGenerator.js:92-120 | the map after smoothing is the initial map stepped once per logged count: exactly `iterations` steps when it is not negative, otherwise until the stopping rule holds |
| CellularJs.RunSteps | BombSquad_MapGen/MapGenerator.js:92-96 | the map after `iterations` steps, with one logged count per step |
| CellularJs.RunUntilSettled | BombSquad_MapGen/MapGenerator.js:99-120 | steps until a count repeats the previous one, at most `maxSmoothing`; `Number.MAX_VALUE` matches no count |
| CellularJs.SpawnObstacles | BombSquad_MapGen/MapGenerator.js:783-793 | exactly the Free cells whose draw succeeded become Blocked; nothing else changes |
| GameMap.Map.Cells | SDL2_Engine/Projects/BombSquad/src/Game/MapGeneration/Map.hpp:162-173 | the contents are a width by height grid |
| GameMap.Map.constructor | SDL2_Engine/Projects/BombSquad/src/Game/MapGeneration/Map.hpp:29 | a default map is 0 by 0 and owns no storage |
| GameMap.Map.Sized | SDL2_Engine/Projects/BombSquad/src/Game/MapGeneration/Map.hpp:39 | a map built with dimensions has them and is zero-filled |
| GameMap.Map.Dispose | SDL2_Engine/Projects/BombSquad/src/Game/MapGeneration/Map.hpp:86-99 | releases the storage and zeroes both dimensions; a map without storage is left alone |
| GameMap.Map.SetBounds | SDL2_Engine/Projects/BombSquad/src/Game/MapGeneration/Map.hpp:62-79 | discards the old contents and leaves a fresh zero-filled block of the new size |
| GameMap.Map.Assign | SDL2_Engine/Projects/BombSquad/src/Game/MapGeneration/Map.hpp:141-151 | takes the other map's size and a copy of its contents in storage of its own; the other map is unchanged |
| GameMap.Map.Width | SDL2_Engine/Projects/BombSquad/src/Game/MapGeneration/Map.hpp:118 | the width is the storage's first dimension |
| GameMap.Map.Height | SDL2_Engine/Projects/BombSquad/src/Game/MapGeneration/Map.hpp:127 | the height is the storage's second dimension |
| GameMap.CopyOf | SDL2_Engine/Projects/BombSquad/src/Game/MapGeneration/Map.hpp:49 | the copy constructor yields a fresh map equal in size and contents to the original |
| Grid.Copy | BombSquad_MapGen/MapGenerator.js:265-276 | the copy of the map into fresh storage has the same contents |
| Grid.Write | SDL2_Engine/Projects/BombSquad/src/Game/MapGeneration/Map.hpp:162 | writing a cell through the subscript changes that cell and nothing else |
| CellularCpp.SweepOfFixedPoint | SDL2_Engine/Projects/BombSquad/src/Game/MapGeneration/MapGenerator.cpp:207-248 | a map the rule leaves alone survives every partial sweep, so the in-place step leaves it alone as well |
| Lines.LineAxes | BombSquad_MapGen/MapGenerator.js:428-453 | the axes of a line: the short distance never exceeds the long one, whichever axis is longer |
| Lines.WalkAlong | BombSquad_MapGen/MapGenerator.js:464-465 | each point moves one `step` along the long axis |
| Lines.WalkAcross | BombSquad_MapGen/MapGenerator.js:471-472 | each jump moves one `gradientStep` along the short axis |
| Lines.AccumulateStep | SDL2_Engine/Projects/BombSquad/src/Game/MapGeneration/MapGenerator.cpp:389-397 | adding at most the divisor to a counter raises its quotient by one exactly when the remainder reaches the divisor |
| Lines.JsAccumulatorStep | BombSquad_MapGen/MapGenerator.js:468-476 | one pass of the loop either jumps, taking `longest` off the accumulator, or does not, matching the closed form |
| Lines.JsRunClosed | BombSquad_MapGen/MapGenerator.js:456-477 | the JavaScript loop's jump count and accumulator after i passes are the closed forms |
| Lines.GetLineJs | BombSquad_MapGen/MapGenerator.js:419-481 | returns exactly the `longest` points of the line from `from`, point i being the closed-form point |
| Lines.CppAccumulatorStep | SDL2_Engine/Projects/BombSquad/src/Game/MapGeneration/MapGenerator.cpp:389-397 | one pass of the C++ loop keeps the integer accumulator equal to the remainder of the running error, jumping when the quotient rises |
| Lines.CppRunClosed | SDL2_Engine/Projects/BombSquad/src/Game/MapGeneration/MapGenerator.cpp:377-398 | the C++ loop's jump count and accumulator are the quotient and remainder of the running error by `longest` |
| Lines.GetLineCpp | SDL2_Engine/Projects/BombSquad/src/Game/MapGeneration/MapGenerator.cpp:341-402 | the C++ line, with an integer accumulator and `SIGN(0) == 1`, has exactly the points the JavaScript line has |
| Lines.CppLineIsJsLine | SDL2_Engine/Projects/BombSquad/src/Game/MapGeneration/MapGenerator.cpp:341-402 | a full line built the C++ way is the JavaScript line |
| Lines.CppJumpsAreJsJumps | SDL2_Engine/Projects/BombSquad/src/Game/MapGeneration/MapGenerator.cpp:377 | the integer accumulator started at `longest / 2` jumps at the same passes as the real one started at `longest / 2` |
| Lines.CppPointIsJsPoint | SDL2_Engine/Projects/BombSquad/src/Game/MapGeneration/MapGenerator.cpp:355-373 | point i built with `SIGN` equals point i built with `Math.sign`: the axis where they differ has length 0 |
| Lines.LineStartsAtFrom | BombSquad_MapGen/MapGenerator.js:461 | the first point is `from` |
| Lines.LineEndsBeforeTo | BombSquad_MapGen/MapGenerator.js:459 | the point after the last is `to`, so the line leaves `to` out |
| Lines.LineIsConnected | BombSquad_MapGen/MapGenerator.js:459-477 | consecutive points are 8-neighbours, one step apart on the long axis |
| Lines.AlongIsIndex | BombSquad_MapGen/MapGenerator.js:464-465 | point i lies i cells from `from` along the long axis, in the direction of `to` |
| Lines.LineIsSimple | BombSquad_MapGen/MapGenerator.js:459-477 | no two points coincide and none is `to` |
| Lines.JumpsBounded | BombSquad_MapGen/MapGenerator.js:468-476 | the short axis moves at most `shortest` times |
| Lines.LineStaysInBox | BombSquad_MapGen/MapGenerator.js:419-481 | every point lies in the rectangle spanned by `from` and `to` |
| Lines.DiscIsCircle | SDL2_Engine/Projects/BombSquad/src/Game/MapGeneration/MapGenerator.cpp:419-422 | the square scan adds nothing: a cell is painted exactly when its offset lies within the radius, and a negative radius paints nothing |
| Lines.DrawCircle | SDL2_Engine/Projects/BombSquad/src/Game/MapGeneration/MapGenerator.cpp:414-436 | every on-map cell within the radius of the centre holds the brush afterwards; every other cell is unchanged |
| Lines.DrawDiscColumn | BombSquad_MapGen/MapGenerator.js:498-513 | one column of offsets paints exactly its on-map cells within the radius |
| FloodFill.Neighbours4 | SDL2_Engine/Projects/BombSquad/src/Game/MapGeneration/RegionIdentifier.cpp:21 | the fill tries four offsets per cell |
| FloodFill.Neighbours4AreAdjacent | BombSquad_MapGen/RegionIdentifier.js:47 | the four offsets are exactly the orthogonal neighbours |
| FloodFill.Neighbours4Symmetric | SDL2_Engine/Projects/BombSquad/src/Game/MapGeneration/RegionIdentifier.cpp:21 | a cell is a neighbour of each of its neighbours, so a fill can reach a region from any of its cells |
| FloodFill.FindRegions | SDL2_Engine/Projects/BombSquad/src/Game/MapGeneration/RegionIdentifier.cpp:25-80 | the scan yields the regions of the map: each non-empty, without repeats, 4-connected, made of ident cells and closed under 4-adjacency, no two sharing a cell, every ident cell in one, in the order their first cell comes in the scan |
| FloodFill.ScanCell | SDL2_Engine/Projects/BombSquad/src/Game/MapGeneration/RegionIdentifier.cpp:28-78 | one cell of the scan flags the cell and, when it holds ident and was unflagged, adds the region filled from it, keeping every invariant of the scan |
| FloodFill.CloseRegion | SDL2_Engine/Projects/BombSquad/src/Game/MapGeneration/RegionIdentifier.cpp:45-76 | when the worklist runs dry the enclosed cells form a closed, connected region disjoint from the earlier ones |
| FloodFill.FoundPermuted | SDL2_Engine/Projects/BombSquad/src/Game/MapGeneration/RegionIdentifier.cpp:83-85 | reordering the regions keeps them the regions of the map with the same cells |
| FloodFill.StableSizeOrder | BombSquad_MapGen/RegionIdentifier.js:103-104 | a stable sort by decreasing size of regions in scan order puts larger regions first and equal sizes in scan order |
| RegionIdentifierCpp.Contained | SDL2_Engine/Projects/BombSquad/src/Game/MapGeneration/RegionIdentifier.cpp:76 | the cell lists of the regions in order |
| RegionIdentifierCpp.RegionIdentifier.constructor | SDL2_Engine/Projects/BombSquad/src/Game/MapGeneration/RegionIdentifier.cpp:16-86 | the regions are the maximal 4-connected sets of ident cells, each cell in exactly one, larger regions first, each built on the map's size |
| RegionIdentifierJs.Identify | BombSquad_MapGen/RegionIdentifier.js:19-105 | throws for a map with no width and for one whose last column is empty, and otherwise builds the identifier on the map's size with its regions found |
| RegionIdentifierJs.RegionIdentifier.constructor | BombSquad_MapGen/RegionIdentifier.js:33-105 | the identifier records the map's size and holds fresh regions that are the map's regions, larger first and equal sizes in scan order |
| RegionIdentifierJs.BuildRegions | BombSquad_MapGen/RegionIdentifier.js:96 | one fresh, distinct `Region` per coordinate list, built on the map's size |
| RegionJs.FirstOutside | BombSquad_MapGen/Region.js:87-104 | the edge test stops at the first of the four offsets on the map and outside the region |
| RegionJs.FirstOutsideMeaning | BombSquad_MapGen/Region.js:87-104 | the edge test finds an offset exactly when one exists on the map outside the region |
| RegionJs.Register | BombSquad_MapGen/Region.js:42-63 | every coordinate is marked in the hit map and nothing else; each gets depth 0; the sums are the coordinate sums |
| RegionJs.TestEdge | BombSquad_MapGen/Region.js:86-107 | a cell off the border is an edge exactly when one of its on-map offsets is outside the region; probing adds empty hit-map columns and changes no mark |
| RegionJs.FindEdges | BombSquad_MapGen/Region.js:69-112 | the edges are exactly the region's edge cells in order; the marks are unchanged and only the probed columns are added, empty |
| RegionJs.EdgesAreEdgeCells | BombSquad_MapGen/Region.js:75-112 | a cell is in the edge list exactly when it is a coordinate that is an edge cell, and the list is no longer than the coordinates |
| RegionJs.NonEmptyRegionHasEdge | BombSquad_MapGen/Region.js:75-112 | a non-empty region on the map has at least one edge: its leftmost cell |
| RegionJs.CentreOnMap | BombSquad_MapGen/Region.js:50-66 | the centre of mass of a non-empty region on the map lies within the map |
| RegionJs.Offsets8 | BombSquad_MapGen/Region.js:131 | the depth search tries eight offsets |
| RegionJs.Search | BombSquad_MapGen/Region.js:139-189 | the search from a coordinate ends at a trace chained back to it, either at a missing hit-map column (a throw) or at a cell outside the region or next to the border; without a throw no chain reaches such a cell in fewer hops, and a border-adjacent root is its own result |
| RegionJs.TraceBack | BombSquad_MapGen/Region.js:192-200 | the recorded depth is -1 plus the number of entries along the parent chain |
| RegionJs.HopsCoverDistance | BombSquad_MapGen/Region.js:162-185 | each parent step moves at most one row and one column, so the depth bounds the distance to the found cell |
| RegionJs.Region.constructor | BombSquad_MapGen/Region.js:21-113 | the region keeps the coordinates and is built: marks, centre of mass, depths 0 and edges as described |
| RegionJs.Region.AnalyseDepth | BombSquad_MapGen/Region.js:120-203 | without a throw every coordinate gets its depth: the least number of hops from it to a cell outside the region or next to the border (0 for a border-adjacent cell); nothing else about the region changes |
| Sorting.Permute | SDL2_Engine/Projects/BombSquad/src/Game/MapGeneration/RegionIdentifier.cpp:83-85 | a list read through an order of its positions |
| Sorting.SortDescending | BombSquad_MapGen/RegionIdentifier.js:103-104 | returns an order of all positions by decreasing key that keeps equal keys in their original order |
| Sorting.InsertKeepsOrder | BombSquad_MapGen/RegionIdentifier.js:103-104 | inserting a position after every one with a key not smaller keeps the order a stable descending permutation |
| Sorting.StableIsDescending | BombSquad_MapGen/RegionIdentifier.js:103-104 | a stable descending order is non-increasing |
| Sorting.HeadLeads | BombSquad_MapGen/RegionIdentifier.js:103-104 | the first position of a stable descending order has the greatest key and is the earliest with it |
| Sorting.PermuteMembers | SDL2_Engine/Projects/BombSquad/src/Game/MapGeneration/RegionIdentifier.cpp:83-85 | reading through a permutation keeps exactly the entries |
| Sorting.PermuteDistinct | SDL2_Engine/Projects/BombSquad/src/Game/MapGeneration/RegionIdentifier.cpp:83-85 | reading a list without repeats through a permutation leaves no repeats |
| LinkRegions.Distances | BombSquad_MapGen/MapGenerator.js:363-365 | the sort key of every region is the distance of its centre from the centre of region i |
| LinkRegions.BestEdges | BombSquad_MapGen/MapGenerator.js:368-386 | the chosen pair of edge cells is the closest, and among equally close pairs the first in loop order |
| LinkRegions.BestInRow | BombSquad_MapGen/MapGenerator.js:375-385 | the inner loop keeps the closest pair seen so far, replacing it only by a strictly closer one |
| LinkRegions.BestPairIsClosest | SDL2_Engine/Projects/BombSquad/src/Game/MapGeneration/MapGenerator.cpp:290-308 | no pair is closer than the chosen one, and an equally close pair is the chosen one or comes after it |
| LinkRegions.PaintLine | BombSquad_MapGen/MapGenerator.js:392-393 | painting a circle at each point of the line sets exactly the on-map cells within the passage radius of some point to the brush; every other cell is unchanged |
| LinkRegions.PaintedStep | SDL2_Engine/Projects/BombSquad/src/Game/MapGeneration/MapGenerator.cpp:314-315 | painting one more circle adds exactly the cells of that disc |
| LinkRegions.JoinCount | BombSquad_MapGen/MapGenerator.js:396-397 | the two pushes add one link at each end and change no other count |
| LinkRegions.JoinSymmetric | SDL2_Engine/Projects/BombSquad/src/Game/MapGeneration/MapGenerator.cpp:318-319 | recording the link both ways keeps every link matched by its reverse |
| LinkRegions.JoinMembers | SDL2_Engine/Projects/BombSquad/src/Game/MapGeneration/MapGenerator.cpp:318-319 | joining adds exactly the two new links |
| LinkRegions.JoinKeepsPairs | BombSquad_MapGen/MapGenerator.js:396-397 | joining keeps links in range and in pairs, and leaves every other region's list alone |
| LinkRegions.UnflaggedShrinks | BombSquad_MapGen/MapGenerator.js:337-340 | raising flags never adds unflagged regions, and raising one removes one, so the recursion ends |
| LinkRegions.RecurseLink | BombSquad_MapGen/MapGenerator.js:335-345 | the flags afterwards are exactly the earlier ones plus every region reached from the start region along links through unflagged regions |
| LinkRegions.RelinkCloses | BombSquad_MapGen/MapGenerator.js:400-401 | flagging a region joined to a flagged one and walking from it leaves the flags closed under links |
| LinkRegions.LinkOneJs | BombSquad_MapGen/MapGenerator.js:355-404 | one region's turn throws, changing nothing, exactly when the `iter`-th nearest region does not exist or either region has no edge cell; otherwise the links become the old ones plus the pair both ways, the cells painted are exactly the discs along the line between the closest edge pair, and the new flags are exactly those the walk from the region reaches when the partner was flagged; every flagged region stays joined to region 0 through links |
| LinkRegions.LinkPassJs | BombSquad_MapGen/MapGenerator.js:350-405 | one pass keeps the links paired, keeps every flag, and keeps every flagged region joined to region 0 through links; a pass that ends with `allLinked` has every region flagged, and one at `iter` past the last region must end so |
| LinkRegions.LinkRegionsJs | BombSquad_MapGen/MapGenerator.js:327-407 | no regions change nothing; otherwise region 0 is flagged, and a run that ends normally has every region flagged and joined to region 0 through links; links stay paired, and cells only become the brush |
| LinkRegions.LinkOneCpp | SDL2_Engine/Projects/BombSquad/src/Game/MapGeneration/MapGenerator.cpp:274-326 | one region's turn is undefined behaviour, changing nothing, exactly when the `iter`-th farthest region does not exist or either region has no edge cell; otherwise the links become the old ones plus the pair both ways, the painted cells are exactly the discs along the line between the closest edge pair, and the flags are the relink's result from the partner when it was flagged, else unchanged; a relink that follows links keeps every flagged region joined to region 0 |
| LinkRegions.LinkPassCpp | SDL2_Engine/Projects/BombSquad/src/Game/MapGeneration/MapGenerator.cpp:269-327 | one pass keeps the links paired; a relink that follows links keeps every flagged region joined to region 0; with a relink that only raises flags no flag is lost, and a pass ending with `allLinked` has every region flagged |
| LinkRegions.LinkRegionsCpp | SDL2_Engine/Projects/BombSquad/src/Game/MapGeneration/MapGenerator.cpp:258-329 | no regions change nothing; a relink that follows links keeps every flagged region joined to region 0; with one that also only raises flags, region 0 is flagged and a run that ends normally has every region flagged and joined to region 0; cells only become the brush |
| PathSearch.Offset | BombSquad_MapGen/MapGenerator.js:709 | each of the four offsets moves to an orthogonal neighbour |
| PathSearch.OffsetsCover | SDL2_Engine/Projects/BombSquad/src/Game/MapGeneration/MapGenerator.cpp:622 | the four offsets reach every orthogonal neighbour |
| PathSearch.WalkStaysIn | BombSquad_MapGen/MapGenerator.js:724-749 | a walk from a cell of a set closed under traversable steps never leaves the set |
| PathSearch.Pick | SDL2_Engine/Projects/BombSquad/src/Game/MapGeneration/MapGenerator.cpp:628-634 | sorting the open list and taking its front yields the entry with the lowest f (JavaScript) or the highest f (C++), the first such one under a stable sort; the rest is the sorted remainder |
| PathSearch.PickKeepsFrontier | BombSquad_MapGen/MapGenerator.js:715-718 | taking the front entry keeps the search's bookkeeping, with the taken cell pending expansion |
| PathSearch.Visit | BombSquad_MapGen/MapGenerator.js:726-748 | a neighbour off the map or not traversable is skipped; one without a parent is listed; the current cell becomes its parent when that lowers its g score |
| PathSearch.Expand | SDL2_Engine/Projects/BombSquad/src/Game/MapGeneration/MapGenerator.cpp:640-665 | visiting the four neighbours of a cell that is not the goal keeps the bookkeeping with the cell expanded |
| PathSearch.Search | BombSquad_MapGen/MapGenerator.js:698-750 | the search ends at the goal, or, when the list runs out, at a cell from which the goal is unreachable |
| PathSearch.NewGrid | SDL2_Engine/Projects/BombSquad/src/Game/MapGeneration/MapGenerator.cpp:600-616 | every node starts without parent and with no score except the start's: g 0 and f equal to the Manhattan distance |
| PathSearch.Progress | BombSquad_MapGen/MapGenerator.js:713-750 | each turn of the search reaches a new cell, expands a cell for the first time or shortens the list, so it ends |
| PathSearch.Exhausted | BombSquad_MapGen/MapGenerator.js:713 | when the list runs out, the goal differs from the start and cannot be reached |
| PathSearch.TraceBack | BombSquad_MapGen/MapGenerator.js:753-768 | following the parents from the last cell and reversing gives a walk from the start to it that leaves out the start and never repeats a cell |
| PathSearch.ParentChain | SDL2_Engine/Projects/BombSquad/src/Game/MapGeneration/MapGenerator.cpp:673-679 | the parent loop lists the cells from the last one back to the start, the start left out |
| PathSearch.ChainIsWalk | SDL2_Engine/Projects/BombSquad/src/Game/MapGeneration/MapGenerator.cpp:682 | a parent chain read backwards is a walk from the start that never repeats a cell and ends at the last cell |
| PathSearch.FindPathJs | BombSquad_MapGen/MapGenerator.js:660-772 | a start off the map is a TypeError; otherwise a walk from the start without repeats that ends at the goal whenever the goal can be reached |
| PathSearch.FindPathCpp | SDL2_Engine/Projects/BombSquad/src/Game/MapGeneration/MapGenerator.cpp:586-687 | the path is non-empty exactly when the goal differs from the start and can be reached, and then it is a walk from the start to the goal without repeats |
| Spawns.DepthAfterOffGrid | BombSquad_MapGen/MapGenerator.js:532-537 | nothing is gathered off the grid, so every point off it keeps depth 0 |
| Spawns.LookupDepthGrid | SDL2_Engine/Projects/BombSquad/src/Game/MapGeneration/MapGenerator.cpp:451-478 | reading the gathered depth grid gives the depth of the last region that listed the cell, 0 for cells no region listed |
| Spawns.DeepKeeps | BombSquad_MapGen/MapGenerator.js:561 | the filter keeps exactly the listed cells of non-zero depth, in order, and removes something exactly when some cell has depth 0 |
| Spawns.DeepDistinct | BombSquad_MapGen/MapGenerator.js:561 | filtering a list without repeats leaves no repeats |
| Spawns.Gather | BombSquad_MapGen/MapGenerator.js:532-558 | a fresh zero-filled depth grid receives every region's depths in region order, and every region cell is appended to the candidates |
| Spawns.GatherRegion | SDL2_Engine/Projects/BombSquad/src/Game/MapGeneration/MapGenerator.cpp:465-477 | one region's pass writes its depths, the last one winning for a repeated cell, and appends its cells |
| Spawns.OrderByDepth | BombSquad_MapGen/MapGenerator.js:567 | the candidates ordered deepest first, equal depths kept in order; the head is the deepest |
| Spawns.TotalAtLeast | BombSquad_MapGen/MapGenerator.js:596-599 | the four-times-depth bonus alone contributes once per spawn already chosen |
| Spawns.PickedStep | BombSquad_MapGen/MapGenerator.js:579-610 | the next candidate is taken exactly when it is not a spawn yet and its score beats the best so far, 0 while nothing is held |
| Spawns.ScoredJsAt | BombSquad_MapGen/MapGenerator.js:593-602 | every candidate that is not a spawn gets the mean over the spawns of its path length plus four times its depth, at least four times its depth |
| Spawns.ScoredCppAt | SDL2_Engine/Projects/BombSquad/src/Game/MapGeneration/MapGenerator.cpp:521-530 | every candidate that is not a spawn gets the truncated integer mean of the same terms, at least four times its depth |
| Spawns.ScoredJsBound | BombSquad_MapGen/MapGenerator.js:596-602 | an unused candidate scores at least four times its depth |
| Spawns.ScoredCppBound | SDL2_Engine/Projects/BombSquad/src/Game/MapGeneration/MapGenerator.cpp:524-530 | an unused candidate scores at least four times its depth |
| Spawns.ChainJsAt | BombSquad_MapGen/MapGenerator.js:573-614 | every spawn after the first is the pick of the pass run with the spawns before it |
| Spawns.ChainCppAt | SDL2_Engine/Projects/BombSquad/src/Game/MapGeneration/MapGenerator.cpp:501-542 | every spawn after the first is the pick of the pass run with the spawns before it |
| Spawns.Listed | BombSquad_MapGen/MapGenerator.js:581-587 | the inner loop reports exactly whether the candidate is already a spawn |
| Spawns.PathLengthJs | BombSquad_MapGen/MapGenerator.js:597 | the length of the path the JavaScript `findPath` returns between the two cells over Free cells |
| Spawns.PathLengthCpp | SDL2_Engine/Projects/BombSquad/src/Game/MapGeneration/MapGenerator.cpp:525 | the size of the path the C++ `findPath` returns between the two cells over Free tiles |
| Spawns.TotalJs | BombSquad_MapGen/MapGenerator.js:596-599 | the sum over the spawns of path length plus four times the depth |
| Spawns.AverageJs | BombSquad_MapGen/MapGenerator.js:593-602 | the candidate's score is that sum divided by the number of spawns, at least four times its depth |
| Spawns.TotalCpp | SDL2_Engine/Projects/BombSquad/src/Game/MapGeneration/MapGenerator.cpp:524-527 | the integer sum over the spawns of path length plus four times the depth |
| Spawns.AverageCpp | SDL2_Engine/Projects/BombSquad/src/Game/MapGeneration/MapGenerator.cpp:521-530 | the candidate's score is that sum divided with truncation, at least four times its depth |
| Spawns.FurthestJs | BombSquad_MapGen/MapGenerator.js:575-610 | one pass picks the first unused candidate with the highest score above 0, or none |
| Spawns.ScoreJs | BombSquad_MapGen/MapGenerator.js:579-609 | one candidate of the pass is scored and the best so far updated by a strict comparison |
| Spawns.FurthestCpp | SDL2_Engine/Projects/BombSquad/src/Game/MapGeneration/MapGenerator.cpp:503-538 | one pass picks the first unused candidate with the highest integer score above 0, or none |
| Spawns.ScoreCpp | SDL2_Engine/Projects/BombSquad/src/Game/MapGeneration/MapGenerator.cpp:507-537 | one candidate of the pass is scored and the best so far updated by a strict comparison |
| Spawns.SelectJs | BombSquad_MapGen/MapGenerator.js:570-614 | the spawns start with the deepest candidate, have no repeats, and each is the pick of its pass; fewer than asked only when every candidate already is a spawn |
| Spawns.SelectCpp | SDL2_Engine/Projects/BombSquad/src/Game/MapGeneration/MapGenerator.cpp:495-542 | the spawns start with the deepest candidate, have no repeats, and each is the pick of its pass; a pass with no pick ends the selection early |
| Spawns.Pigeonhole | BombSquad_MapGen/MapGenerator.js:564 | a list without repeats drawn from the candidates is no longer than they are, so enough candidates leave a pick for every pass |
| Spawns.WriteMarks | BombSquad_MapGen/MapGenerator.js:617-618 | spawn k receives its mark and no other cell changes |
| Spawns.MarkAround | SDL2_Engine/Projects/BombSquad/src/Game/MapGeneration/MapGenerator.cpp:552-568 | the on-map orthogonal neighbours of a spawn that are Free or Restricted become Safe; nothing else changes |
| Spawns.MarkSpawns | BombSquad_MapGen/MapGenerator.js:617-640 | every spawn holds its mark, and every other cell next to a spawn that was Free or Restricted becomes Safe |
| Spawns.MarkJs | BombSquad_MapGen/MapGenerator.js:617-640 | spawn i is marked with the string of i + 1, then the safe zones are drawn when asked |
| Spawns.MarkCpp | SDL2_Engine/Projects/BombSquad/src/Game/MapGeneration/MapGenerator.cpp:545-568 | every spawn becomes a SpawnPoint tile, then the safe zones are drawn |
| Spawns.OrderFacts | BombSquad_MapGen/MapGenerator.js:561-567 | the ordered list holds exactly the candidates of positive depth, on the grid, deepest first, without repeats when no cell was gathered twice |
| Spawns.Rank | BombSquad_MapGen/MapGenerator.js:532-567 | gathering, filtering and sorting yields exactly the candidates of positive depth, each on the grid, in depth order with the deepest first, and without repeats when no cell was gathered twice |
| Spawns.RankCpp | SDL2_Engine/Projects/BombSquad/src/Game/MapGeneration/MapGenerator.cpp:451-489 | the C++ ranking with the erase as written: undefined exactly when no cell has depth 0; otherwise it orders the cells the erase leaves deepest first, each a gathered cell on the grid, and when exactly one cell had depth 0 it matches the JavaScript ranking; equal depths keep the stable tie order, which `std::sort` does not promise (Left out) |
| Spawns.SpawnsAmongCandidates | BombSquad_MapGen/MapGenerator.js:570 | spawns drawn from the ordered list are candidates and the first is among the deepest |
| Spawns.FindPlayerSpawnsJs | BombSquad_MapGen/MapGenerator.js:530-644 | refuses exactly when there are fewer candidates than players, changing nothing; otherwise places the players (at least one) deepest first, each the pick of its pass, with their marks and safe zones; a TypeError after marking only when candidates run out, which never happens without repeated cells |
| Spawns.PlaceJs | BombSquad_MapGen/MapGenerator.js:570-643 | choosing and marking from the ordered list either places every player or marks all candidates and throws |
| Spawns.FindPlayerSpawnsCpp | SDL2_Engine/Projects/BombSquad/src/Game/MapGeneration/MapGenerator.cpp:449-572 | refuses exactly when there are fewer candidates than players; no players is undefined behaviour; otherwise places exactly the players, deepest first, each the pick of its pass, with spawn tiles and safe zones, for the stable tie order of the candidate sort (Left out) |
| Spawns.PlaceCpp | SDL2_Engine/Projects/BombSquad/src/Game/MapGeneration/MapGenerator.cpp:492-571 | choosing and marking from the ordered list places every player, or hits undefined behaviour and changes nothing |
| Spawns.EraseAfterRemove | SDL2_Engine/Projects/BombSquad/src/Game/MapGeneration/MapGenerator.cpp:481 | `erase` of the single position `remove_if` returns: defined exactly when some cell has depth 0, and then exactly one cell goes, however many have depth 0; every cell of positive depth stays, and with a single cell of depth 0 the result is the intended filter |
| Spawns.EraseKeepsStaleCopies | SDL2_Engine/Projects/BombSquad/src/Game/MapGeneration/MapGenerator.cpp:481-484 | three cells of which only the last has depth: the intended filter keeps one, but the erase leaves two copies of it, so two players pass the count check |

## Left out

- Randomness: `Math.random`, `rand` and `srand` are not modelled. Every random draw is a parameter: a grid of booleans for seeding, and booleans or rolls for obstacle placement and spawn choice.
- The `generate` driver (BombSquad_MapGen/MapGenerator.js:69-162) and the C++ `generateMap` driver are not modelled as a whole, because their retry loop has no termination bound. The same applies to their console output, `Validate` of width and height, and seeding. Their smoothing phase is `CellularJs.Smooth` / `CellularCpp.Smooth`, and the remaining phases are modelled one by one.
- `Region.cpp` (the C++ `Region`, its `analyseDepth` and `recursiveLinkToMain`) is not part of this model. `recursiveLinkToMain` is the parameter `relink` of the C++ link members. The C++ depth grid and region data enter the C++ spawn search as given values.
- Regions are seen by linking as a centre and a list of edge cells (`LinkRegions.Site`), not as objects with a hit map.
- Centres and distances are reals. Floating-point rounding and NaN are not modelled. Distances are compared through their squares.
- Integers are unbounded. 32-bit overflow of `int` counters and coordinates is not modelled; the generator's values are far below the limits.
- JavaScript numbers are taken as exact. The sums and averages in spawn scoring are small integers, for which doubles are exact.
- C++ undefined behaviour (out-of-range vector or grid reads, writes into an empty vector, null dereference) ends a run with an `Undefined` outcome rather than an arbitrary one.
- The contents `remove_if` leaves behind its returned position are unspecified by the C++ standard. The model takes them as libstdc++ leaves them: the old elements at those positions.
- `std::sort` is not stable. The C++ region order does not depend on it: `LinkRegions.FarthestAt` accepts any descending order of the distances. The other two C++ sorts are modelled with the stable tie order, as the three lines below say.
- PathSearch.Pick: for the C++ open list (`HighestFirst`) the entry taken has the highest f under any tie order, but the clause that it is the earliest among equal f holds only for the stable tie order, which `std::sort` does not promise.
- Spawns.RankCpp: the candidates of equal depth are put in their gathering order (the stable tie order of `DepthSorted`), which `std::sort` at MapGenerator.cpp:487-489 does not promise, so the exact order of the ranked list is proved only for that tie order.
- Spawns.FindPlayerSpawnsCpp: the spawn-choice contracts (`ChainCpp`, the first spawn being `order[0]`) are stated for the stable tie order of `Spawns.RankCpp`, so they do not cover the other tie orders `std::sort` may produce, under which the first spawn and every later pick may differ.
- PathSearch.FindPathCpp: requires the start cell to be on the map, because the C++ indexes its node grid at the start without a check.
- FixedString.FString.CountOccurrences: requires a non-empty pattern, because for an empty one the counting loop as written never ends (see Findings).
- FixedString.FString.Replace: requires a non-empty `find`, for the same reason; ReplaceIntended handles the empty case.
- FixedString.FString.FindLastOf: requires a match at or before the start, because without one the `size_t` loop runs past index 0 (see Findings).
- FString's stream operators, and the `c_str`/`length` getters beyond `Contents`, are not modelled.
- Bitmask: `norEquals` and `nandEquals` are declared `const` yet assign `mMask`, so they cannot be instantiated and are not modelled. `getValue` and the conversion to the base type read the mask and are not modelled separately.
- Bitmask: the four shift members take the amount as a 5-bit value (0 to 31), because a shift by a negative amount or by 32 or more is undefined in C++.
- Math: `lerp`, `lerpUnclamped` and `inverseLerp` are floating-point and not modelled.
- Audio: SDL mixer calls (`Mix_AllocateChannels`, playback) become parameters, such as the channel count granted. `playSFX`, music playback and volume control are not modelled.
- Scenes: the `stable_sort` key of the render pass (scene addresses) is a parameter, and so is each `createScene` result. Scene construction, destruction and rendering are not modelled.
- Globals: each interface's `createInterface` result is a parameter. Object construction and `delete` are not modelled.
- Color: the constructor's number, string and Color-copy branches are not modelled; they run `setRGBA`, the `hex` setter or a copy, which are modelled. Also not modelled: `randomize`, `randomColor` (randomness), `lerp`, `colorLerp` (floating point), and the `rgb`/`rgba` string getters.
- ExtendProperties: the `ExtendProperties` property-copy function (BombSquad_MapGen/JS_Framework/ExtendProperties.js:33-70) is not modelled, because it is reflection over arbitrary objects.
- ExtendProperties: `isAlphaNum`, `Math.lerp`, `lerpClamped`, `randomRange`, `sinT`, `cosT`, `asynchRequest` and the degree/radian constants are not modelled. They are floating point, randomness, clock or I/O.
- Rendering, input devices, resources and loggers are outside the generator and the utilities above and are not modelled.

## Findings

| source | as written | input that shows it | evidently intended | confidence | as-written member | corrected member |
|---|---|---|---|---|---|---|
| SDL2_Engine/Projects/BombSquad/src/Game/Powerups/PlayerProperties.cpp:122-123 | a permanent blast-radius powerup adds the powerup's bomb-count delta to the blast radius | a permanent powerup with only the blast flag and delta +3 leaves the starting radius 2 unchanged | add the blast delta, giving radius 5 | not executed | Powerups.BlastPowerupIgnoredAsWritten | Powerups.IntendedBlastRadius |
| SDL2_Engine/Projects/BombSquad/src/Game/Powerups/TempProperties.cpp:157 | the update loop starts at index `size()`, one past the end | every call, the empty list included: the first iteration reads index `size()`, past the end | start from the last element, `size() - 1` | not executed | Powerups.UpdateLoopStartOutOfRange | Powerups.TempProperties.Update |
| SDL2_Engine/Projects/SDL2_Engine/src/Utilities/FString.hpp:625-640 | `find_last_of` counts down a `size_t` while it is at least 0, which always holds | an empty string, or no matching character at or before the start | stop after index 0 and return -1 | not executed | FixedString.FindLastOfLeavesBuffer | FixedString.FString.FindLastOfIntended |
| SDL2_Engine/Projects/SDL2_Engine/src/Utilities/FString.hpp:790-895 | `prepend` leaves a stale character after a full buffer, and `replace` copies back only N characters, so no terminator is written | capacity 3 holding "a": prepend "b", then replace "a" with "cd"; the contents are "bcd" and the slot after them still holds the stale character, not a terminator | copy the terminator back with the contents | not executed | FixedString.ReplaceAfterPrependLosesTerminator | FixedString.ReplaceIntendedAfterPrependKeepsTerminator |
| SDL2_Engine/Projects/SDL2_Engine/src/Utilities/FString.hpp:816-819 | `replace` counts occurrences by resuming each search `FIND_LEN` past the last match, and `find` matches an empty pattern at its start index | replace with an empty `find` on any string: the search keeps returning the same index and the counting loop never ends | treat an empty `find` as occurring nowhere and leave the string unchanged | not executed | FixedString.EmptyFindStalls | FixedString.FString.ReplaceIntended |
| SDL2_Engine/Projects/SDL2_Engine/src/Audio/Audio.cpp:54-63 | the channel-finished callback decrements `usedChannels` whether or not the channel is still flagged | release a channel by hand so that no flag is set and the count is 0, then let the mixer report it finished: the count wraps to 2^64 - 1 | decrement only when the channel's flag is still set | not executed | Audio.CallbackBreaksConsistency | Audio.ChannelPool.ChannelCompleteIntended |
| SDL2_Engine/Projects/BombSquad/src/Game/MapGeneration/MapGenerator.cpp:481 | the result of `remove_if` goes to single-position `erase`, so only one element is erased | cells (0,0), (1,0), (2,0) with depths 0, 0, 3 leave two copies of (2,0), so two players pass the count check | erase the whole removed range, keeping only cells of non-zero depth | not executed | Spawns.EraseKeepsStaleCopies | Spawns.DeepKeeps |
