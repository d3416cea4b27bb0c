// Powerup effects and how a player's properties aggregate them: a powerup
// records which effects it carries in a flag mask; temporary powerups are
// kept in a timed list whose collective mask is the union of their masks;
// the player's effective values combine the base values with that list and
// clamp the result.
//
// The effect mask is a bitmask of distinct flags and is modelled as a set.
// Single-precision floats are modelled as reals and 32-bit ints as
// unbounded integers.

module Powerups {
  import opened SeqSteps

  datatype Effect =
    | FuseDuration
    | DeltaBlastRadius
    | DetonateAll
    | DeltaBombCount
    | ReverseControls
    | Teleport
    | HasMines
    | Speed

  /** Which actor a powerup affects; the actor enumeration is opaque here. */
  datatype Actor = NullActor | Actor(code: nat)

  type Byte = bv8

  /** The 16-byte identifier of a powerup's texture. */
  type TextureId = seq<Byte>

  /** The values a powerup carries; temporary powerups are stored as copies of these. */
  datatype PowerupData = PowerupData(
    mask: set<Effect>,
    actor: Actor,
    textureId: TextureId,
    name: string,
    description: string,
    duration: real,
    fuseLength: real,
    deltaBlastRadius: int,
    deltaBombCount: int,
    detonateAll: bool,
    reverseControls: bool,
    teleport: bool,
    mines: bool,
    speed: real)

  const ZeroTexture: TextureId := seq(16, _ => 0 as Byte)

  /** The values of a freshly constructed powerup. */
  const DefaultPowerup := PowerupData(
    {}, NullActor, ZeroTexture, "Unassigned", "Undescribed",
    0.0, 0.0, 0, 0, false, false, false, false, 0.0)

  class Powerup {
    var mask: set<Effect>
    var actor: Actor
    var textureId: TextureId
    var name: string
    var description: string
    var duration: real
    var fuseLength: real
    var deltaBlastRadius: int
    var deltaBombCount: int
    var detonateAll: bool
    var reverseControls: bool
    var teleport: bool
    var mines: bool
    var speed: real

    /** A copy of the powerup's values. */
    function Data(): PowerupData
      reads this
    {
      PowerupData(mask, actor, textureId, name, description, duration, fuseLength,
                  deltaBlastRadius, deltaBombCount, detonateAll, reverseControls, teleport, mines, speed)
    }

    constructor()
      ensures Data() == DefaultPowerup
    {
      mask := {};
      actor := NullActor;
      textureId := ZeroTexture;
      name := "Unassigned";
      description := "Undescribed";
      duration := 0.0;
      fuseLength := 0.0;
      deltaBlastRadius := 0;
      deltaBombCount := 0;
      detonateAll := false;
      reverseControls := false;
      teleport := false;
      mines := false;
      speed := 0.0;
    }

    // The descriptive setters store their value and leave the mask alone.

    method SetActor(a: Actor)
      modifies this
      ensures Data() == old(Data()).(actor := a)
    {
      actor := a;
    }

    method SetTextureId(id: TextureId)
      modifies this
      ensures Data() == old(Data()).(textureId := id)
    {
      textureId := id;
    }

    method SetName(n: string)
      modifies this
      ensures Data() == old(Data()).(name := n)
    {
      name := n;
    }

    method SetDescription(d: string)
      modifies this
      ensures Data() == old(Data()).(description := d)
    {
      description := d;
    }

    /** A duration of zero or less makes the powerup permanent. */
    method SetDuration(d: real)
      modifies this
      ensures Data() == old(Data()).(duration := d)
    {
      duration := d;
    }

    // The effect setters store their value and add exactly their own flag.

    method SetFuseLength(length: real)
      modifies this
      ensures Data() == old(Data()).(fuseLength := length, mask := old(mask) + {FuseDuration})
    {
      fuseLength := length;
      mask := mask + {FuseDuration};
    }

    method SetDeltaBlastRadius(delta: int)
      modifies this
      ensures Data() == old(Data()).(deltaBlastRadius := delta, mask := old(mask) + {DeltaBlastRadius})
    {
      deltaBlastRadius := delta;
      mask := mask + {DeltaBlastRadius};
    }

    method SetDetonateAll()
      modifies this
      ensures Data() == old(Data()).(detonateAll := true, mask := old(mask) + {DetonateAll})
    {
      detonateAll := true;
      mask := mask + {DetonateAll};
    }

    method SetDeltaBombCount(delta: int)
      modifies this
      ensures Data() == old(Data()).(deltaBombCount := delta, mask := old(mask) + {DeltaBombCount})
    {
      deltaBombCount := delta;
      mask := mask + {DeltaBombCount};
    }

    method SetReverseControls(state: bool)
      modifies this
      ensures Data() == old(Data()).(reverseControls := state, mask := old(mask) + {ReverseControls})
    {
      reverseControls := state;
      mask := mask + {ReverseControls};
    }

    method SetTeleport()
      modifies this
      ensures Data() == old(Data()).(teleport := true, mask := old(mask) + {Teleport})
    {
      teleport := true;
      mask := mask + {Teleport};
    }

    method SetMines(state: bool)
      modifies this
      ensures Data() == old(Data()).(mines := state, mask := old(mask) + {HasMines})
    {
      mines := state;
      mask := mask + {HasMines};
    }

    method SetSpeed(s: real)
      modifies this
      ensures Data() == old(Data()).(speed := s, mask := old(mask) + {Speed})
    {
      speed := s;
      mask := mask + {Speed};
    }
  }

  /** A temporary powerup and the time it has been active. */
  datatype PowerupNode = PowerupNode(powerup: PowerupData, timer: real)

  /** The union of the masks of the stored powerups. */
  function MaskOf(nodes: seq<PowerupNode>): set<Effect>
  {
    if |nodes| == 0 then {} else MaskOf(nodes[..|nodes| - 1]) + nodes[|nodes| - 1].powerup.mask
  }

  /** An effect is in the collective mask exactly when some stored powerup carries it. */
  lemma {:induction false} MaskOfMembers(nodes: seq<PowerupNode>, e: Effect)
    ensures e in MaskOf(nodes) <==> exists i :: 0 <= i < |nodes| && e in nodes[i].powerup.mask
  {
    if |nodes| > 0 {
      var prefix := nodes[..|nodes| - 1];
      MaskOfMembers(prefix, e);
      if e in MaskOf(prefix) {
        var i :| 0 <= i < |prefix| && e in prefix[i].powerup.mask;
        assert nodes[i] == prefix[i];
      }
      if exists i :: 0 <= i < |nodes| && e in nodes[i].powerup.mask {
        var i :| 0 <= i < |nodes| && e in nodes[i].powerup.mask;
        if i < |prefix| {
          assert prefix[i] == nodes[i];
        }
      }
    }
  }

  /** The index of the most recently added powerup carrying `e`, or -1. */
  function LastWith(nodes: seq<PowerupNode>, e: Effect): (r: int)
    ensures -1 <= r < |nodes|
    ensures r >= 0 ==> e in nodes[r].powerup.mask
    ensures forall j :: r < j < |nodes| ==> e !in nodes[j].powerup.mask
  {
    if |nodes| == 0 then -1
    else if e in nodes[|nodes| - 1].powerup.mask then |nodes| - 1
    else LastWith(nodes[..|nodes| - 1], e)
  }

  /** The sum of the blast-radius deltas of the powerups carrying that effect. */
  function BlastTotal(nodes: seq<PowerupNode>): int
  {
    if |nodes| == 0 then 0
    else BlastTotal(nodes[..|nodes| - 1])
         + (var p := nodes[|nodes| - 1].powerup; if DeltaBlastRadius in p.mask then p.deltaBlastRadius else 0)
  }

  /** The sum of the bomb-count deltas of the powerups carrying that effect. */
  function BombTotal(nodes: seq<PowerupNode>): int
  {
    if |nodes| == 0 then 0
    else BombTotal(nodes[..|nodes| - 1])
         + (var p := nodes[|nodes| - 1].powerup; if DeltaBombCount in p.mask then p.deltaBombCount else 0)
  }

  /** The sum of the speeds of the powerups carrying that effect. */
  function SpeedTotal(nodes: seq<PowerupNode>): real
  {
    if |nodes| == 0 then 0.0
    else SpeedTotal(nodes[..|nodes| - 1])
         + (var p := nodes[|nodes| - 1].powerup; if Speed in p.mask then p.speed else 0.0)
  }

  /**
   * When no stored powerup carries an effect, its sum is zero, so the early
   * return the getters make on an absent flag agrees with their loops.
   */
  lemma {:induction false} TotalsWithoutFlag(nodes: seq<PowerupNode>)
    ensures DeltaBlastRadius !in MaskOf(nodes) ==> BlastTotal(nodes) == 0
    ensures DeltaBombCount !in MaskOf(nodes) ==> BombTotal(nodes) == 0
    ensures Speed !in MaskOf(nodes) ==> SpeedTotal(nodes) == 0.0
  {
    if |nodes| > 0 {
      TotalsWithoutFlag(nodes[..|nodes| - 1]);
    }
  }

  /** A flag is in the collective mask exactly when some stored powerup carries it. */
  lemma LastWithFindsFlag(nodes: seq<PowerupNode>, e: Effect)
    ensures LastWith(nodes, e) >= 0 <==> e in MaskOf(nodes)
  {
    MaskOfMembers(nodes, e);
  }

  /** The list without the powerups whose mask is exactly `m`, order kept. */
  function Without(nodes: seq<PowerupNode>, m: set<Effect>): (r: seq<PowerupNode>)
    ensures |r| <= |nodes|
  {
    if |nodes| == 0 then []
    else (if nodes[0].powerup.mask == m then [] else [nodes[0]]) + Without(nodes[1..], m)
  }

  /** Removal keeps exactly the powerups whose mask differs from `m`. */
  lemma {:induction false} WithoutMembers(nodes: seq<PowerupNode>, m: set<Effect>)
    ensures forall n :: n in Without(nodes, m) ==> n in nodes && n.powerup.mask != m
    ensures forall n :: n in nodes && n.powerup.mask != m ==> n in Without(nodes, m)
  {
    if |nodes| > 0 {
      WithoutMembers(nodes[1..], m);
      assert nodes == [nodes[0]] + nodes[1..];
    }
  }

  /** A node after `delta` more seconds. */
  function Aged(n: PowerupNode, delta: real): PowerupNode
  {
    n.(timer := n.timer + delta)
  }

  /** The node has been active for its whole duration. */
  predicate Expired(n: PowerupNode)
  {
    n.timer >= n.powerup.duration
  }

  /** Every node aged by `delta`, without those that have then expired, order kept. */
  function Tick(nodes: seq<PowerupNode>, delta: real): (r: seq<PowerupNode>)
    ensures |r| <= |nodes|
  {
    if |nodes| == 0 then []
    else (if Expired(Aged(nodes[0], delta)) then [] else [Aged(nodes[0], delta)]) + Tick(nodes[1..], delta)
  }

  /** The nodes kept by a tick are exactly the aged nodes that have not expired. */
  lemma {:induction false} TickMembers(nodes: seq<PowerupNode>, delta: real)
    ensures forall n :: n in Tick(nodes, delta) ==> !Expired(n) && exists i :: 0 <= i < |nodes| && n == Aged(nodes[i], delta)
    ensures forall i :: 0 <= i < |nodes| && !Expired(Aged(nodes[i], delta)) ==> Aged(nodes[i], delta) in Tick(nodes, delta)
  {
    if |nodes| > 0 {
      TickMembers(nodes[1..], delta);
      forall n | n in Tick(nodes, delta)
        ensures !Expired(n) && exists i :: 0 <= i < |nodes| && n == Aged(nodes[i], delta)
      {
        if n !in Tick(nodes[1..], delta) {
          assert n == Aged(nodes[0], delta);
        } else {
          var i :| 0 <= i < |nodes[1..]| && n == Aged(nodes[1..][i], delta);
          assert n == Aged(nodes[i + 1], delta);
        }
      }
      forall i | 0 <= i < |nodes| && !Expired(Aged(nodes[i], delta))
        ensures Aged(nodes[i], delta) in Tick(nodes, delta)
      {
        if i > 0 {
          assert nodes[1..][i - 1] == nodes[i];
        }
      }
    }
  }

  /** Some node expires after `delta` more seconds. */
  predicate AnyExpires(nodes: seq<PowerupNode>, delta: real)
  {
    exists i :: 0 <= i < |nodes| && Expired(Aged(nodes[i], delta))
  }

  /** Some node of a non-empty list expires exactly when its first one or one of the rest does. */
  lemma AnyExpiresCons(nodes: seq<PowerupNode>, delta: real)
    requires |nodes| > 0
    ensures AnyExpires(nodes, delta) <==> Expired(Aged(nodes[0], delta)) || AnyExpires(nodes[1..], delta)
  {
    if AnyExpires(nodes[1..], delta) {
      var i :| 0 <= i < |nodes[1..]| && Expired(Aged(nodes[1..][i], delta));
      assert Expired(Aged(nodes[i + 1], delta));
    }
    if AnyExpires(nodes, delta) && !Expired(Aged(nodes[0], delta)) {
      var i :| 0 <= i < |nodes| && Expired(Aged(nodes[i], delta));
      assert nodes[1..][i - 1] == nodes[i];
    }
  }

  /**
   * The loop of `update`, from the last node to the first: each timer
   * advances and expired nodes are erased; `removed` reports an erasure.
   */
  method TickNodes(nodes: seq<PowerupNode>, delta: real) returns (kept: seq<PowerupNode>, removed: bool)
    ensures kept == Tick(nodes, delta)
    ensures removed <==> AnyExpires(nodes, delta)
  {
    kept := nodes;
    removed := false;
    var i := |nodes| - 1;
    while i >= 0
      invariant -1 <= i < |nodes|
      invariant kept == nodes[..i + 1] + Tick(nodes[i + 1..], delta)
      invariant removed <==> AnyExpires(nodes[i + 1..], delta)
    {
      ghost var rest := Tick(nodes[i + 1..], delta);
      assert nodes[i..][1..] == nodes[i + 1..];
      AnyExpiresCons(nodes[i..], delta);
      assert kept[..i] == nodes[..i] && kept[i] == nodes[i];
      var node := Aged(kept[i], delta);
      if Expired(node) {
        assert kept[i + 1..] == rest;
        kept := kept[..i] + kept[i + 1..];
        removed := true;
      } else {
        assert kept[i + 1..] == rest;
        kept := kept[..i] + [node] + kept[i + 1..];
        assert kept == nodes[..i] + ([node] + rest);
      }
      i := i - 1;
    }
    assert nodes[0..] == nodes;
  }

  /** A tick shortens the list exactly when some node expires. */
  lemma {:induction false} TickShrinksIffExpiry(nodes: seq<PowerupNode>, delta: real)
    ensures |Tick(nodes, delta)| < |nodes| <==> AnyExpires(nodes, delta)
  {
    if |nodes| > 0 {
      TickShrinksIffExpiry(nodes[1..], delta);
      if AnyExpires(nodes[1..], delta) {
        var i :| 0 <= i < |nodes[1..]| && Expired(Aged(nodes[1..][i], delta));
        assert Expired(Aged(nodes[i + 1], delta));
      }
      if AnyExpires(nodes, delta) && !Expired(Aged(nodes[0], delta)) {
        var i :| 0 <= i < |nodes| && Expired(Aged(nodes[i], delta));
        assert nodes[1..][i - 1] == nodes[i];
      }
    }
  }

  /**
   * `update` as written starts its loop at index `size()`, one past the last
   * powerup, and so reads outside the list on every call.
   */
  function UpdateLoopStart(nodes: seq<PowerupNode>): int
  {
    |nodes|
  }

  lemma UpdateLoopStartOutOfRange(nodes: seq<PowerupNode>)
    ensures !(0 <= UpdateLoopStart(nodes) < |nodes|)
  {
  }

  class TempProperties {
    var properties: seq<PowerupNode>
    var collectiveMask: set<Effect>

    /** The collective mask is the union of the stored masks. */
    predicate Valid()
      reads this
    {
      collectiveMask == MaskOf(properties)
    }

    constructor()
      ensures properties == [] && collectiveMask == {}
      ensures Valid()
    {
      properties := [];
      collectiveMask := {};
    }

    /** `constructMask`: the union of the stored masks. */
    method ConstructMask() returns (mask: set<Effect>)
      ensures mask == MaskOf(properties)
    {
      mask := {};
      var i := 0;
      while i < |properties|
        invariant 0 <= i <= |properties|
        invariant mask == MaskOf(properties[..i])
      {
        assert properties[..i + 1][..i] == properties[..i];
        mask := mask + properties[i].powerup.mask;
        i := i + 1;
      }
      assert properties[..i] == properties;
    }

    /** The temporary fuse length: that of the most recent fuse powerup, or 0 without the flag. */
    function FuseLength(): (r: real)
      reads this
    {
      if FuseDuration !in collectiveMask then 0.0
      else var k := LastWith(properties, FuseDuration); if k >= 0 then properties[k].powerup.fuseLength else 0.0
    }

    /** The temporary control reversal: that of the most recent reversal powerup, or false without the flag. */
    function Reversed(): (r: bool)
      reads this
    {
      if ReverseControls !in collectiveMask then false
      else var k := LastWith(properties, ReverseControls); if k >= 0 then properties[k].powerup.reverseControls else false
    }

    /** The temporary mines state: that of the most recent mines powerup, or false without the flag. */
    function Mines(): (r: bool)
      reads this
    {
      if HasMines !in collectiveMask then false
      else var k := LastWith(properties, HasMines); if k >= 0 then properties[k].powerup.mines else false
    }

    /** The collective blast-radius delta, or 0 without the flag. */
    function DeltaBlast(): int
      reads this
    {
      if DeltaBlastRadius !in collectiveMask then 0 else BlastTotal(properties)
    }

    /** The collective bomb-count delta, or 0 without the flag. */
    function DeltaBombs(): int
      reads this
    {
      if DeltaBombCount !in collectiveMask then 0 else BombTotal(properties)
    }

    /** The collective speed, or 0 without the flag. */
    function SpeedBonus(): real
      reads this
    {
      if Speed !in collectiveMask then 0.0 else SpeedTotal(properties)
    }

    /** `getFuseLength`: searches from the most recent powerup backwards. */
    method GetFuseLength() returns (r: real)
      ensures r == FuseLength()
      ensures FuseDuration in collectiveMask && Valid() ==>
        exists i :: 0 <= i < |properties| && FuseDuration in properties[i].powerup.mask
                    && r == properties[i].powerup.fuseLength
                    && forall j :: i < j < |properties| ==> FuseDuration !in properties[j].powerup.mask
    {
      if FuseDuration !in collectiveMask {
        return 0.0;
      }
      var i := |properties| - 1;
      while i >= 0
        invariant -1 <= i < |properties|
        invariant forall j :: i < j < |properties| ==> FuseDuration !in properties[j].powerup.mask
      {
        if FuseDuration in properties[i].powerup.mask {
          assert LastWith(properties, FuseDuration) == i;
          return properties[i].powerup.fuseLength;
        }
        i := i - 1;
      }
      assert LastWith(properties, FuseDuration) == -1;
      LastWithFindsFlag(properties, FuseDuration);
      r := 0.0;
    }

    /** `getReverseControls`: searches from the most recent powerup backwards. */
    method GetReverseControls() returns (r: bool)
      ensures r == Reversed()
    {
      if ReverseControls !in collectiveMask {
        return false;
      }
      var i := |properties| - 1;
      while i >= 0
        invariant -1 <= i < |properties|
        invariant forall j :: i < j < |properties| ==> ReverseControls !in properties[j].powerup.mask
      {
        if ReverseControls in properties[i].powerup.mask {
          assert LastWith(properties, ReverseControls) == i;
          return properties[i].powerup.reverseControls;
        }
        i := i - 1;
      }
      assert LastWith(properties, ReverseControls) == -1;
      r := false;
    }

    /** `hasMines`: searches from the most recent powerup backwards. */
    method GetMines() returns (r: bool)
      ensures r == Mines()
    {
      if HasMines !in collectiveMask {
        return false;
      }
      var i := |properties| - 1;
      while i >= 0
        invariant -1 <= i < |properties|
        invariant forall j :: i < j < |properties| ==> HasMines !in properties[j].powerup.mask
      {
        if HasMines in properties[i].powerup.mask {
          assert LastWith(properties, HasMines) == i;
          return properties[i].powerup.mines;
        }
        i := i - 1;
      }
      assert LastWith(properties, HasMines) == -1;
      r := false;
    }

    /** `getDeltaBlastRadius`: 0 without the flag, else the sum over the flagged powerups. */
    method GetDeltaBlastRadius() returns (r: int)
      ensures r == DeltaBlast()
    {
      if DeltaBlastRadius !in collectiveMask {
        return 0;
      }
      r := 0;
      var i := 0;
      while i < |properties|
        invariant 0 <= i <= |properties|
        invariant r == BlastTotal(properties[..i])
      {
        assert properties[..i + 1][..i] == properties[..i];
        if DeltaBlastRadius in properties[i].powerup.mask {
          r := r + properties[i].powerup.deltaBlastRadius;
        }
        i := i + 1;
      }
      assert properties[..i] == properties;
    }

    /** `getDeltaBombCount`: 0 without the flag, else the sum over the flagged powerups. */
    method GetDeltaBombCount() returns (r: int)
      ensures r == DeltaBombs()
    {
      if DeltaBombCount !in collectiveMask {
        return 0;
      }
      r := 0;
      var i := 0;
      while i < |properties|
        invariant 0 <= i <= |properties|
        invariant r == BombTotal(properties[..i])
      {
        assert properties[..i + 1][..i] == properties[..i];
        if DeltaBombCount in properties[i].powerup.mask {
          r := r + properties[i].powerup.deltaBombCount;
        }
        i := i + 1;
      }
      assert properties[..i] == properties;
    }

    /** `getSpeed`: 0 without the flag, else the sum over the flagged powerups. */
    method GetSpeed() returns (r: real)
      ensures r == SpeedBonus()
    {
      if Speed !in collectiveMask {
        return 0.0;
      }
      r := 0.0;
      var i := 0;
      while i < |properties|
        invariant 0 <= i <= |properties|
        invariant r == SpeedTotal(properties[..i])
      {
        assert properties[..i + 1][..i] == properties[..i];
        if Speed in properties[i].powerup.mask {
          r := r + properties[i].powerup.speed;
        }
        i := i + 1;
      }
      assert properties[..i] == properties;
    }

    /** `+=`: stores a copy of the powerup with a zero timer and rebuilds the mask. */
    method Add(p: PowerupData)
      modifies this
      ensures properties == old(properties) + [PowerupNode(p, 0.0)]
      ensures collectiveMask == old(MaskOf(properties)) + p.mask
      ensures Valid()
    {
      properties := properties + [PowerupNode(p, 0.0)];
      assert properties[..|properties| - 1] == old(properties);
      collectiveMask := ConstructMask();
    }

    /** `-=`: removes every powerup whose mask is exactly `m` and rebuilds the mask. */
    method Remove(m: set<Effect>)
      modifies this
      ensures properties == Without(old(properties), m)
      ensures Valid()
    {
      ghost var all := properties;
      var nodes := properties;
      var i := |properties| - 1;
      while i >= 0
        invariant -1 <= i < |all|
        invariant nodes == all[..i + 1] + Without(all[i + 1..], m)
      {
        assert all[i..][1..] == all[i + 1..];
        SplitAt(all, i, Without(all[i + 1..], m), nodes);
        if nodes[i].powerup.mask == m {
          nodes := nodes[..i] + nodes[i + 1..];
        }
        i := i - 1;
      }
      assert all[0..] == all;
      properties := nodes;
      collectiveMask := ConstructMask();
    }

    /**
     * `update`, with its loop starting at the last powerup: every timer
     * advances by `delta`, expired powerups are removed, and the mask is
     * rebuilt only when something was removed.
     */
    method Update(delta: real)
      modifies this
      ensures properties == Tick(old(properties), delta)
      ensures collectiveMask == if AnyExpires(old(properties), delta) then MaskOf(properties) else old(collectiveMask)
      ensures old(Valid()) ==> Valid()
    {
      var nodes, removed := TickNodes(properties, delta);
      properties := nodes;
      if removed {
        collectiveMask := ConstructMask();
      } else {
        TickShrinksIffExpiry(old(properties), delta);
        NoExpiryKeepsMask(old(properties), delta);
      }
    }

    /** `clear`: empties the list and the mask. */
    method Clear()
      modifies this
      ensures properties == [] && collectiveMask == {}
      ensures Valid()
    {
      properties := [];
      collectiveMask := {};
    }
  }

  /** When nothing expires, a tick only advances the timers, so the masks are the same. */
  lemma {:induction false} NoExpiryKeepsMask(nodes: seq<PowerupNode>, delta: real)
    requires !AnyExpires(nodes, delta)
    ensures MaskOf(Tick(nodes, delta)) == MaskOf(nodes)
  {
    if |nodes| > 0 {
      assert !AnyExpires(nodes[1..], delta) by {
        forall i | 0 <= i < |nodes[1..]|
          ensures !Expired(Aged(nodes[1..][i], delta))
        {
          assert nodes[1..][i] == nodes[i + 1];
        }
      }
      NoExpiryKeepsMask(nodes[1..], delta);
      assert !Expired(Aged(nodes[0], delta));
      MaskOfCons(nodes[0], nodes[1..]);
      MaskOfCons(Aged(nodes[0], delta), Tick(nodes[1..], delta));
      assert nodes == [nodes[0]] + nodes[1..];
    }
  }

  /** The mask of a list with a node in front. */
  lemma {:induction false} MaskOfCons(n: PowerupNode, nodes: seq<PowerupNode>)
    ensures MaskOf([n] + nodes) == n.powerup.mask + MaskOf(nodes)
  {
    if |nodes| > 0 {
      var init := nodes[..|nodes| - 1];
      assert ([n] + nodes)[..|nodes|] == [n] + init;
      MaskOfCons(n, init);
    } else {
      assert ([n] + nodes)[..0] == [];
    }
  }

  /** `CLAMP(x, lo, hi)` as the source's macro writes it. */
  function ClampInt(x: int, lo: int, hi: int): (r: int)
    requires lo <= hi
    ensures lo <= r <= hi
    ensures lo <= x <= hi ==> r == x
  {
    if x < lo then lo else if x > hi then hi else x
  }

  function ClampReal(x: real, lo: real, hi: real): (r: real)
    requires lo <= hi
    ensures lo <= r <= hi
    ensures lo <= x <= hi ==> r == x
  {
    if x < lo then lo else if x > hi then hi else x
  }

  /** `MAX(x, y)` as the source's macro writes it. */
  function MaxReal(x: real, y: real): (r: real)
    ensures r >= x && r >= y && (r == x || r == y)
  {
    if x > y then x else y
  }

  /** The permanent values of a player. */
  datatype BaseStats = BaseStats(fuseLength: real, blastRadius: int, bombCount: int,
                                 reverseControls: bool, mines: bool, speed: real)

  const StartingStats := BaseStats(2.0, 2, 1, false, false, 10.0)

  /** The powerup's value for an effect it carries, else the player's own. */
  function Carried<T>(e: Effect, p: PowerupData, carried: T, own: T): (r: T)
    ensures e in p.mask ==> r == carried
    ensures e !in p.mask ==> r == own
  {
    if e in p.mask then carried else own
  }

  /**
   * A permanent powerup applied as written: each carried effect updates its
   * value, but the blast radius grows by the powerup's bomb-count delta.
   */
  function ApplyPermanent(base: BaseStats, p: PowerupData): (r: BaseStats)
    ensures p.mask == {} ==> r == base
    ensures FuseDuration in p.mask ==> 0.0 <= r.fuseLength <= 30.0
    ensures DeltaBlastRadius in p.mask ==> 1 <= r.blastRadius <= 9999
    ensures DeltaBlastRadius in p.mask && 1 <= base.blastRadius + p.deltaBombCount <= 9999 ==>
      r.blastRadius == base.blastRadius + p.deltaBombCount
    ensures DeltaBombCount in p.mask ==> 1 <= r.bombCount <= 100
    ensures DeltaBombCount in p.mask && 1 <= base.bombCount + p.deltaBombCount <= 100 ==>
      r.bombCount == base.bombCount + p.deltaBombCount
    ensures Speed in p.mask ==> r.speed >= 1.0
    ensures Speed in p.mask && base.speed + p.speed >= 1.0 ==> r.speed == base.speed + p.speed
  {
    var fuse := Carried(FuseDuration, p, ClampReal(p.fuseLength, 0.0, 30.0), base.fuseLength);
    var blast := Carried(DeltaBlastRadius, p, ClampInt(base.blastRadius + p.deltaBombCount, 1, 9999), base.blastRadius);
    var bombs := Carried(DeltaBombCount, p, ClampInt(base.bombCount + p.deltaBombCount, 1, 100), base.bombCount);
    var reversed := Carried(ReverseControls, p, p.reverseControls, base.reverseControls);
    var mines := Carried(HasMines, p, p.mines, base.mines);
    var speed := Carried(Speed, p, MaxReal(base.speed + p.speed, 1.0), base.speed);
    BaseStats(fuse, blast, bombs, reversed, mines, speed)
  }

  /** A permanent powerup applied as evidently intended: the blast radius grows by the blast delta. */
  function ApplyPermanentIntended(base: BaseStats, p: PowerupData): BaseStats
  {
    ApplyPermanent(base, p).(blastRadius :=
      if DeltaBlastRadius in p.mask then ClampInt(base.blastRadius + p.deltaBlastRadius, 1, 9999) else base.blastRadius)
  }

  /**
   * A powerup that only enlarges the blast radius by 3 leaves a permanent
   * blast radius of 2 unchanged as written.
   */
  lemma BlastPowerupIgnoredAsWritten()
    ensures var p := DefaultPowerup.(mask := {DeltaBlastRadius}, deltaBlastRadius := 3);
            ApplyPermanent(StartingStats, p).blastRadius == 2
            && ApplyPermanentIntended(StartingStats, p).blastRadius == 5
  {
  }

  /**
   * As intended, a blast-radius powerup moves the radius by its own delta
   * (within the clamp range), and no other effect touches it.
   */
  lemma IntendedBlastRadius(base: BaseStats, p: PowerupData)
    ensures DeltaBlastRadius in p.mask && 1 <= base.blastRadius + p.deltaBlastRadius <= 9999 ==>
      ApplyPermanentIntended(base, p).blastRadius == base.blastRadius + p.deltaBlastRadius
    ensures DeltaBlastRadius !in p.mask ==> ApplyPermanentIntended(base, p).blastRadius == base.blastRadius
    ensures 1 <= ApplyPermanentIntended(base, p).blastRadius <= 9999 || ApplyPermanentIntended(base, p).blastRadius == base.blastRadius
  {
  }

  class PlayerProperties {
    var temp: TempProperties
    var fuseLength: real
    var blastRadius: int
    var bombCount: int
    var reverseControls: bool
    var mines: bool
    var speed: real

    /** The permanent values. */
    function Base(): BaseStats
      reads this
    {
      BaseStats(fuseLength, blastRadius, bombCount, reverseControls, mines, speed)
    }

    /** A new player starts from the reset values. */
    constructor()
      ensures Base() == StartingStats && fresh(temp)
      ensures temp.properties == [] && temp.collectiveMask == {}
    {
      temp := new TempProperties();
      fuseLength, blastRadius, bombCount := 2.0, 2, 1;
      reverseControls, mines, speed := false, false, 10.0;
    }

    /** `reset`: empties the temporary list and restores the starting values. */
    method Reset()
      modifies this, temp
      ensures Base() == StartingStats && temp == old(temp)
      ensures temp.properties == [] && temp.collectiveMask == {}
    {
      temp.Clear();
      fuseLength := 2.0;
      blastRadius := 2;
      bombCount := 1;
      reverseControls := false;
      mines := false;
      speed := 10.0;
    }

    /** `getFuseLength`: the temporary value when that flag is set, else the base one, clamped to [0, 30]. */
    function FuseLength(): (r: real)
      reads this, temp
      ensures 0.0 <= r <= 30.0
      ensures FuseDuration !in temp.collectiveMask && 0.0 <= fuseLength <= 30.0 ==> r == fuseLength
      ensures FuseDuration in temp.collectiveMask && 0.0 <= temp.FuseLength() <= 30.0 ==> r == temp.FuseLength()
    {
      ClampReal(if FuseDuration in temp.collectiveMask then temp.FuseLength() else fuseLength, 0.0, 30.0)
    }

    /** `getBlastRadius`: the base plus the temporary delta, clamped to [1, 9999]. */
    function BlastRadius(): (r: int)
      reads this, temp
      ensures 1 <= r <= 9999
      ensures 1 <= blastRadius + temp.DeltaBlast() <= 9999 ==> r == blastRadius + temp.DeltaBlast()
    {
      ClampInt(blastRadius + (if DeltaBlastRadius in temp.collectiveMask then temp.DeltaBlast() else 0), 1, 9999)
    }

    /** `getBombCount`: the base plus the temporary delta, clamped to [1, 100]. */
    function BombCount(): (r: int)
      reads this, temp
      ensures 1 <= r <= 100
      ensures 1 <= bombCount + temp.DeltaBombs() <= 100 ==> r == bombCount + temp.DeltaBombs()
    {
      ClampInt(bombCount + (if DeltaBombCount in temp.collectiveMask then temp.DeltaBombs() else 0), 1, 100)
    }

    /** `isReversed`: the temporary state when that flag is set, else the base one. */
    function IsReversed(): (r: bool)
      reads this, temp
      ensures ReverseControls !in temp.collectiveMask ==> r == reverseControls
      ensures ReverseControls in temp.collectiveMask ==> r == temp.Reversed()
    {
      if ReverseControls in temp.collectiveMask then temp.Reversed() else reverseControls
    }

    /** `hasMines`: the temporary state when that flag is set, else the base one. */
    function HasMinesNow(): (r: bool)
      reads this, temp
      ensures HasMines !in temp.collectiveMask ==> r == mines
      ensures HasMines in temp.collectiveMask ==> r == temp.Mines()
    {
      if HasMines in temp.collectiveMask then temp.Mines() else mines
    }

    /** `getSpeed`: the base plus the temporary bonus, at least 1. */
    function CurrentSpeed(): (r: real)
      reads this, temp
      ensures r >= 1.0
      ensures speed + temp.SpeedBonus() >= 1.0 ==> r == speed + temp.SpeedBonus()
    {
      MaxReal(speed + (if Speed in temp.collectiveMask then temp.SpeedBonus() else 0.0), 1.0)
    }

    /**
     * `+=`: a powerup with a positive duration joins the temporary list and
     * leaves the base values alone; any other is applied to the base values
     * as written, the blast radius moving by the bomb-count delta.
     */
    method Add(p: PowerupData)
      modifies temp, this
      ensures temp == old(temp)
      ensures p.duration > 0.0 ==> Base() == old(Base())
                                   && temp.properties == old(temp.properties) + [PowerupNode(p, 0.0)]
                                   && temp.Valid()
      ensures p.duration <= 0.0 ==> Base() == ApplyPermanent(old(Base()), p)
                                    && temp.properties == old(temp.properties)
                                    && temp.collectiveMask == old(temp.collectiveMask)
    {
      if p.duration > 0.0 {
        temp.Add(p);
      } else {
        // Each effect the powerup carries updates its own base value.
        var b := ApplyPermanent(Base(), p);
        fuseLength, blastRadius, bombCount := b.fuseLength, b.blastRadius, b.bombCount;
        reverseControls, mines, speed := b.reverseControls, b.mines, b.speed;
      }
    }

    /** `update`: passes the elapsed time to the temporary list. */
    method Update(delta: real)
      modifies temp
      ensures temp.properties == Tick(old(temp.properties), delta)
      ensures old(temp.Valid()) ==> temp.Valid()
    {
      temp.Update(delta);
    }
  }
}
