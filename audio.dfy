/**
 * The bookkeeping `Audio` keeps for its pool of sound-effect channels: one
 * "in use" flag per mixer channel, the number of channels in use, the number
 * granted and an optional ceiling.  The mixer's `Mix_AllocateChannels`
 * is outside the model; the number of channels it reports is passed in.
 * The counters are `size_t`, so they wrap modulo 2^64.
 */
module Audio {

  const SizeMod: int := 0x1_0000_0000_0000_0000

  function Inc(u: nat): nat
    requires u < SizeMod
  {
    (u + 1) % SizeMod
  }

  /** `size_t` decrement: 0 wraps round to the largest value. */
  function Dec(u: nat): (r: nat)
    requires u < SizeMod
    ensures u > 0 ==> r == u - 1
    ensures u == 0 ==> r == SizeMod - 1
  {
    (u + SizeMod - 1) % SizeMod
  }

  /** The number of channels flagged as in use. */
  function CountUsed(status: seq<bool>): (n: nat)
    ensures n <= |status|
  {
    if |status| == 0 then 0 else CountUsed(status[..|status| - 1]) + (if status[|status| - 1] then 1 else 0)
  }

  /** `std::vector<bool>::resize`: truncate, or extend with `false`. */
  function Resized(status: seq<bool>, n: nat): (r: seq<bool>)
    ensures |r| == n
    ensures forall i :: 0 <= i < n ==> r[i] == (i < |status| && status[i])
  {
    if n <= |status| then status[..n] else status + seq(n - |status|, _ => false)
  }

  /** The highest index whose flag is clear, or -1 when every channel is in use. */
  function HighestFree(status: seq<bool>): (r: int)
    ensures -1 <= r < |status|
    ensures r >= 0 ==> !status[r]
    ensures forall j :: r < j < |status| ==> status[j]
  {
    if |status| == 0 then -1
    else if !status[|status| - 1] then |status| - 1
    else HighestFree(status[..|status| - 1])
  }

  /** `largest(a, b)` from the engine's `Math`. */
  function Largest(a: int, b: int): int { if b > a then b else a }

  class ChannelPool {
    var channelStatus: seq<bool>
    var usedChannels: nat
    var sfxChannels: nat
    var maximumSFXChannels: int

    /** The counter agrees with the flags and the flag vector has one entry per channel. */
    predicate Consistent()
      reads this
    {
      usedChannels == CountUsed(channelStatus) && |channelStatus| == sfxChannels
    }

    predicate Bounded()
      reads this
    {
      usedChannels < SizeMod && sfxChannels < SizeMod
    }

    /**
     * The pool part of `createInterface`: the ceiling is the larger of the
     * initial and configured counts when one is configured (>= 0), else -1;
     * the mixer reports `granted` channels, all free.
     */
    constructor (initialChannels: nat, configuredMaximum: int, granted: nat)
      requires granted < SizeMod
      ensures maximumSFXChannels == (if configuredMaximum >= 0 then Largest(initialChannels, configuredMaximum) else -1)
      ensures sfxChannels == granted && usedChannels == 0
      ensures channelStatus == seq(granted, _ => false)
      ensures Consistent() && Bounded()
    {
      maximumSFXChannels := if configuredMaximum >= 0 then Largest(initialChannels, configuredMaximum) else -1;
      sfxChannels := granted;
      channelStatus := Resized([], granted);
      usedChannels := 0;
      new;
      NoneUsed(channelStatus);
    }

    /**
     * `increaseSFXChannels`: refuse when a ceiling is set and reached;
     * otherwise ask the mixer for one more channel (it reports `granted`)
     * and resize the flags to match.
     */
    method IncreaseSFXChannels(granted: nat) returns (grown: bool)
      requires Bounded() && granted < SizeMod
      modifies this
      ensures grown <==> !(old(maximumSFXChannels) != -1 && old(sfxChannels) >= old(maximumSFXChannels))
      ensures grown ==> sfxChannels == granted && channelStatus == Resized(old(channelStatus), granted)
      ensures !grown ==> sfxChannels == old(sfxChannels) && channelStatus == old(channelStatus)
      ensures usedChannels == old(usedChannels) && maximumSFXChannels == old(maximumSFXChannels)
      ensures Bounded()
    {
      if maximumSFXChannels != -1 && sfxChannels >= maximumSFXChannels {
        return false;
      }
      sfxChannels := granted;
      channelStatus := Resized(channelStatus, sfxChannels);
      grown := true;
    }

    /**
     * `reserveChannel`: when every channel is counted as used, try to grow
     * the pool first (`granted` is what the mixer then reports); then take
     * the highest-index free channel, or return -1.
     */
    method ReserveChannel(granted: nat) returns (channel: int)
      requires Bounded() && granted < SizeMod
      modifies this
      ensures Bounded()
      ensures maximumSFXChannels == old(maximumSFXChannels)
      ensures old(usedChannels) == old(sfxChannels) && old(maximumSFXChannels) != -1
              && old(sfxChannels) >= old(maximumSFXChannels)
        ==> channel == -1 && channelStatus == old(channelStatus) && usedChannels == old(usedChannels)
      ensures channel == -1 ==> usedChannels == old(usedChannels)
      ensures channel >= 0 ==> usedChannels == Inc(old(usedChannels))
      ensures channel >= 0 ==> 0 <= channel < |channelStatus| && channelStatus[channel]
      ensures channel >= 0 ==> !(channel < |old(channelStatus)| && old(channelStatus)[channel])
      ensures channel >= 0 ==> forall j :: channel < j < |channelStatus| ==> channelStatus[j]
      ensures channel == -1 && !(old(usedChannels) == old(sfxChannels) && old(maximumSFXChannels) != -1
                                 && old(sfxChannels) >= old(maximumSFXChannels))
        ==> forall j :: 0 <= j < |channelStatus| ==> channelStatus[j]
      ensures var full := old(usedChannels) == old(sfxChannels);
              var refused := full && old(maximumSFXChannels) != -1 && old(sfxChannels) >= old(maximumSFXChannels);
              var pool := if full then Resized(old(channelStatus), granted) else old(channelStatus);
              !refused ==> (sfxChannels == (if full then granted else old(sfxChannels))
                            && channel == HighestFree(pool)
                            && channelStatus == (if channel >= 0 then pool[channel := true] else pool))
      ensures old(usedChannels) == old(sfxChannels) && old(maximumSFXChannels) != -1
              && old(sfxChannels) >= old(maximumSFXChannels)
        ==> sfxChannels == old(sfxChannels)
    {
      if usedChannels == sfxChannels {
        var grown := IncreaseSFXChannels(granted);
        if !grown {
          return -1;
        }
      }
      var before := channelStatus;
      channel := ScanForFree();
      if channel >= 0 {
        channelStatus := channelStatus[channel := true];
        usedChannels := Inc(usedChannels);
      }
      assert channel == HighestFree(before);
    }

    /** The downward scan of `reserveChannel`. */
    method ScanForFree() returns (channel: int)
      ensures channel == HighestFree(channelStatus)
    {
      var i := |channelStatus| - 1;
      while i >= 0
        invariant -1 <= i < |channelStatus|
        invariant HighestFree(channelStatus) == HighestFree(channelStatus[..i + 1])
      {
        if !channelStatus[i] {
          return i;
        }
        assert channelStatus[..i + 1][..i] == channelStatus[..i];
        i := i - 1;
      }
      return -1;
    }

    /**
     * `releaseChannel`: a negative channel clears every flag, resizes the
     * vector to the granted count and zeroes the counter; otherwise the
     * counter drops only if the channel was flagged, and its flag is cleared.
     */
    method ReleaseChannel(channel: int)
      requires Bounded() && channel < |channelStatus|
      modifies this
      ensures channel < 0 ==> channelStatus == seq(sfxChannels, _ => false) && usedChannels == 0
      ensures channel >= 0 ==> (channelStatus == old(channelStatus)[channel := false]
        && usedChannels == (if old(channelStatus)[channel] then Dec(old(usedChannels)) else old(usedChannels)))
      ensures sfxChannels == old(sfxChannels) && maximumSFXChannels == old(maximumSFXChannels)
      ensures Bounded()
    {
      if channel < 0 {
        channelStatus := Resized([], sfxChannels);
        usedChannels := 0;
      } else {
        if channelStatus[channel] {
          usedChannels := Dec(usedChannels);
        }
        channelStatus := channelStatus[channel := false];
      }
    }

    /** The mixer's channel-finished callback: decrement and clear, whatever the flag was. */
    method ChannelComplete(channel: nat)
      requires Bounded() && channel < |channelStatus|
      modifies this
      ensures usedChannels == Dec(old(usedChannels))
      ensures channelStatus == old(channelStatus)[channel := false]
      ensures sfxChannels == old(sfxChannels) && maximumSFXChannels == old(maximumSFXChannels)
      ensures Bounded()
    {
      usedChannels := Dec(usedChannels);
      channelStatus := channelStatus[channel := false];
    }

    /**
     * The callback as evidently intended: the counter drops only when the
     * finished channel was still flagged, so the pool stays consistent.
     */
    method ChannelCompleteIntended(channel: nat)
      requires Bounded() && channel < |channelStatus|
      modifies this
      ensures usedChannels == (if old(channelStatus)[channel] then Dec(old(usedChannels)) else old(usedChannels))
      ensures channelStatus == old(channelStatus)[channel := false]
      ensures sfxChannels == old(sfxChannels) && maximumSFXChannels == old(maximumSFXChannels)
      ensures old(Consistent()) ==> Consistent()
      ensures Bounded()
    {
      ghost var wasConsistent := Consistent();
      if wasConsistent {
        ReleaseKeepsConsistent(channelStatus, usedChannels, channel);
      }
      if channelStatus[channel] {
        usedChannels := Dec(usedChannels);
      }
      channelStatus := channelStatus[channel := false];
    }
  }

  lemma NoneUsed(status: seq<bool>)
    requires forall i :: 0 <= i < |status| ==> !status[i]
    ensures CountUsed(status) == 0
  {
    if |status| > 0 {
      NoneUsed(status[..|status| - 1]);
    }
  }

  /** Setting or clearing one flag moves the count by exactly one when the flag changes. */
  lemma {:induction false} CountUsedUpdate(status: seq<bool>, i: nat, v: bool)
    requires i < |status|
    ensures CountUsed(status[i := v]) == CountUsed(status) - (if status[i] then 1 else 0) + (if v then 1 else 0)
    decreases |status|
  {
    var n := |status|;
    var t := status[i := v];
    if i < n - 1 {
      assert t[..n - 1] == status[..n - 1][i := v];
      CountUsedUpdate(status[..n - 1], i, v);
    } else {
      assert t[..n - 1] == status[..n - 1];
    }
  }

  /** Reserving a channel from a consistent pool that needs no growth keeps it consistent. */
  lemma ReserveKeepsConsistent(status: seq<bool>, used: nat)
    requires used == CountUsed(status) && used < SizeMod - 1
    requires HighestFree(status) >= 0
    ensures Inc(used) == CountUsed(status[HighestFree(status) := true])
  {
    CountUsedUpdate(status, HighestFree(status), true);
  }

  /** Releasing one channel keeps a consistent pool consistent. */
  lemma ReleaseKeepsConsistent(status: seq<bool>, used: nat, c: nat)
    requires used == CountUsed(status) && used < SizeMod && c < |status|
    ensures (if status[c] then Dec(used) else used) == CountUsed(status[c := false])
  {
    CountUsedUpdate(status, c, false);
  }

  /** Releasing every channel leaves a consistent pool with nothing in use. */
  lemma ReleaseAllConsistent(n: nat)
    ensures CountUsed(seq(n, _ => false)) == 0
  {
    NoneUsed(seq(n, _ => false));
  }

  /**
   * The finished-channel callback breaks the agreement between counter and
   * flags when the channel was not flagged (it was released by hand, say):
   * one free channel and a zero count leave the counter at 2^64 - 1.
   */
  lemma CallbackBreaksConsistency()
    ensures var status := [false];
      CountUsed(status) == 0 && Dec(0) != CountUsed(status[0 := false])
  {
    assert [false][0 := false] == [false];
    assert [false][..0] == [];
  }

  /** Growing the pool from a consistent state keeps the flags and count in step when the mixer grants at least as many channels. */
  lemma {:induction false} GrowKeepsCount(status: seq<bool>, n: nat)
    requires n >= |status|
    ensures CountUsed(Resized(status, n)) == CountUsed(status)
    decreases n
  {
    if n > |status| {
      var r := Resized(status, n);
      assert r[..n - 1] == Resized(status, n - 1);
      GrowKeepsCount(status, n - 1);
    } else {
      assert Resized(status, n) == status;
    }
  }
}
