/**
 * Properties of whole sequences of calls on one gun: the invariant holds on
 * every reachable state, ammunition is conserved, shots are rate limited,
 * and a reload completes no earlier than scheduled.
 */
module FireControlProofs {
  import opened Int32
  import opened Wrappers
  import opened FireControl

  /** No activation in `evs` (OnEnable resets the fire clock and refills the magazine). */
  predicate NoEnable(evs: seq<Event>) {
    forall i :: 0 <= i < |evs| ==> !evs[i].Enable?
  }

  /** Every AddAmmo in `evs` grants a non-negative amount. */
  predicate GrantsNonNegative(evs: seq<Event>) {
    forall i :: 0 <= i < |evs| && evs[i].GrantAmmo? ==> 0 <= evs[i].ammo
  }

  /** The total of the AddAmmo amounts in `evs`. */
  function TotalGranted(evs: seq<Event>): int
    decreases |evs|
  {
    if evs == [] then 0
    else (if evs[0].GrantAmmo? then evs[0].ammo as int else 0) + TotalGranted(evs[1..])
  }

  /** Each tick in `ts` is at least `gap` after the one before it, the first at least `gap` after `last`. */
  predicate Spaced(last: nat, gap: nat, ts: seq<nat>)
    decreases |ts|
  {
    ts == [] || (last + gap <= ts[0] && Spaced(ts[0], gap, ts[1..]))
  }

  lemma {:induction false} TotalGrantedNonNegative(evs: seq<Event>)
    requires GrantsNonNegative(evs)
    ensures 0 <= TotalGranted(evs)
    decreases |evs|
  {
    if evs != [] {
      assert GrantsNonNegative(evs[1..]) by {
        forall i | 0 <= i < |evs[1..]| && evs[1..][i].GrantAmmo? ensures 0 <= evs[1..][i].ammo {
          assert evs[1..][i] == evs[i + 1];
        }
      }
      TotalGrantedNonNegative(evs[1..]);
    }
  }

  /**
   * From a valid gun, any sequence of calls keeps the invariant (magazine
   * bounds, non-negative reserve, Ready has a round), provided every grant
   * is non-negative and the grants never push the reserve past the int
   * range. The reserve never exceeds its start plus the grants.
   */
  lemma {:induction false} RunKeepsValid(g: GunState, evs: seq<Event>)
    requires Valid(g)
    requires GrantsNonNegative(evs)
    requires g.ammoRemain + TotalGranted(evs) <= MAX
    ensures Valid(Run(g, evs).gun)
    ensures Run(g, evs).gun.ammoRemain <= g.ammoRemain + TotalGranted(evs)
    decreases |evs|
  {
    if evs != [] {
      var e := evs[0];
      var rest := evs[1..];
      assert GrantsNonNegative(rest) by {
        forall i | 0 <= i < |rest| && rest[i].GrantAmmo? ensures 0 <= rest[i].ammo {
          assert rest[i] == evs[i + 1];
        }
      }
      TotalGrantedNonNegative(rest);
      var s := Step(g, e);
      assert e.GrantAmmo? ==> 0 <= e.ammo;
      assert Valid(s.gun) && s.gun.ammoRemain + TotalGranted(rest) <= g.ammoRemain + TotalGranted(evs);
      RunKeepsValid(s.gun, rest);
    }
  }

  /**
   * Without reactivation, the rounds in magazine and reserve change only by
   * the grants received and the shots fired: a reload only redistributes them.
   */
  lemma {:induction false} RunConservesAmmo(g: GunState, evs: seq<Event>)
    requires Valid(g)
    requires NoEnable(evs)
    requires GrantsNonNegative(evs)
    requires g.ammoRemain + TotalGranted(evs) <= MAX
    ensures var r := Run(g, evs);
      r.gun.magAmmo + r.gun.ammoRemain + |r.sent| == g.magAmmo + g.ammoRemain + TotalGranted(evs)
    decreases |evs|
  {
    if evs != [] {
      var e := evs[0];
      var rest := evs[1..];
      assert NoEnable(rest) by {
        forall i | 0 <= i < |rest| ensures !rest[i].Enable? {
          assert rest[i] == evs[i + 1];
        }
      }
      assert GrantsNonNegative(rest) by {
        forall i | 0 <= i < |rest| && rest[i].GrantAmmo? ensures 0 <= rest[i].ammo {
          assert rest[i] == evs[i + 1];
        }
      }
      TotalGrantedNonNegative(rest);
      assert !e.Enable?;
      assert e.GrantAmmo? ==> 0 <= e.ammo;
      var s := Step(g, e);
      assert s.gun.magAmmo + s.gun.ammoRemain + |s.sent| == g.magAmmo + g.ammoRemain + TotalGranted(evs) - TotalGranted(rest);
      RunConservesAmmo(s.gun, rest);
    }
  }

  /**
   * Without reactivation, the requests are sent at least `timeBetFire` ticks
   * apart, the first at least `timeBetFire` after the gun's last shot, and
   * the gun's fire clock ends at the last request sent.
   */
  lemma {:induction false} RunRateLimited(g: GunState, evs: seq<Event>)
    requires NoEnable(evs)
    ensures var r := Run(g, evs);
      && Spaced(g.lastFireTime, g.timeBetFire, r.sent)
      && r.gun.lastFireTime == (if r.sent == [] then g.lastFireTime else r.sent[|r.sent| - 1])
    decreases |evs|
  {
    if evs != [] {
      var rest := evs[1..];
      assert NoEnable(rest) by {
        forall i | 0 <= i < |rest| ensures !rest[i].Enable? {
          assert rest[i] == evs[i + 1];
        }
      }
      assert !evs[0].Enable?;
      var s := Step(g, evs[0]);
      assert s.sent == [] ==> s.gun.lastFireTime == g.lastFireTime;
      RunRateLimited(s.gun, rest);
      var t := Run(s.gun, rest);
      if s.sent != [] {
        assert s.sent + t.sent == [s.sent[0]] + t.sent;
        assert (s.sent + t.sent)[1..] == t.sent;
      } else {
        assert s.sent + t.sent == t.sent;
      }
    }
  }

  /** Spacing per neighbour gives spacing between any two requests. */
  lemma {:induction false} SpacedApart(last: nat, gap: nat, ts: seq<nat>, i: nat, j: nat)
    requires Spaced(last, gap, ts)
    requires i < j < |ts|
    ensures ts[i] + gap <= ts[j]
    decreases |ts|
  {
    assert Spaced(ts[0], gap, ts[1..]);
    if i == 0 {
      if j > 1 {
        SpacedApart(ts[0], gap, ts[1..], 0, j - 1);
        SpacedFirst(ts[0], gap, ts[1..]);
      }
    } else {
      SpacedApart(ts[0], gap, ts[1..], i - 1, j - 1);
    }
  }

  /** The first spaced tick is at least `gap` after `last`. */
  lemma SpacedFirst(last: nat, gap: nat, ts: seq<nat>)
    requires Spaced(last, gap, ts) && ts != []
    ensures last + gap <= ts[0]
  {
  }

  /**
   * Without reactivation, two requests sent from any sequence of calls are
   * never closer than `timeBetFire` ticks.
   */
  lemma RequestsNeverTooClose(g: GunState, evs: seq<Event>, i: nat, j: nat)
    requires NoEnable(evs)
    requires i < j < |Run(g, evs).sent|
    ensures Run(g, evs).sent[i] + g.timeBetFire <= Run(g, evs).sent[j]
  {
    RunRateLimited(g, evs);
    SpacedApart(g.lastFireTime, g.timeBetFire, Run(g, evs).sent, i, j);
  }

  /**
   * A reloading gun leaves Reloading only through a resumption of its
   * pending coroutine at or after the tick it is due: never earlier.
   */
  lemma {:induction false} ReloadNotEarly(g: GunState, evs: seq<Event>)
    requires g.state == Reloading
    requires NoEnable(evs)
    ensures Run(g, evs).gun.state != Reloading ==>
      g.reloadDue.Some? &&
      exists i :: 0 <= i < |evs| && evs[i].ResumeAt? && g.reloadDue.value <= evs[i].now
    decreases |evs|
  {
    if evs != [] {
      var rest := evs[1..];
      assert NoEnable(rest) by {
        forall i | 0 <= i < |rest| ensures !rest[i].Enable? {
          assert rest[i] == evs[i + 1];
        }
      }
      var e := evs[0];
      assert !e.Enable?;
      var s := Step(g, e);
      if s.gun.state == Reloading {
        assert s.gun.reloadDue == g.reloadDue;
        ReloadNotEarly(s.gun, rest);
        if Run(g, evs).gun.state != Reloading {
          var i :| 0 <= i < |rest| && rest[i].ResumeAt? && g.reloadDue.value <= rest[i].now;
          assert evs[i + 1] == rest[i];
        }
      } else {
        assert e.ResumeAt? && g.reloadDue.Some? && g.reloadDue.value <= e.now;
      }
    }
  }

  /**
   * A reload started at tick `t`, followed by any calls without
   * reactivation, ends only through a resumption at tick `t + reloadTime`
   * or later: no resumption before then completes it.
   */
  lemma ReloadTakesReloadTime(g: GunState, t: nat, evs: seq<Event>)
    requires CanReload(g)
    requires NoEnable(evs)
    ensures Run(g, [ReloadAt(t)] + evs).gun.state != Reloading ==>
      exists i :: 0 <= i < |evs| && evs[i].ResumeAt? && t + g.reloadTime <= evs[i].now
  {
    var s := Step(g, ReloadAt(t));
    assert ([ReloadAt(t)] + evs)[0] == ReloadAt(t);
    assert ([ReloadAt(t)] + evs)[1..] == evs;
    ReloadNotEarly(s.gun, evs);
  }

  /**
   * Why AddAmmo needs a non-negative amount: a negative grant during a
   * reload leaves a Ready gun with a negative magazine.
   */
  lemma NegativeGrantBreaksMagazine()
    ensures var g := GunState(Reloading, 1, 25, 0, 0, 12, 180, Some(180));
      Valid(g) &&
      var r := Run(g, [GrantAmmo(-2), ResumeAt(180)]).gun;
      r.state == Ready && r.magAmmo == -1 && !Valid(r)
  {
  }

  /** AddAmmo wraps like a C# int: one more round on a full reserve makes it negative. */
  lemma GrantOverflowWraps(g: GunState)
    requires g.ammoRemain == MAX
    ensures AddAmmo(g, 1).ammoRemain == MIN
  {
  }
}
