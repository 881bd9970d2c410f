/**
 * The `Gun` component of Assets/Scripts/Gun.cs as a class whose methods
 * update its fields in place. Each method is proved to follow its function
 * in FireControl (through `View()`), so every property proved there holds of
 * the object; its own contract also spells out the new value of each field.
 *
 * `requests` is the outbox of the ShotProcessOnServer RPC sent to the master
 * client: the tick of every request, in the order sent.
 */
module GunBehaviour {
  import opened Int32
  import opened Wrappers
  import FireControl
  import Replication

  /** The inspector defaults of Gun.cs, with a tick of 10 ms. */
  const DEFAULT_AMMO_REMAIN: int32 := 100
  const DEFAULT_MAG_CAPACITY: int32 := 25
  const DEFAULT_TIME_BET_FIRE: nat := 12  // 0.12 s
  const DEFAULT_RELOAD_TIME: nat := 180   // 1.8 s

  class Gun {
    var state: FireControl.State
    var ammoRemain: int32
    const magCapacity: int32
    var magAmmo: int32
    const timeBetFire: nat
    const reloadTime: nat
    var lastFireTime: nat
    /** The ReloadRoutine coroutine waiting at its yield, and the tick it resumes at. */
    var reloadDue: Option<nat>
    ghost var requests: seq<nat>

    /** The fields as one FireControl value. */
    ghost function View(): FireControl.GunState
      reads this
    {
      FireControl.GunState(state, ammoRemain, magCapacity, magAmmo, lastFireTime, timeBetFire, reloadTime, reloadDue)
    }

    ghost predicate Valid()
      reads this
    {
      FireControl.Valid(View())
    }

    /** The field initialisers: `magAmmo` and `lastFireTime` start at 0 and `state` at Ready, the C# defaults. */
    constructor (ammoRemain: int32, magCapacity: int32, timeBetFire: nat, reloadTime: nat)
      ensures this.ammoRemain == ammoRemain && this.magCapacity == magCapacity
      ensures this.timeBetFire == timeBetFire && this.reloadTime == reloadTime
      ensures state == FireControl.Ready && magAmmo == 0 && lastFireTime == 0
      ensures reloadDue == None && requests == []
    {
      this.ammoRemain := ammoRemain;
      this.magCapacity := magCapacity;
      this.timeBetFire := timeBetFire;
      this.reloadTime := reloadTime;
      state := FireControl.Ready;
      magAmmo := 0;
      lastFireTime := 0;
      reloadDue := None;
      requests := [];
    }

    /** Activation, and reactivation after a deactivation that stopped any pending reload. */
    method OnEnable()
      modifies this
      ensures View() == FireControl.OnEnable(old(View()))
      ensures magAmmo == magCapacity && state == FireControl.Ready && lastFireTime == 0
      ensures reloadDue == None
      ensures ammoRemain == old(ammoRemain) && requests == old(requests)
      ensures 1 <= magCapacity && 0 <= ammoRemain ==> Valid()
    {
      magAmmo := magCapacity;
      state := FireControl.Ready;
      lastFireTime := 0;
      reloadDue := None;
    }

    /** A fire attempt at `now`; a rejected one changes nothing and sends nothing. */
    method Fire(now: nat)
      modifies this
      ensures View() == FireControl.Fire(old(View()), now).gun
      ensures requests == old(requests) + (if FireControl.CanFire(old(View()), now) then [now] else [])
      ensures !FireControl.CanFire(old(View()), now) ==> View() == old(View())
      ensures FireControl.CanFire(old(View()), now) ==>
        && lastFireTime == now
        && magAmmo == Wrap(old(magAmmo) - 1)
        && state == (if magAmmo <= 0 then FireControl.Empty else FireControl.Ready)
        && ammoRemain == old(ammoRemain) && reloadDue == old(reloadDue)
      ensures old(Valid()) ==> Valid()
    {
      if state == FireControl.Ready && now >= lastFireTime + timeBetFire {
        lastFireTime := now;
        Shot();
      }
    }

    /** The shot itself: the request goes to the master client, then the magazine loses a round. */
    method Shot()
      modifies this
      ensures View() == FireControl.Shot(old(View()))
      ensures requests == old(requests) + [lastFireTime]
      ensures magAmmo == Wrap(old(magAmmo) - 1)
      ensures state == (if magAmmo <= 0 then FireControl.Empty else old(state))
      ensures ammoRemain == old(ammoRemain) && lastFireTime == old(lastFireTime) && reloadDue == old(reloadDue)
    {
      requests := requests + [lastFireTime];
      magAmmo := Wrap(magAmmo - 1);
      if magAmmo <= 0 {
        state := FireControl.Empty;
      }
    }

    /** A reload attempt at `now`: refused while reloading, with no reserve, or with a full magazine. */
    method Reload(now: nat) returns (started: bool)
      modifies this
      ensures started == FireControl.Reload(old(View()), now).started
      ensures View() == FireControl.Reload(old(View()), now).gun
      ensures started <==> old(state) != FireControl.Reloading && 0 < old(ammoRemain) && old(magAmmo) < magCapacity
      ensures !started ==> View() == old(View())
      ensures started ==> state == FireControl.Reloading && reloadDue == Some(now + reloadTime)
      ensures ammoRemain == old(ammoRemain) && magAmmo == old(magAmmo) && lastFireTime == old(lastFireTime)
      ensures requests == old(requests)
      ensures old(Valid()) ==> Valid()
    {
      if state == FireControl.Reloading || ammoRemain <= 0 || magAmmo >= magCapacity {
        return false;
      }
      StartReloadRoutine(now);
      return true;
    }

    /** ReloadRoutine up to its yield, which StartCoroutine runs at once: Reloading, resuming `reloadTime` later. */
    method StartReloadRoutine(now: nat)
      modifies this
      ensures View() == FireControl.StartReloadRoutine(old(View()), now)
      ensures state == FireControl.Reloading && reloadDue == Some(now + reloadTime)
      ensures ammoRemain == old(ammoRemain) && magAmmo == old(magAmmo) && lastFireTime == old(lastFireTime)
      ensures requests == old(requests)
    {
      state := FireControl.Reloading;
      reloadDue := Some(now + reloadTime);
    }

    /** ReloadRoutine after its yield; Unity resumes it only once its wait is over. */
    method CompleteReload(now: nat)
      requires reloadDue.Some? && reloadDue.value <= now
      modifies this
      ensures View() == FireControl.CompleteReload(old(View()))
      ensures state == FireControl.Ready && reloadDue == None
      ensures lastFireTime == old(lastFireTime) && requests == old(requests)
      ensures 0 <= old(magAmmo) <= magCapacity ==> 0 <= ammoRemain && magAmmo <= magCapacity
      ensures old(Valid()) ==>
        && magAmmo == old(magAmmo) + FireControl.Min(magCapacity - old(magAmmo), old(ammoRemain))
        && ammoRemain == old(ammoRemain) - FireControl.Min(magCapacity - old(magAmmo), old(ammoRemain))
        && magAmmo + ammoRemain == old(magAmmo) + old(ammoRemain)
        && 1 <= magAmmo
        && Valid()
    {
      var ammoToFill := Wrap(magCapacity - magAmmo);
      if ammoRemain < ammoToFill {
        ammoToFill := ammoRemain;
      }
      magAmmo := Wrap(magAmmo + ammoToFill);
      ammoRemain := Wrap(ammoRemain - ammoToFill);
      state := FireControl.Ready;
      reloadDue := None;
      assert View() == FireControl.CompleteReload(old(View()));
    }

    /** The AddAmmo RPC: the reserve grows by `ammo`, unchecked. */
    method AddAmmo(ammo: int32)
      modifies this
      ensures View() == FireControl.AddAmmo(old(View()), ammo)
      ensures ammoRemain == Wrap(old(ammoRemain) + ammo)
      ensures state == old(state) && magAmmo == old(magAmmo) && lastFireTime == old(lastFireTime)
      ensures reloadDue == old(reloadDue) && requests == old(requests)
      ensures old(Valid()) && 0 <= ammo && old(ammoRemain) + ammo <= MAX ==> Valid()
    {
      ammoRemain := Wrap(ammoRemain + ammo);
    }

    /** OnPhotonSerializeView on the owner: the snapshot, reserve first, then magazine, then state. */
    method SendSnapshot() returns (stream: seq<Replication.Item>)
      ensures stream == Replication.Write(View())
      ensures |stream| == 3
      ensures stream[0] == Replication.IntItem(ammoRemain)
      ensures stream[1] == Replication.IntItem(magAmmo)
      ensures stream[2] == Replication.StateItem(state)
    {
      stream := [];
      stream := stream + [Replication.IntItem(ammoRemain)];
      stream := stream + [Replication.IntItem(magAmmo)];
      stream := stream + [Replication.StateItem(state)];
    }

    /** OnPhotonSerializeView on an observer: overwrite the three fields from the stream; `ok` is false where a cast throws. */
    method ReceiveSnapshot(stream: seq<Replication.Item>) returns (ok: bool)
      modifies this
      ensures Replication.Read(old(View()), stream) == Replication.ReadResult(View(), ok)
      ensures ok <==> Replication.WellFormed(stream)
      ensures ok ==> Replication.Write(View()) == stream[..3]
      ensures lastFireTime == old(lastFireTime) && reloadDue == old(reloadDue) && requests == old(requests)
    {
      if |stream| < 1 || !stream[0].IntItem? {
        return false;
      }
      ammoRemain := stream[0].i;
      if |stream| < 2 || !stream[1].IntItem? {
        return false;
      }
      magAmmo := stream[1].i;
      if |stream| < 3 || !stream[2].StateItem? {
        return false;
      }
      state := stream[2].s;
      return true;
    }
  }

  /**
   * Fire the whole magazine of a valid Ready gun at the fastest rate
   * allowed, one trigger pull every `timeBetFire` ticks from the last shot.
   */
  method FireMagazine(gun: Gun) returns (now: nat)
    requires gun.Valid() && gun.state == FireControl.Ready
    modifies gun
    ensures gun.Valid() && gun.state == FireControl.Empty && gun.magAmmo == 0
    ensures gun.ammoRemain == old(gun.ammoRemain) && gun.lastFireTime == now
    ensures |gun.requests| == |old(gun.requests)| + old(gun.magAmmo)
  {
    now := gun.lastFireTime;
    while gun.state == FireControl.Ready
      invariant gun.Valid() && gun.reloadDue == None
      invariant gun.ammoRemain == old(gun.ammoRemain) && gun.lastFireTime == now
      invariant |gun.requests| + gun.magAmmo == |old(gun.requests)| + old(gun.magAmmo)
      decreases gun.magAmmo
    {
      now := now + gun.timeBetFire;
      gun.Fire(now);
    }
  }

  /**
   * A gun with the inspector defaults: activate it, fire the whole magazine
   * at the fastest rate allowed, reload, and let the reload finish.
   */
  method EmptyAndReload() returns (magAmmo: int32, ammoRemain: int32, state: FireControl.State)
    ensures magAmmo == 25 && ammoRemain == 75 && state == FireControl.Ready
  {
    var gun := new Gun(DEFAULT_AMMO_REMAIN, DEFAULT_MAG_CAPACITY, DEFAULT_TIME_BET_FIRE, DEFAULT_RELOAD_TIME);
    gun.OnEnable();
    var now := FireMagazine(gun);
    var started := gun.Reload(now);
    assert started;
    gun.CompleteReload(now + gun.reloadTime);
    return gun.magAmmo, gun.ammoRemain, gun.state;
  }

  /** A reserve smaller than the room in the empty magazine is emptied into it. */
  method ReloadFromShortReserve() returns (magAmmo: int32, ammoRemain: int32, state: FireControl.State)
    ensures magAmmo == 10 && ammoRemain == 0 && state == FireControl.Ready
  {
    var gun := new Gun(10, DEFAULT_MAG_CAPACITY, DEFAULT_TIME_BET_FIRE, DEFAULT_RELOAD_TIME);
    gun.OnEnable();
    var now := FireMagazine(gun);
    var started := gun.Reload(now);
    assert started;
    gun.CompleteReload(now + gun.reloadTime);
    return gun.magAmmo, gun.ammoRemain, gun.state;
  }

  /** A second trigger pull within `timeBetFire` of the first takes no round and sends no request. */
  method FireTwiceTooFast() returns (afterFirst: int32, afterSecond: int32, ghost sent: nat)
    ensures afterFirst == 24 && afterSecond == 24 && sent == 1
  {
    var gun := new Gun(DEFAULT_AMMO_REMAIN, DEFAULT_MAG_CAPACITY, DEFAULT_TIME_BET_FIRE, DEFAULT_RELOAD_TIME);
    gun.OnEnable();
    gun.Fire(100);
    afterFirst := gun.magAmmo;
    gun.Fire(100 + DEFAULT_TIME_BET_FIRE - 1);
    afterSecond := gun.magAmmo;
    sent := |gun.requests|;
  }
}
