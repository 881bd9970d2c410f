/**
 * The fire-control state machine of `Gun` (Assets/Scripts/Gun.cs), on values.
 *
 * A `GunState` holds every field the logic reads or writes. Times are ticks
 * (`nat`) instead of Unity's `Time.time` seconds. The pending `ReloadRoutine`
 * coroutine is the field `reloadDue`: `Some(t)` while the coroutine waits at
 * its `yield`, to be resumed at tick `t` or later. Each operation below is one
 * member of `Gun`; the class in gun.dfy is proved to follow these functions.
 */
module FireControl {
  import opened Int32
  import opened Wrappers

  /** Gun.State. */
  datatype State = Ready | Empty | Reloading

  datatype GunState = GunState(
    state: State,
    ammoRemain: int32,    // the reserve
    magCapacity: int32,   // never written by Gun.cs
    magAmmo: int32,       // rounds in the magazine
    lastFireTime: nat,
    timeBetFire: nat,     // never written by Gun.cs
    reloadTime: nat,      // never written by Gun.cs
    reloadDue: Option<nat>)

  /** The configuration is the same in `a` and `b`. */
  predicate SameConfig(a: GunState, b: GunState) {
    a.magCapacity == b.magCapacity && a.timeBetFire == b.timeBetFire && a.reloadTime == b.reloadTime
  }

  /**
   * The invariant of a gun on its owning peer: the magazine within its
   * bounds, a non-negative reserve, a Ready gun has a round to fire, an
   * Empty gun has none, and a reload is pending exactly while Reloading and
   * was started under Reload's guard.
   */
  predicate Valid(g: GunState) {
    && 1 <= g.magCapacity
    && 0 <= g.magAmmo <= g.magCapacity
    && 0 <= g.ammoRemain
    && (g.state == Ready ==> 1 <= g.magAmmo)
    && (g.state == Empty ==> g.magAmmo == 0)
    && (g.state == Reloading <==> g.reloadDue.Some?)
    && (g.state == Reloading ==> 1 <= g.ammoRemain && g.magAmmo < g.magCapacity)
  }

  function Min(a: int, b: int): int {
    if a <= b then a else b
  }

  /**
   * OnEnable: a full magazine, Ready, the fire clock cleared. Deactivation
   * stops every coroutine, so a pending reload is discarded. The reserve is
   * kept, so activation establishes the invariant from any gun whose
   * configuration and reserve are sound.
   */
  function OnEnable(g: GunState): (r: GunState)
    ensures SameConfig(g, r) && r.ammoRemain == g.ammoRemain
    ensures 1 <= g.magCapacity && 0 <= g.ammoRemain ==> Valid(r)
    ensures Valid(r) ==> 1 <= g.magCapacity && 0 <= g.ammoRemain
  {
    g.(magAmmo := g.magCapacity, state := Ready, lastFireTime := 0, reloadDue := None)
  }

  /** Fire's guard: Ready, and at least `timeBetFire` since the last shot. */
  predicate CanFire(g: GunState, now: nat) {
    g.state == Ready && now >= g.lastFireTime + g.timeBetFire
  }

  /**
   * Shot: one round leaves the magazine (exactly one unless the int wraps);
   * at zero or below the gun is Empty, otherwise its state is kept. Nothing
   * but the magazine and the state changes.
   */
  function Shot(g: GunState): (r: GunState)
    ensures r == g.(magAmmo := r.magAmmo, state := r.state)
    ensures MIN < g.magAmmo ==> r.magAmmo == g.magAmmo - 1
    ensures r.state == (if r.magAmmo <= 0 then Empty else g.state)
  {
    var m := Wrap(g.magAmmo - 1);
    g.(magAmmo := m, state := if m <= 0 then Empty else g.state)
  }

  /** What one Fire call leaves behind, and whether it sent ShotProcessOnServer. */
  datatype Fired = Fired(gun: GunState, dispatched: bool)

  /**
   * Fire at tick `now`. A rejected call changes nothing and sends nothing.
   * A successful one sends exactly one request, and on a valid gun takes
   * exactly one round from the magazine, leaves the reserve alone and keeps
   * the invariant.
   */
  function Fire(g: GunState, now: nat): (r: Fired)
    ensures r.dispatched <==> CanFire(g, now)
    ensures !r.dispatched ==> r.gun == g
    ensures SameConfig(g, r.gun) && r.gun.ammoRemain == g.ammoRemain && r.gun.reloadDue == g.reloadDue
    ensures r.dispatched ==> r.gun.lastFireTime == now
    ensures r.dispatched ==> (r.gun.state == Empty <==> r.gun.magAmmo <= 0)
    ensures r.dispatched ==> (r.gun.state == Ready <==> r.gun.magAmmo > 0)
    ensures Valid(g) ==> Valid(r.gun)
    ensures Valid(g) && r.dispatched ==> r.gun.magAmmo == g.magAmmo - 1
  {
    if CanFire(g, now) then Fired(Shot(g.(lastFireTime := now)), true) else Fired(g, false)
  }

  /** Reload's guard: not already reloading, a reserve, room in the magazine. */
  predicate CanReload(g: GunState) {
    !(g.state == Reloading || g.ammoRemain <= 0 || g.magAmmo >= g.magCapacity)
  }

  /**
   * What StartCoroutine(ReloadRoutine()) does before the coroutine's first
   * `yield`: the state becomes Reloading and the rest is scheduled
   * `reloadTime` ticks later.
   */
  function StartReloadRoutine(g: GunState, now: nat): (r: GunState)
    ensures r == g.(state := Reloading, reloadDue := r.reloadDue)
    ensures r.reloadDue.Some? && r.reloadDue.value >= now && r.reloadDue.value - now == g.reloadTime
    ensures Valid(g) && CanReload(g) ==> Valid(r)
  {
    g.(state := Reloading, reloadDue := Some(now + g.reloadTime))
  }

  datatype Reloaded = Reloaded(gun: GunState, started: bool)

  /**
   * Reload at tick `now`. It fails and changes nothing unless the guard
   * holds; a started reload changes no counter, only the state and the
   * schedule, and keeps the invariant.
   */
  function Reload(g: GunState, now: nat): (r: Reloaded)
    ensures r.started <==> g.state != Reloading && 0 < g.ammoRemain && g.magAmmo < g.magCapacity
    ensures !r.started ==> r.gun == g
    ensures r.started ==> r.gun.state == Reloading && r.gun.reloadDue == Some(now + g.reloadTime)
    ensures SameConfig(g, r.gun) && r.gun.ammoRemain == g.ammoRemain && r.gun.magAmmo == g.magAmmo
    ensures r.gun.lastFireTime == g.lastFireTime
    ensures Valid(g) ==> Valid(r.gun)
  {
    if CanReload(g) then Reloaded(StartReloadRoutine(g, now), true) else Reloaded(g, false)
  }

  /** The rounds ReloadRoutine moves after its wait, as Gun.cs computes them. */
  function AmmoToFill(g: GunState): int32 {
    var fill := Wrap(g.magCapacity - g.magAmmo);
    if g.ammoRemain < fill then g.ammoRemain else fill
  }

  /**
   * The rest of ReloadRoutine, after its wait: move `min(room, reserve)`
   * rounds from the reserve into the magazine and become Ready. From any
   * magazine within its bounds, even with a negative reserve, the reserve
   * ends non-negative and the magazine within capacity. On a valid
   * reloading gun nothing wraps, the sum of magazine and reserve is
   * preserved, and the magazine ends with at least one round.
   */
  function CompleteReload(g: GunState): (r: GunState)
    ensures SameConfig(g, r) && r.lastFireTime == g.lastFireTime
    ensures r.state == Ready && r.reloadDue == None
    ensures 0 <= g.magAmmo <= g.magCapacity ==>
      0 <= r.ammoRemain && r.magAmmo <= r.magCapacity && g.magAmmo + Min(0, g.ammoRemain) <= r.magAmmo
    ensures Valid(g) && g.state == Reloading ==>
      && r.magAmmo == g.magAmmo + Min(g.magCapacity - g.magAmmo, g.ammoRemain)
      && r.ammoRemain == g.ammoRemain - Min(g.magCapacity - g.magAmmo, g.ammoRemain)
      && r.magAmmo + r.ammoRemain == g.magAmmo + g.ammoRemain
      && Valid(r)
  {
    var fill := AmmoToFill(g);
    g.(magAmmo := Wrap(g.magAmmo + fill), ammoRemain := Wrap(g.ammoRemain - fill),
       state := Ready, reloadDue := None)
  }

  /**
   * AddAmmo: the reserve grows by `ammo` (wrapping as a C# int) and nothing
   * else changes. The sign is not checked, so the invariant is kept only
   * for a non-negative grant that fits in an int.
   */
  function AddAmmo(g: GunState, ammo: int32): (r: GunState)
    ensures r == g.(ammoRemain := r.ammoRemain)
    ensures MIN <= g.ammoRemain + ammo <= MAX ==> r.ammoRemain == g.ammoRemain + ammo
    ensures Valid(g) && 0 <= ammo && g.ammoRemain + ammo <= MAX ==> Valid(r)
  {
    g.(ammoRemain := Wrap(g.ammoRemain + ammo))
  }

  /** The calls the owning peer makes on a gun, each with Unity's time. */
  datatype Event =
    | Enable                // OnEnable, also after a deactivation
    | FireAt(now: nat)      // Fire
    | ReloadAt(now: nat)    // Reload
    | ResumeAt(now: nat)    // Unity's scheduler visits the pending coroutine
    | GrantAmmo(ammo: int32) // the AddAmmo RPC

  /** The gun after an event, and the ticks at which ShotProcessOnServer was sent. */
  datatype Stepped = Stepped(gun: GunState, sent: seq<nat>)

  /** The state transitions Gun.cs allows for each kind of event. */
  predicate Transition(from: State, to: State, e: Event) {
    match e
    case Enable => to == Ready
    case FireAt(_) => to == from || (from == Ready && to == Empty)
    case ReloadAt(_) => to == from || (from != Reloading && to == Reloading)
    case ResumeAt(_) => to == from || (from == Reloading && to == Ready)
    case GrantAmmo(_) => to == from
  }

  /**
   * One event. A resumption completes the reload only when it is pending
   * and due, so a gun leaves Reloading no earlier than `reloadTime` ticks
   * after the reload started. Only a successful Fire sends a request.
   */
  function Step(g: GunState, e: Event): (r: Stepped)
    ensures SameConfig(g, r.gun)
    ensures r.sent == (if e.FireAt? && CanFire(g, e.now) then [e.now] else [])
    ensures Valid(g) ==> Transition(g.state, r.gun.state, e)
    ensures e.ResumeAt? && g.state == Reloading && r.gun.state != Reloading ==>
      g.reloadDue.Some? && g.reloadDue.value <= e.now
  {
    match e
    case Enable => Stepped(OnEnable(g), [])
    case FireAt(now) =>
      var f := Fire(g, now);
      Stepped(f.gun, if f.dispatched then [now] else [])
    case ReloadAt(now) => Stepped(Reload(g, now).gun, [])
    case ResumeAt(now) =>
      if g.reloadDue.Some? && g.reloadDue.value <= now then Stepped(CompleteReload(g), [])
      else Stepped(g, [])
    case GrantAmmo(ammo) => Stepped(AddAmmo(g, ammo), [])
  }

  /** A sequence of events, in order; the requests sent are concatenated. */
  function Run(g: GunState, evs: seq<Event>): Stepped
    decreases |evs|
  {
    if evs == [] then Stepped(g, [])
    else
      var s := Step(g, evs[0]);
      var t := Run(s.gun, evs[1..]);
      Stepped(t.gun, s.sent + t.sent)
  }
}
