# Gun fire control, modelled in Dafny

This project models the weapon of a multiplayer zombie shooter built on Unity and Photon PUN: the `Gun` component in `Assets/Scripts/Gun.cs`. The gun is a three-state machine (`Ready`, `Empty`, `Reloading`) over three counters:

- `ammoRemain`, the reserve;
- `magAmmo`, the rounds in the magazine;
- `magCapacity`, the magazine size.

A last-fire time limits how often `Fire` succeeds. The owner's gun sends every shot to the master client as a `ShotProcessOnServer` request. A periodic snapshot mirrors `ammoRemain`, `magAmmo` and `state` onto the other peers' copies.

Files:

- `int32.dfy` (`Int32`): C#'s unchecked 32-bit `int`. Every `+`, `-` and `--` of the source goes through `Wrap`.
- `wrappers.dfy` (`Wrappers`): `Option`.
- `fire_control.dfy` (`FireControl`): the gun's fields as a value `GunState`, and one function per operation.
  - `Valid` is the invariant of an owner's gun.
  - `Step`/`Run` apply a sequence of calls: activation, fire, reload, scheduler resumption and ammo grant.
- `fire_control_proofs.dfy` (`FireControlProofs`): lemmas over whole call sequences. They cover the invariant, conservation of ammunition, the rate limit and reload timing.
- `replication.dfy` (`Replication`): the snapshot writer and reader of `OnPhotonSerializeView`, and their round trip.
- `hit_resolution.dfy` (`HitResolution`): the hit/no-hit branching of `ShotProcessOnServer`, over abstract points and targets.
- `gun.dfy` (`GunBehaviour`): the class `Gun`, whose fields its methods update in place. Each method is proved to match its `FireControl` function through `View()`, and also states each field's new value. A helper, `FireMagazine`, empties a magazine at the fastest allowed rate. Three client methods use the class to play through whole scenarios.

Modelling choices:

- Time is a tick count (`nat`) instead of `Time.time` in seconds. The defaults 0.12 s and 1.8 s become 12 and 180 ticks of 10 ms.
- `ReloadRoutine` is split at its `yield`. `StartCoroutine` runs a coroutine immediately up to its first `yield`, so `Reload` sets `Reloading` at once (`StartReloadRoutine`). The field `reloadDue` records the pending coroutine and the tick when its wait ends. `CompleteReload` is the code after the `yield`, and Unity runs it only once that tick has passed.
- `OnEnable` also covers reactivation after a deactivation. Deactivation stops every coroutine, so `OnEnable` drops any pending reload.
- The RPC to the master client is the ghost outbox `Gun.requests`: the tick of every request sent. In `FireControl` it is the `dispatched` flag and the `sent` ticks.

Behaviour of the code that the model keeps as written:

- `ShotProcessOnServer` has no check that it runs on the master client. Only the RPC's target routes it there. So the model of the resolver takes no peer role.
- `OnEnable` refills the magazine to `magCapacity` without taking rounds from the reserve. So reactivation, as well as `AddAmmo`, can increase magazine plus reserve. The lemmas about conservation and the rate limit cover call sequences without reactivation. Reactivation also resets `lastFireTime` to 0.
- `AddAmmo` does not check the sign of its argument or guard against overflow. `NegativeGrantBreaksMagazine` shows a negative grant during a reload leaving a `Ready` gun with a negative magazine. `GrantOverflowWraps` shows the reserve wrapping. So the invariant lemmas require non-negative grants that fit in an `int`.
- The guards are written with `<=` and `>=` (`ammoRemain <= 0`, `magAmmo >= magCapacity`, `magAmmo <= 0`). The model uses the same comparisons.

## Model

| member | source | states |
|---|---|---|
| `Int32.Wrap` | Assets/Scripts/Gun.cs:161-167 | the value stored by an unchecked C# `int` operation: equal to the exact result when that fits, and always congruent to it modulo 2^32 |
| `FireControl.OnEnable` | Assets/Scripts/Gun.cs:69-74 | activation keeps the reserve and the configuration; the result satisfies the invariant exactly when the capacity is positive and the reserve non-negative |
| `FireControl.Fire` | Assets/Scripts/Gun.cs:77-92 | a request is sent iff the gun is Ready and `timeBetFire` has passed; a rejected call changes nothing; a successful one sets `lastFireTime := now`, leaves the reserve alone, makes the gun Empty iff the magazine is at or below 0, and on a valid gun takes exactly one round and keeps the invariant |
| `FireControl.Shot` | Assets/Scripts/Gun.cs:85-92 | only the magazine and the state change; the magazine loses exactly one round unless the int wraps; the gun becomes Empty at or below 0 and otherwise keeps its state (the class's `Gun.Shot` is tied to it) |
| `FireControl.StartReloadRoutine` | Assets/Scripts/Gun.cs:152-159 | only the state and the schedule change: Reloading, with the rest of the routine due exactly `reloadTime` after `now`; started under Reload's guard, it keeps the invariant (the class's `Gun.StartReloadRoutine` is tied to it) |
| `FireControl.Reload` | Assets/Scripts/Gun.cs:142-154 | starts iff not Reloading, reserve above 0 and magazine below capacity; otherwise it changes nothing; a start changes no counter, makes the state Reloading with completion due `reloadTime` later, and keeps the invariant |
| `FireControl.CompleteReload` | Assets/Scripts/Gun.cs:161-170 | ends Ready with nothing pending; from any magazine within `[0, magCapacity]`, even with a negative reserve, the reserve ends non-negative, the magazine within capacity, and the magazine falls by no more than the negative reserve; on a valid reloading gun it moves exactly `min(capacity - magazine, reserve)` rounds, preserves magazine + reserve, and keeps the invariant (so the magazine holds at least one round) |
| `FireControl.AddAmmo` | Assets/Scripts/Gun.cs:55-58 | only the reserve changes, by exactly `ammo` when no wrap occurs; the invariant is kept for a non-negative grant that fits |
| `FireControl.Step` | Assets/Scripts/Gun.cs:69-170 | a request is sent only by a successful Fire, at its tick; on a valid gun the state moves only Ready→Empty (fire), {Ready, Empty}→Reloading (reload), Reloading→Ready (resumption), anything→Ready (activation); a reload ends only when its wait is over |
| `FireControlProofs.RunKeepsValid` | Assets/Scripts/Gun.cs:69-170 | from a valid gun, every sequence of calls with non-negative grants that fit in an int keeps `0 <= magAmmo <= magCapacity`, `0 <= ammoRemain` and `Ready ==> magAmmo >= 1` |
| `FireControlProofs.RunConservesAmmo` | Assets/Scripts/Gun.cs:56-167 | without reactivation, magazine + reserve + requests sent equals the starting magazine + reserve + the total granted |
| `FireControlProofs.RunRateLimited` | Assets/Scripts/Gun.cs:77-82 | without reactivation, consecutive requests are at least `timeBetFire` apart (the first one counted from the gun's last shot), and `lastFireTime` ends at the last request |
| `FireControlProofs.RequestsNeverTooClose` | Assets/Scripts/Gun.cs:77-82 | without reactivation, any two requests sent are at least `timeBetFire` ticks apart |
| `FireControlProofs.SpacedApart` | Assets/Scripts/Gun.cs:77-82 | spacing between neighbours implies spacing between any two requests |
| `FireControlProofs.ReloadNotEarly` | Assets/Scripts/Gun.cs:152-170 | without reactivation, a Reloading gun leaves Reloading only through a resumption at or after the tick its reload is due |
| `FireControlProofs.ReloadTakesReloadTime` | Assets/Scripts/Gun.cs:142-170 | after a reload started at tick `t`, and any calls without reactivation, the gun leaves Reloading only if some resumption comes at tick `t + reloadTime` or later |
| `FireControlProofs.NegativeGrantBreaksMagazine` | Assets/Scripts/Gun.cs:56-57 | a grant of -2 during a reload with one reserve round leaves a Ready gun with magazine -1, outside the invariant |
| `FireControlProofs.GrantOverflowWraps` | Assets/Scripts/Gun.cs:56-57 | one more round on a reserve of 2^31 - 1 wraps it to -2^31 |
| `Replication.Write` | Assets/Scripts/Gun.cs:42-45 | the snapshot is three well-formed items: the reserve, then the magazine, then the state (the class's `Gun.SendSnapshot` is tied to it) |
| `Replication.Read` | Assets/Scripts/Gun.cs:46-51 | only the three replicated fields can change; success iff the first three items are int, int, State; on success, writing the result gives back exactly those three items |
| `Replication.ReadWrite` | Assets/Scripts/Gun.cs:40-51 | reading a written snapshot (followed by anything) succeeds and copies the owner's reserve, magazine and state onto the observer, leaving its other fields unchanged |
| `Replication.LastSnapshotWins` | Assets/Scripts/Gun.cs:46-51 | reading two snapshots in a row leaves exactly what reading the second alone leaves |
| `HitResolution.ShotProcessOnServer` | Assets/Scripts/Gun.cs:96-114 | damage is dealt, once, with the hit's point and normal, iff the ray hits a damageable target; the effect is always broadcast last, at the hit point or at the ray's end |
| `HitResolution.DamageableHitTakesGunDamage` | Assets/Scripts/Gun.cs:100-113 | a hit on a damageable target calls its `OnDamage` with `Gun.damage` (25), the hit point and the normal, then broadcasts the effect at the hit point |
| `HitResolution.MissBroadcastsRayEnd` | Assets/Scripts/Gun.cs:108-113 | with `Gun.damage`, a miss makes no damage call and broadcasts the effect at the ray's end |
| `GunBehaviour.Gun.constructor` | Assets/Scripts/Gun.cs:30-37 | the configured reserve, capacity and timings; magazine 0, Ready, fire clock 0 (the C# defaults), no pending reload, no request sent |
| `GunBehaviour.Gun.OnEnable` | Assets/Scripts/Gun.cs:69-74 | `magAmmo == magCapacity`, Ready, `lastFireTime == 0`, pending reload dropped, reserve untouched; valid for a positive capacity and non-negative reserve |
| `GunBehaviour.Gun.Fire` | Assets/Scripts/Gun.cs:77-82 | the outbox grows by `now` exactly when the guard holds; otherwise no field changes; on success `lastFireTime == now`, one round fewer (wrapping), Empty iff the magazine is at or below 0 and else Ready, reserve unchanged; the invariant is kept |
| `GunBehaviour.Gun.Shot` | Assets/Scripts/Gun.cs:85-92 | one request appended, one round fewer, Empty at or below 0 and the state otherwise unchanged |
| `GunBehaviour.Gun.Reload` | Assets/Scripts/Gun.cs:142-149 | returns true iff not Reloading, reserve above 0 and magazine below capacity; false changes nothing; true makes the gun Reloading due `reloadTime` later, counters unchanged; the invariant is kept |
| `GunBehaviour.Gun.StartReloadRoutine` | Assets/Scripts/Gun.cs:152-159 | the state becomes Reloading at once and the rest of the routine is due `reloadTime` ticks later; counters unchanged |
| `GunBehaviour.Gun.CompleteReload` | Assets/Scripts/Gun.cs:161-170 | Ready with nothing pending; from a magazine within `[0, magCapacity]`, even with a negative reserve, the reserve ends non-negative and the magazine within capacity; on a valid gun, magazine and reserve change by exactly `min(capacity - magazine, reserve)` in opposite directions, their sum is preserved, the magazine holds at least one round, and the invariant is kept |
| `GunBehaviour.Gun.AddAmmo` | Assets/Scripts/Gun.cs:55-58 | `ammoRemain` becomes `old + ammo` (wrapping); state, magazine, fire clock and pending reload unchanged |
| `GunBehaviour.Gun.SendSnapshot` | Assets/Scripts/Gun.cs:42-45 | the stream is exactly reserve, magazine, state, in that order |
| `GunBehaviour.Gun.ReceiveSnapshot` | Assets/Scripts/Gun.cs:46-51 | the fields become what `Replication.Read` gives (a failed cast leaves the earlier fields overwritten); success iff the stream is well-formed, and then writing the fields back gives the stream's first three items |
| `GunBehaviour.FireMagazine` | Assets/Scripts/Gun.cs:77-92 | firing a valid Ready gun every `timeBetFire` ticks sends one request per round in the magazine, and leaves it Empty with 0 rounds, the same reserve, and the clock at the last shot |
| `GunBehaviour.EmptyAndReload` | Assets/Scripts/Gun.cs:69-170 | with reserve 100 and capacity 25: activate, fire 25 times at the fastest allowed rate, reload and wait, and the gun is Ready with 25 in the magazine and 75 in reserve |
| `GunBehaviour.ReloadFromShortReserve` | Assets/Scripts/Gun.cs:142-170 | with reserve 10 and capacity 25: activate, fire the 25 rounds, reload and wait, and the gun is Ready with 10 in the magazine and 0 in reserve |
| `GunBehaviour.FireTwiceTooFast` | Assets/Scripts/Gun.cs:77-92 | a second Fire within `timeBetFire` of the first takes no round and sends no request: 24 rounds after each, one request in all |

## Left out

- Effect playback (`ShotEffectProcessOnClients`, `ShotEffect`, and the reload sound): these are particles, audio and a line renderer shown for 0.03 s, with no effect on the gun's state.
- `Physics.Raycast`, `Vector3` arithmetic, `fireDistance` and the float `damage`: these are geometry and a call into the physics engine. The resolver takes the cast's outcome and the ray's end point as inputs, and passes the damage through unchanged.
- Photon's RPC transport and master-client routing: these are networking. A sent request is only recorded in the outbox. Its delivery, and the resolver running on the master, are not connected.
- `Awake`: this is Unity component lookup.
- Float time: `Time.time`, `timeBetFire` and `reloadTime` are ticks, so float rounding in the rate-limit comparison is not modelled.
- How Photon encodes a `Gun.State` on the wire: stream items are typed values (`IntItem`, `StateItem`, `OtherItem`). A cast that fails, or a missing item, is the reader's `ok == false`.
- The coroutine scheduler has at most one pending reload. On the owner, `Reload`'s guard keeps it that way. Calling `Reload` only on the owning peer is done by a caller, which is not part of this model.
- `FireControlProofs.RunConservesAmmo`: stated only for call sequences without reactivation, because `OnEnable` refills the magazine without touching the reserve.
- `FireControlProofs.RunRateLimited`: stated only for call sequences without reactivation, because `OnEnable` resets `lastFireTime` to 0.
- Assets/Scripts/PlayerHealth.cs is not part of this model. It is UI, audio, animation and respawn, and delegates its health arithmetic to `LivingEntity`, which is not available.
- Assets/Scripts/LobbyManager.cs is not part of this model. It is matchmaking against the Photon service, plus UI.
