/**
 * ShotProcessOnServer, the shot as the master client resolves it, with the
 * ray cast and the vector arithmetic abstracted: `V` is a point or normal,
 * `T` a damageable target. The resolution is the sequence of calls it makes.
 */
module HitResolution {
  import opened Wrappers

  /** Gun.damage. */
  const DAMAGE: real := 25.0

  /** What Physics.Raycast reports on a hit: the point, the normal and the collider's IDamageable, if any. */
  datatype RaycastHit<V, T> = RaycastHit(point: V, normal: V, target: Option<T>)

  /** The calls the resolver makes: IDamageable.OnDamage, and the ShotEffectProcessOnClients broadcast. */
  datatype Call<V, T> =
    | OnDamage(target: T, damage: real, point: V, normal: V)
    | ShotEffect(hitPosition: V)

  /**
   * The resolution of one shot, given the ray cast's outcome and the end of
   * the ray at `fireDistance` (used on a miss). Damage is dealt exactly
   * when the ray hits something damageable, once, with the hit's point and
   * normal; the effect is broadcast on every path, after any damage, at the
   * hit point or at the ray's end.
   */
  function ShotProcessOnServer<V, T>(cast: Option<RaycastHit<V, T>>, rayEnd: V, damage: real): (calls: seq<Call<V, T>>)
    ensures 1 <= |calls| <= 2
    ensures calls[|calls| - 1] == ShotEffect(if cast.Some? then cast.value.point else rayEnd)
    ensures (exists i :: 0 <= i < |calls| && calls[i].OnDamage?) <==> cast.Some? && cast.value.target.Some?
    ensures |calls| == 2 ==>
      cast.Some? && cast.value.target.Some? &&
      calls[0] == OnDamage(cast.value.target.value, damage, cast.value.point, cast.value.normal)
  {
    match cast
    case Some(hit) =>
      if hit.target.Some? then
        var calls := [OnDamage(hit.target.value, damage, hit.point, hit.normal), ShotEffect(hit.point)];
        assert calls[0].OnDamage?;
        calls
      else [ShotEffect(hit.point)]
    case None => [ShotEffect(rayEnd)]
  }

  /** A damageable hit takes Gun.damage, then the effect is broadcast at the hit point. */
  lemma DamageableHitTakesGunDamage<V, T>(point: V, normal: V, target: T, rayEnd: V)
    ensures ShotProcessOnServer(Some(RaycastHit(point, normal, Some(target))), rayEnd, DAMAGE) ==
      [OnDamage(target, DAMAGE, point, normal), ShotEffect(point)]
  {
  }

  /** A miss deals no damage and still broadcasts the effect at the ray's end. */
  lemma MissBroadcastsRayEnd<V, T>(rayEnd: V)
    ensures ShotProcessOnServer<V, T>(None, rayEnd, DAMAGE) == [ShotEffect(rayEnd)]
  {
  }
}
