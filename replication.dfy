/**
 * OnPhotonSerializeView: the owner writes a snapshot of the reserve, the
 * magazine and the state, in that order; an observer reads the three back
 * and overwrites its own fields with them, superseding whatever it had.
 *
 * The stream is a sequence of boxed values. The reader unboxes three items
 * with casts; a missing or mistyped item throws, which ends the callback
 * with the earlier fields already overwritten.
 */
module Replication {
  import opened Int32
  import opened FireControl

  /** A value in the stream: a boxed int, a boxed Gun.State, or anything else. */
  datatype Item = IntItem(i: int32) | StateItem(s: State) | OtherItem

  /**
   * The owner's side: `SendNext` of the reserve, the magazine and the state.
   * What is written is always well-formed, reserve first, then magazine,
   * then state.
   */
  function Write(g: GunState): (w: seq<Item>)
    ensures |w| == 3 && WellFormed(w)
    ensures w[0].i == g.ammoRemain && w[1].i == g.magAmmo && w[2].s == g.state
  {
    [IntItem(g.ammoRemain), IntItem(g.magAmmo), StateItem(g.state)]
  }

  /** A stream the reader consumes without an exception. */
  predicate WellFormed(s: seq<Item>) {
    3 <= |s| && s[0].IntItem? && s[1].IntItem? && s[2].StateItem?
  }

  /** The observer's gun after reading, and whether all three casts succeeded. */
  datatype ReadResult = ReadResult(gun: GunState, ok: bool)

  /**
   * The observer's side: `ReceiveNext` three times, assigning each field as
   * soon as its cast succeeds. Only the three replicated fields can change;
   * the read succeeds exactly on a well-formed stream, and then the fields
   * hold exactly what the stream's first three items say, in the writer's
   * order.
   */
  function Read(g: GunState, s: seq<Item>): (r: ReadResult)
    ensures r.ok <==> WellFormed(s)
    ensures r.gun == g.(ammoRemain := r.gun.ammoRemain, magAmmo := r.gun.magAmmo, state := r.gun.state)
    ensures r.ok ==> Write(r.gun) == s[..3]
    ensures !r.ok ==> r.gun.state == g.state
  {
    if |s| < 1 || !s[0].IntItem? then ReadResult(g, false)
    else
      var g1 := g.(ammoRemain := s[0].i);
      if |s| < 2 || !s[1].IntItem? then ReadResult(g1, false)
      else
        var g2 := g1.(magAmmo := s[1].i);
        if |s| < 3 || !s[2].StateItem? then ReadResult(g2, false)
        else ReadResult(g2.(state := s[2].s), true)
  }

  /**
   * Reading what the owner wrote, followed by anything else in the stream,
   * succeeds and mirrors the owner's three fields onto the observer,
   * leaving every other field of the observer as it was.
   */
  lemma ReadWrite(owner: GunState, observer: GunState, rest: seq<Item>)
    ensures Read(observer, Write(owner) + rest) ==
      ReadResult(observer.(ammoRemain := owner.ammoRemain, magAmmo := owner.magAmmo, state := owner.state), true)
  {
  }

  /** The last snapshot wins: reading two in a row leaves only the second one's values. */
  lemma LastSnapshotWins(observer: GunState, a: GunState, b: GunState)
    ensures Read(Read(observer, Write(a)).gun, Write(b)) == Read(observer, Write(b))
  {
  }
}
