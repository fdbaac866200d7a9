/** The camera: a translation that centres the player in the view without
    showing anything outside the world, computed per axis. */
module Camera {
  import opened Geometry
  import opened World

  /** The offset on one axis for a player at `pos` of extent `size`, a view
      of extent `view` and a world of extent `world`. */
  function AxisOffset(pos: real, size: real, view: real, world: real): (o: real)
    // a view no larger than the world stays inside it: the visible span
    // [-o, -o + view] lies within [0, world], so the offset is never positive
    ensures view <= world ==> 0.0 <= -o && -o + view <= world
    // when that is possible, the player's centre is at the view's centre
    ensures view - world <= view / 2.0 - pos - size / 2.0 <= 0.0 ==> pos + size / 2.0 + o == view / 2.0
    // near the world's start the view rests against it
    ensures view <= world && pos + size / 2.0 <= view / 2.0 ==> o == 0.0
    // near the world's end the view rests against that
    ensures view <= world && world - view / 2.0 <= pos + size / 2.0 ==> o == view - world
    // a view larger than the world is pinned at view - world, a positive offset
    ensures world < view ==> o == view - world
  {
    Constrain(-pos - size / 2.0 + view / 2.0, -world + view, 0.0)
  }

  /** `player.camera`: the translation for both axes, given the view size. */
  function Offset(p: Player, env: Env, viewWidth: real, viewHeight: real): (o: (real, real))
    ensures viewWidth <= env.width as real ==> viewWidth - env.width as real <= o.0 <= 0.0
    ensures viewHeight <= env.height as real ==> viewHeight - env.height as real <= o.1 <= 0.0
  {
    (AxisOffset(p.x, p.w, viewWidth, env.width as real),
     AxisOffset(p.y, p.h, viewHeight, env.height as real))
  }

  /** A player at the world's origin, no larger than a view that is no
      larger than the world, sees the view resting at the origin. */
  lemma OriginViewIsUnshifted(p: Player, env: Env, viewWidth: real, viewHeight: real)
    requires p.x == 0.0 && p.y == 0.0
    requires p.w <= viewWidth <= env.width as real
    requires p.h <= viewHeight <= env.height as real
    ensures Offset(p, env, viewWidth, viewHeight) == (0.0, 0.0)
  {
  }
}
