/**
  The frame-scoped renderer pool of the static `MeshDrawer` helper.

  The helper keeps three static fields: a lazily created list of drawers, the
  number of drawers handed out in the current frame, and the frame number that
  count belongs to. Every drawer is a scene object carrying a mesh renderer;
  of that renderer only its `enabled` flag is modelled. The static fields are
  one immutable `Pool` value, and the engine's frame counter is an argument.
 */
module MeshDrawer {

  /** The static state of the helper.
      - `created`: the drawer list exists (`_drawerPool != null`)
      - `enabled`: one renderer `enabled` flag per pooled drawer, in list order
      - `used`: drawers handed out since the frame began (`_drawerUsedCount`)
      - `lastFrame`: the frame `used` counts for (`_lastFrameCount`) */
  datatype Pool = Pool(created: bool, enabled: seq<bool>, used: nat, lastFrame: int)

  /** A drawer handed out: the pool after the call and the list index of the drawer. */
  datatype Grant = Grant(pool: Pool, index: nat)

  /** The static fields before the first call: no list, both counters zero. */
  const Initial: Pool := Pool(false, [], 0, 0)

  /** The states the helper can be in between calls: the count of handed-out
      drawers never runs past the list, and before the list exists nothing
      has been handed out. */
  predicate Valid(p: Pool) {
    if p.created then p.used <= |p.enabled| else p.enabled == [] && p.used == 0
  }

  /** The disabling loop run on a frame change, from position `i` on: every
      renderer at a position in [i, n) is switched off, every other one is
      left as it was. */
  function DisableFrom(flags: seq<bool>, i: nat, n: nat): (r: seq<bool>)
    requires i <= n <= |flags|
    ensures |r| == |flags|
    ensures forall k :: i <= k < n ==> !r[k]
    ensures forall k :: 0 <= k < |flags| && !(i <= k < n) ==> r[k] == flags[k]
    decreases n - i
  {
    if i < n then DisableFrom(flags[i := false], i + 1, n) else flags
  }

  /** The first half of a request: create the list on the very first call, or,
      when the frame has moved on, switch off the drawers handed out in the
      last frame that drew and start counting again; within the same frame
      nothing changes. Afterwards the list exists, is stamped with the current
      frame and still holds the same drawers. */
  function RollFrame(p: Pool, frame: int): (q: Pool)
    requires Valid(p)
    ensures Valid(q) && q.created && q.lastFrame == frame
    ensures |q.enabled| == |p.enabled|
    ensures !p.created ==> q == Pool(true, [], 0, frame)
    ensures p.created && p.lastFrame != frame ==>
      q.used == 0 &&
      (forall i :: 0 <= i < p.used ==> !q.enabled[i]) &&
      (forall i :: p.used <= i < |p.enabled| ==> q.enabled[i] == p.enabled[i])
    ensures p.created && p.lastFrame == frame ==> q == p
  {
    if !p.created then
      Pool(true, [], p.used, frame)
    else if p.lastFrame != frame then
      Pool(true, DisableFrom(p.enabled, 0, p.used), 0, frame)
    else
      p
  }

  /** Adds one newly created drawer at the end of the list. Its renderer starts
      with the flag `startsEnabled`, which the engine chooses; nothing else changes. */
  function AppendNewDrawerToPool(p: Pool, startsEnabled: bool): (q: Pool)
    ensures |q.enabled| == |p.enabled| + 1
    ensures p.enabled <= q.enabled && q.enabled[|p.enabled|] == startsEnabled
    ensures q.created == p.created && q.used == p.used && q.lastFrame == p.lastFrame
  {
    p.(enabled := p.enabled + [startsEnabled])
  }

  /** Hands out the next unused drawer of the current frame, growing the list by
      one when every pooled drawer is already in use. The drawer handed out is
      the one whose index is the count before it was incremented, and the pool
      never shrinks and grows by at most one drawer. */
  function GetDrawer(p: Pool, frame: int, startsEnabled: bool): (g: Grant)
    requires Valid(p)
    ensures Valid(g.pool) && g.pool.created && g.pool.lastFrame == frame
    ensures 0 < g.pool.used <= |g.pool.enabled|
    ensures g.index == g.pool.used - 1
    ensures |p.enabled| <= |g.pool.enabled| <= |p.enabled| + 1
  {
    var q := RollFrame(p, frame);
    if q.used < |q.enabled| then
      Grant(q.(used := q.used + 1), q.used)
    else
      var r := AppendNewDrawerToPool(q, startsEnabled);
      Grant(r.(used := r.used + 1), r.used)
  }

  /** What drawing one mesh does to the pool: take a drawer and switch its
      renderer on. The drawer taken is the one `GetDrawer` hands out, and no
      other renderer's flag differs from the pool `GetDrawer` leaves. */
  function DrawWithVelocity(p: Pool, frame: int, startsEnabled: bool): (g: Grant)
    requires Valid(p)
    ensures Valid(g.pool)
    ensures g.index < |g.pool.enabled| && g.pool.enabled[g.index]
    ensures var d := GetDrawer(p, frame, startsEnabled);
      g.index == d.index &&
      g.pool.created == d.pool.created && g.pool.used == d.pool.used &&
      g.pool.lastFrame == d.pool.lastFrame &&
      |g.pool.enabled| == |d.pool.enabled| &&
      forall i :: 0 <= i < |g.pool.enabled| && i != g.index ==> g.pool.enabled[i] == d.pool.enabled[i]
  {
    var d := GetDrawer(p, frame, startsEnabled);
    Grant(d.pool.(enabled := d.pool.enabled[d.index := true]), d.index)
  }
}
