/**
  Properties of the frame-scoped drawer pool: what one request does on the
  first call, on a frame change and within a frame, how a run of requests in
  one frame numbers its drawers, and which renderers are switched on when the
  pool is driven only through `DrawWithVelocity`.
 */
module PoolProperties {
  import opened MeshDrawer

  /** The list exists and the requested frame differs from the one it was last used in. */
  predicate FrameChanges(p: Pool, frame: int) {
    p.created && p.lastFrame != frame
  }

  /** The very first request creates the list, stamps it with the current frame,
      appends one drawer and hands that drawer out. */
  lemma FirstCallCreatesOneDrawer(p: Pool, frame: int, startsEnabled: bool)
    requires Valid(p) && !p.created
    ensures GetDrawer(p, frame, startsEnabled) == Grant(Pool(true, [startsEnabled], 1, frame), 0)
  {
  }

  /** On a frame change every drawer handed out in the last frame that drew is switched
      off, the count starts again so that drawer 0 is handed out, and every
      other drawer keeps its flag; no drawer is removed, and one is added only
      when the list is empty. */
  lemma FrameChangeResetsPool(p: Pool, frame: int, startsEnabled: bool)
    requires Valid(p) && FrameChanges(p, frame)
    ensures var g := GetDrawer(p, frame, startsEnabled);
      g.index == 0 && g.pool.used == 1 && g.pool.lastFrame == frame &&
      |g.pool.enabled| == (if |p.enabled| == 0 then 1 else |p.enabled|) &&
      (forall i :: 0 <= i < p.used ==> !g.pool.enabled[i]) &&
      (forall i :: p.used <= i < |p.enabled| ==> g.pool.enabled[i] == p.enabled[i])
  {
  }

  /** Within one frame a request hands out the drawer at the current count and
      switches nothing off: the old list is a prefix of the new one. */
  lemma SameFrameTakesNextDrawer(p: Pool, frame: int, startsEnabled: bool)
    requires Valid(p) && p.created && p.lastFrame == frame
    ensures var g := GetDrawer(p, frame, startsEnabled);
      g.index == p.used && g.pool.used == p.used + 1 && p.enabled <= g.pool.enabled
  {
  }

  /** The list grows exactly when, after the frame check, every pooled drawer is
      already in use; it then gains one drawer with the engine's initial flag.
      The count after the frame check is the old count within the same frame
      and 0 after a frame change or on creation (`RollFrame`). */
  lemma GrowsOnlyWhenExhausted(p: Pool, frame: int, startsEnabled: bool)
    requires Valid(p)
    ensures var g := GetDrawer(p, frame, startsEnabled);
      (|g.pool.enabled| == |p.enabled| + 1 <==> RollFrame(p, frame).used == |p.enabled|) &&
      (|g.pool.enabled| == |p.enabled| + 1 ==> g.pool.enabled[|p.enabled|] == startsEnabled)
  {
  }

  /** The result of a run of requests in one frame: the pool afterwards and the
      drawer indices handed out, in order. */
  datatype Batch = Batch(pool: Pool, indices: seq<nat>)

  /** Issues one request per entry of `inits` in frame `frame`; entry `k` is the
      initial flag a drawer created by the `k`-th request would get. */
  function GetDrawers(p: Pool, frame: int, inits: seq<bool>): (b: Batch)
    requires Valid(p)
    ensures Valid(b.pool) && |b.indices| == |inits|
    ensures |p.enabled| <= |b.pool.enabled|
    ensures forall k :: 0 <= k < |inits| ==> b.indices[k] < |b.pool.enabled|
    decreases |inits|
  {
    if |inits| == 0 then
      Batch(p, [])
    else
      var g := GetDrawer(p, frame, inits[0]);
      var rest := GetDrawers(g.pool, frame, inits[1..]);
      Batch(rest.pool, [g.index] + rest.indices)
  }

  /** Within a frame successive requests hand out the drawers at the current
      count, then the next one, and so on, and switch nothing off. */
  lemma {:induction false} SameFrameIndicesAscend(p: Pool, frame: int, inits: seq<bool>)
    requires Valid(p) && p.created && p.lastFrame == frame
    ensures var b := GetDrawers(p, frame, inits);
      b.pool.created && b.pool.lastFrame == frame &&
      b.pool.used == p.used + |inits| &&
      p.enabled <= b.pool.enabled &&
      forall k :: 0 <= k < |inits| ==> b.indices[k] == p.used + k
    decreases |inits|
  {
    if |inits| > 0 {
      var g := GetDrawer(p, frame, inits[0]);
      SameFrameTakesNextDrawer(p, frame, inits[0]);
      SameFrameIndicesAscend(g.pool, frame, inits[1..]);
      var b := GetDrawers(p, frame, inits);
      var rest := GetDrawers(g.pool, frame, inits[1..]);
      assert b.indices == [g.index] + rest.indices;
      forall k | 0 <= k < |inits|
        ensures b.indices[k] == p.used + k
      {
        if k > 0 {
          assert b.indices[k] == rest.indices[k - 1];
        }
      }
    }
  }

  /** The first run of requests in a new frame, or the very first run of all,
      hands out drawers 0, 1, 2, ... in order. */
  lemma {:induction false} NewFrameIndicesFromZero(p: Pool, frame: int, inits: seq<bool>)
    requires Valid(p) && (!p.created || p.lastFrame != frame) && |inits| > 0
    ensures var b := GetDrawers(p, frame, inits);
      b.pool.used == |inits| &&
      forall k :: 0 <= k < |inits| ==> b.indices[k] == k
  {
    var g := GetDrawer(p, frame, inits[0]);
    if p.created {
      FrameChangeResetsPool(p, frame, inits[0]);
    } else {
      FirstCallCreatesOneDrawer(p, frame, inits[0]);
    }
    assert g.index == 0 && g.pool.used == 1 && g.pool.created && g.pool.lastFrame == frame;
    SameFrameIndicesAscend(g.pool, frame, inits[1..]);
    var b := GetDrawers(p, frame, inits);
    var rest := GetDrawers(g.pool, frame, inits[1..]);
    assert b.indices == [g.index] + rest.indices;
    forall k | 0 <= k < |inits|
      ensures b.indices[k] == k
    {
      if k > 0 {
        assert b.indices[k] == rest.indices[k - 1];
      }
    }
  }

  /** Requests made in one frame never hand out the same drawer twice: their
      indices strictly increase. */
  lemma {:induction false} BatchIndicesDistinct(p: Pool, frame: int, inits: seq<bool>)
    requires Valid(p)
    ensures var b := GetDrawers(p, frame, inits);
      forall j, k :: 0 <= j < k < |inits| ==> b.indices[j] < b.indices[k]
  {
    if p.created && p.lastFrame == frame {
      SameFrameIndicesAscend(p, frame, inits);
    } else if |inits| > 0 {
      NewFrameIndicesFromZero(p, frame, inits);
    }
  }

  /** Within one frame drawing never switches a renderer off. */
  lemma SameFrameDrawDisablesNothing(p: Pool, frame: int, startsEnabled: bool)
    requires Valid(p) && p.created && p.lastFrame == frame
    ensures var g := DrawWithVelocity(p, frame, startsEnabled);
      |p.enabled| <= |g.pool.enabled| &&
      forall i :: 0 <= i < |p.enabled| && p.enabled[i] ==> g.pool.enabled[i]
  {
  }

  /** The pool shows exactly the drawers handed out since its frame began: a
      renderer is on if and only if its index is below the count. */
  predicate ShowsExactlyUsed(p: Pool) {
    Valid(p) && forall i :: 0 <= i < |p.enabled| ==> (p.enabled[i] <==> i < p.used)
  }

  /** Drawing keeps the pool showing exactly the drawers handed out in the
      current frame, whatever flag a newly created drawer starts with. */
  lemma DrawKeepsShowingExactlyUsed(p: Pool, frame: int, startsEnabled: bool)
    requires ShowsExactlyUsed(p)
    ensures ShowsExactlyUsed(DrawWithVelocity(p, frame, startsEnabled).pool)
  {
  }

  /** One call of `DrawWithVelocity`: the engine frame it happens in and the
      initial flag a drawer created by it would get. */
  datatype Call = Call(frame: int, startsEnabled: bool)

  /** The pool after a sequence of draws, possibly spanning many frames. */
  function DrawAll(p: Pool, calls: seq<Call>): (q: Pool)
    requires Valid(p)
    ensures Valid(q)
    decreases |calls|
  {
    if |calls| == 0 then p
    else DrawAll(DrawWithVelocity(p, calls[0].frame, calls[0].startsEnabled).pool, calls[1..])
  }

  /** From any state that shows exactly its used drawers (the initial state
      among them), any sequence of draws leaves exactly the
      drawers handed out in the latest frame switched on, and the pool never
      shrinks along the way. */
  lemma {:induction false} DrawsShowExactlyUsed(p: Pool, calls: seq<Call>)
    requires ShowsExactlyUsed(p)
    ensures ShowsExactlyUsed(DrawAll(p, calls))
    ensures |p.enabled| <= |DrawAll(p, calls).enabled|
    decreases |calls|
  {
    if |calls| > 0 {
      var g := DrawWithVelocity(p, calls[0].frame, calls[0].startsEnabled);
      DrawKeepsShowingExactlyUsed(p, calls[0].frame, calls[0].startsEnabled);
      DrawsShowExactlyUsed(g.pool, calls[1..]);
    }
  }

  /** The helper's initial state is one the pool can be in and shows nothing. */
  lemma InitialShowsNothing()
    ensures ShowsExactlyUsed(Initial) && Initial.used == 0 && Initial.enabled == []
  {
  }
}
