# MeshDrawer renderer pool

A Dafny model of the frame-scoped renderer pool behind `MeshDrawer.DrawWithVelocity`,
the static helper that draws particles as meshes with per-object motion vectors.

Each drawn mesh needs a scene object with a mesh renderer. The helper keeps those
objects in a static list and reuses them from frame to frame. The first request of a
frame switches off the renderers used in the last frame that drew and starts the
per-frame count again. Each request then hands out the next unused drawer, creating a new one
when the list is exhausted. Drawing switches the handed-out drawer's renderer on.

The model (`mesh_drawer.dfy`, module `MeshDrawer`) turns the three static fields into
one immutable value. `Pool(created, enabled, used, lastFrame)` holds:

- whether the list exists;
- one renderer `enabled` flag per drawer;
- the per-frame count;
- the frame that count belongs to.

The engine's frame counter becomes the `frame` argument. The initial flag of a newly
created renderer is chosen by the engine, so it is the `startsEnabled` argument.
`Valid` is the invariant of every state the helper can reach from its static initial
values. `GetDrawer` and `DrawWithVelocity` require it and re-establish it, and the
initial values (`Initial`) satisfy it (`InitialShowsNothing`).

The properties (`pool_properties.dfy`, module `PoolProperties`) cover:

- the first call;
- a frame change;
- requests within one frame;
- when the list grows;
- the numbering of a run of requests (`GetDrawers`);
- which renderers are on when the pool is driven only through `DrawWithVelocity`.

The last group rests on `ShowsExactlyUsed`: a renderer is on exactly when its index
is below the per-frame count. Every draw preserves it, and so does any sequence of
draws (`DrawAll`). One consequence concerns a frame that draws nothing. The last drawing
frame's drawers are switched off only by the first request of a later frame, so until
then they stay switched on.

## Model

| member | source | states |
|---|---|---|
| MeshDrawer.DisableFrom | Assets/MeshDrawer.cs:70-71 | the frame-change loop switches off every renderer at an index in [i, n) and leaves every other flag and the list length as they were |
| MeshDrawer.RollFrame | Assets/MeshDrawer.cs:63-74 | after the creation or frame check the list exists, is stamped with the current frame and has the same number of drawers; on creation the list is empty and the count 0; on a frame change the count is 0, every flag below the old count is off and every other flag is kept; within the same frame nothing changes |
| MeshDrawer.AppendNewDrawerToPool | Assets/MeshDrawer.cs:87-93 | appending a new drawer keeps every existing drawer, adds exactly one at the end with the engine's initial flag, and leaves the count and frame untouched |
| MeshDrawer.GetDrawer | Assets/MeshDrawer.cs:61-85 | after every request the pool is valid and stamped with the frame; 0 < count <= pool length; the handed-out index is the count before its increment; the pool grows by zero or one drawer |
| MeshDrawer.DrawWithVelocity | Assets/MeshDrawer.cs:47-58 | drawing takes the drawer GetDrawer hands out and leaves its renderer enabled; no other flag, the count, the frame and the length differ from GetDrawer's result |
| PoolProperties.FirstCallCreatesOneDrawer | Assets/MeshDrawer.cs:63-84 | the first call creates the list, records the current frame, appends one drawer and returns index 0, leaving length 1 and count 1 |
| PoolProperties.FrameChangeResetsPool | Assets/MeshDrawer.cs:68-84 | on a frame change every drawer below the old count is switched off; drawers at or beyond it keep their flag; nothing is removed; the frame is recorded; the count restarts so drawer 0 is returned |
| PoolProperties.SameFrameTakesNextDrawer | Assets/MeshDrawer.cs:68-84 | within one frame the drawer at the current count is returned, the count grows by one, and the old flags are a prefix of the new ones, so nothing is switched off |
| PoolProperties.GrowsOnlyWhenExhausted | Assets/MeshDrawer.cs:76-93 | the list grows (by exactly one drawer with the initial flag) if and only if the possibly reset count equals the list length; together with GetDrawer's growth bound its length is otherwise unchanged |
| PoolProperties.GetDrawers | Assets/MeshDrawer.cs:61-85 | a run of requests in one frame yields one index per request, each naming a drawer in the list, and never shrinks the pool |
| PoolProperties.SameFrameIndicesAscend | Assets/MeshDrawer.cs:76-84 | successive requests within a frame return count, count+1, count+2, ...; the count grows by the number of requests and no flag is switched off |
| PoolProperties.NewFrameIndicesFromZero | Assets/MeshDrawer.cs:63-84 | the first run of requests in a new frame (or ever) returns indices 0, 1, 2, ... |
| PoolProperties.BatchIndicesDistinct | Assets/MeshDrawer.cs:76-84 | the indices returned within one frame strictly increase, so no drawer is handed out twice in a frame |
| PoolProperties.SameFrameDrawDisablesNothing | Assets/MeshDrawer.cs:47-74 | a draw in the frame the pool was last used in never switches a renderer off; the reset branch runs only on a frame change |
| PoolProperties.DrawKeepsShowingExactlyUsed | Assets/MeshDrawer.cs:47-85 | if exactly the renderers below the count are on, the same holds after a draw, whatever the initial flag of a new drawer |
| PoolProperties.DrawAll | Assets/MeshParticleRenderer.cs:34-46 | the caller's repeated draws, as any sequence of calls across frames, always leave a valid pool |
| PoolProperties.DrawsShowExactlyUsed | Assets/MeshParticleRenderer.cs:34-46 | over any sequence of draws, across frames, exactly the drawers used in the latest frame are on and the pool never shrinks |
| PoolProperties.InitialShowsNothing | Assets/MeshDrawer.cs:26-28 | the static initial values form a valid pool with no drawers and count 0 |

## Left out

- The motion-vector computation in `DrawWithVelocity` (Assets/MeshDrawer.cs:37-45) is left out. It is floating-point quaternion and matrix math done inside the engine.
- The transform, mesh, material and property-block assignments (Assets/MeshDrawer.cs:49-57) are left out. They are engine calls that do not affect the pool; only the renderer's `enabled` flag is modelled.
- Scene-object and component creation (Assets/MeshDrawer.cs:89-91) is reduced to appending one flag. The engine's initial value for that flag is the `startsEnabled` parameter.
- `MeshParticleRenderer` (Assets/MeshParticleRenderer.cs) is engine lifecycle glue. It queries the particle system and changes the main camera. Only its effect of calling `DrawWithVelocity` repeatedly is represented, by `PoolProperties.DrawAll`.
- MeshDrawer.GetDrawer: the count is an unbounded `nat`, so the 32-bit wrap-around of `_drawerUsedCount` after 2^31 requests in one frame is not modelled. Frame numbers are unbounded integers, and only their equality matters.
- Static-field lifetime across scene reloads and any engine threading are not modelled. The static fields are one explicit state value driven by sequential calls.
