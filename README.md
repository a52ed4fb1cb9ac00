# Interactive particles: a verified model of the field, the controls and the navigation

This project models, in Dafny, the sequential core of an interactive
WebGL particle demo. The demo turns an image into point sprites, one per
bright pixel. It picks a handful of "interactive" pixels that play a
sound when pressed, and it moves between sample images. Three source
files are modelled:

- `Particles.js` becomes module `ParticleField`. The image reaches the
  model as the red channel of the vertically flipped canvas, one value
  per canvas position in scan order.
  - The dense pass (`initPoints`) counts the pixels brighter than 34. It
    writes every kept pixel into a 16-bit `pindex` buffer and a
    three-slot `offset` buffer through a cursor `j`. The typed arrays'
    real behaviour is kept: a store truncates to 16 bits, a write past
    the end is dropped, and slots start at 0.
  - The sparse pass (`initInteractivePoints`) runs its `count`/`step`
    counters to pick pixels at least 4500 scan positions apart. It
    appends each pick's grid cell to the shared `interactivePoints`
    list.
  - Around the two passes: the listener add/remove pair, which edits the
    controls' `objects` list with `findIndex` and `splice`; `destroy`,
    with its chain of early returns; the `update` guard; the create-once
    touch texture; the promise executor of `hide`; and the
    texture-loaded callback of `init`.
  - The loops are `method`s over `array`s. Each is proved against
    specification functions: `DenseScan`, `SparseScan`, `IndexSlot`,
    `OffsetSlot` and `GridPoints`. Lemmas state what those functions
    promise.
- `InteractiveControls.js` becomes module `Controls`, with class
  `InteractiveControls`.
  - The emitted events (`interactive-out`, `-over`, `-move`, `-down`,
    `-up`) are appended to an `events` log. The object invariant
    `Valid()` says three things:
    - the log is well formed: every `out`, `move`, `down` and `up` names
      the object hovered at that moment; an `over` names the object about
      to be hovered and directly follows the `out` of another object;
    - replaying the log gives the `hovered`, `selected` and `isDown`
      fields;
    - listener attach and detach calls alternate, with `enabled` true
      exactly while attached.
  - The ray cast is an input: the nearest hit, or none.
  - The press-time proximity test returns the indices of the matched
    points and the audio slot each would play.
- `WebGLView.js` becomes module `View`: `goto`, `next` and the random
  first index. `goto` records what it asked of the particle field (load
  now, or hide and then load) in an `actions` log.
- `JsArrays` writes out the JavaScript built-ins the core relies on:
  `findIndex`, `splice(start, 1)`, three.js `Object3D.remove` and
  ToUint16.
- `Scene` holds identity-only stand-ins for the three.js objects: the
  meshes with their buffers, the hit plane, the touch texture and the
  shared point list.

Notes on how the code behaves where a reader might expect otherwise. The
model follows the code in each case.

- The discarding sparse pass stops only when `count > 10`. It therefore
  makes an eleventh pick whenever the image allows one (`ElevenPicks`).
  Only ten fit the buffers, but all eleven reach `interactivePoints`.
- A 2×2 image with red values 0, 50, 100 and 200 keeps pixels 1, 2 and 3:
  the threshold test is `> 34` (`TwoByTwo`).
- `currSample` is never assigned before the constructor's `goto`, so it
  starts out undefined. `undefined < n` is false, so a `next()` at that
  point would go to sample 0. The model's `None` stands for undefined.
- The sample list is hard-coded in the constructor with one entry. The
  model takes the list as a parameter.
- `hide()` on a field without meshes throws inside its promise executor.
  The promise is then rejected, `removeListeners` is skipped, and the
  `init` chained by `goto` never runs.
- Calling `goto` twice before a hide completes runs `removeListeners`
  twice. The second time the hit area is no longer a ray target, so
  `findIndex` answers -1 and `splice(-1, 1)` acts on the last element.
  Each load adds only its own hit area, so in the demo's usual state the
  list is empty by then and nothing is lost. If other ray targets remain,
  the last of them is dropped (`SecondRemovalDropsLast`).
- Both passes read the same image data. The second pass applies a second
  `ctx.scale(1, -1)` to the same canvas, which cancels the first. Its
  `drawImage` then lands outside the canvas, so the canvas still holds
  the first drawing. The model passes the same red channel to both
  passes.

## Model

| member | source | states |
|---|---|---|
| JsArrays.FindIndex | src/scripts/webgl/particles/Particles.js:300 | the position is -1 exactly when the element is absent; otherwise it holds the element and no earlier position does |
| JsArrays.SpliceStart | src/scripts/webgl/particles/Particles.js:301 | a negative splice start counts back from the end and is clamped at 0; a start past the end is clamped to the length |
| JsArrays.SpliceOne | src/scripts/webgl/particles/Particles.js:301 | `splice(start, 1)` removes one element exactly when the clamped start falls inside a non-empty array |
| JsArrays.SpliceMissingDropsLast | src/scripts/webgl/particles/Particles.js:300-301 | removing an absent hit area through findIndex/splice drops the last element of a non-empty list |
| JsArrays.SpliceFoundRemovesFirst | src/scripts/webgl/particles/Particles.js:300-301 | a present element loses exactly its first occurrence, and the rest keep their order |
| JsArrays.PushThenSpliceRestores | src/scripts/webgl/particles/Particles.js:293-301 | addListeners followed by removeListeners gives back the list of ray targets it started from |
| JsArrays.SecondRemovalDropsLast | src/scripts/webgl/particles/Particles.js:297-303 | a second removeListeners after an add/remove pair removes the last remaining ray target |
| JsArrays.Unparent | src/scripts/webgl/particles/Particles.js:357 | a child leaves its parent's list, which shrinks by one; a non-child leaves the list as it was |
| JsArrays.UnparentRemoves | src/scripts/webgl/particles/Particles.js:357 | among distinct children, removal takes away exactly that child and keeps the others distinct |
| JsArrays.DistinctAppend | src/scripts/webgl/particles/Particles.js:154 | adding an object not yet in the container to it keeps the container free of repeats, which the teardown relies on |
| JsArrays.ToUint16 | src/scripts/webgl/particles/Particles.js:139 | a Uint16Array store of an integer keeps a value in [0, 65536) congruent to it, and keeps in-range values unchanged |
| Scene.Mesh.constructor | src/scripts/webgl/particles/Particles.js:152 | a mesh carries the instance buffers it was built from |
| Scene.Plane.constructor | src/scripts/webgl/particles/Particles.js:282-285 | the hit plane has the image's width and height |
| Scene.PointList.constructor | src/scripts/webgl/particles/Particles.js:12 | the interactive point list starts empty |
| Scene.PointList.Push | src/scripts/webgl/particles/Particles.js:255 | a push appends exactly one point and changes nothing else in the list |
| Controls.OverFollowsOut | src/scripts/webgl/controls/InteractiveControls.js:122-126 | in a well-formed stream every `over` comes directly after the `out` of a different object, so two `over`s never follow each other |
| Controls.MoveKeepsStream | src/scripts/webgl/controls/InteractiveControls.js:116-138 | the events of any move keep the stream well formed, and its replay then hovers what the ray hit while selection and press state stay |
| Controls.MovesAlong | src/scripts/webgl/controls/InteractiveControls.js:122-129 | any number of moves that stay on the hovered object emit exactly one move event each, carrying that move's hit |
| Controls.HoverTrace | src/scripts/webgl/controls/InteractiveControls.js:116-138 | moving onto a, along a, onto b and off the surface emits out(null), over(a), move(a), out(a), over(b), out(b) |
| Controls.Proximity | src/scripts/webgl/controls/InteractiveControls.js:163-175 | the matched indices are exactly the points within 2 of the press on both axes, each once, in increasing order, and each plays audio slot index mod 6 |
| Controls.InteractiveControls.constructor | src/scripts/webgl/controls/InteractiveControls.js:11-36 | the controls start with nothing hovered, selected or pressed, with empty lists and zero size, and enabled with one attach |
| Controls.InteractiveControls.Enable | src/scripts/webgl/controls/InteractiveControls.js:38-42 | enable attaches listeners only on a change from disabled, so it is idempotent; the invariant is kept |
| Controls.InteractiveControls.Disable | src/scripts/webgl/controls/InteractiveControls.js:44-48 | disable detaches listeners only on a change from enabled, so it is idempotent; the invariant is kept |
| Controls.InteractiveControls.Resize | src/scripts/webgl/controls/InteractiveControls.js:83-93 | an explicit rectangle is stored exactly when any of its numbers is non-zero; otherwise the supplied bounds are stored |
| Controls.InteractiveControls.OnMove | src/scripts/webgl/controls/InteractiveControls.js:95-139 | a hit on a new object emits out(old) then over(new) and hovers it; a hit on the hovered object emits one move with the hit; no hit emits out only if something was hovered, then hovers nothing; the hit object must be one of the ray targets |
| Controls.InteractiveControls.OnDown | src/scripts/webgl/controls/InteractiveControls.js:141-176 | a press sets isDown, replays the move, and emits down with the new hovered object and the old selection; it selects the hovered object and returns the proximity matches of the hit scaled to the image, or none without a hit; the hit object must be one of the ray targets |
| Controls.InteractiveControls.OnUp | src/scripts/webgl/controls/InteractiveControls.js:186-190 | a release clears isDown and emits up(hovered), leaving hover and selection unchanged |
| Controls.InteractiveControls.OnLeave | src/scripts/webgl/controls/InteractiveControls.js:192-197 | leaving emits up and then out of whatever was hovered, null included, and then hovers nothing |
| ParticleField.DenseScanSelects | src/scripts/webgl/particles/Particles.js:124-144 | the dense pass takes exactly the pixels that pass the threshold test, each once, in strictly increasing scan order |
| ParticleField.DenseKeepsAll | src/scripts/webgl/particles/Particles.js:124-125 | without discarding, instance k is pixel k, for every pixel |
| ParticleField.DenseAllBright | src/scripts/webgl/particles/Particles.js:125 | on an image brighter than the threshold everywhere, discarding keeps every pixel |
| ParticleField.DenseAllDark | src/scripts/webgl/particles/Particles.js:125 | on an image at or below the threshold everywhere, discarding keeps nothing |
| ParticleField.TwoByTwo | src/scripts/webgl/particles/Particles.js:124-125 | red values 0, 50, 100 and 200 keep pixels 1, 2 and 3 |
| ParticleField.CountVisible | src/scripts/webgl/particles/Particles.js:64-66 | numVisible is the number of pixels the discarding dense pass keeps |
| ParticleField.OffsetSlotPush | src/scripts/webgl/particles/Particles.js:136-137 | each pick owns three offset slots: column, row, and a z that stays 0; no other slot changes |
| ParticleField.WritePick | src/scripts/webgl/particles/Particles.js:136-139 | writing pick j fills pindex slot j and offset slots 3j and 3j+1 where they exist; writes past the end are dropped |
| ParticleField.FillPoints | src/scripts/webgl/particles/Particles.js:120-144 | the fill loop leaves slot k of pindex holding pick k mod 65536, and the offsets holding each pick's column and row, for every slot the buffers have; j ends at the number of kept pixels |
| ParticleField.FillPixel | src/scripts/webgl/particles/Particles.js:125-143 | one pixel of the fill loop: the pixels picked so far followed by the picks of the rest of the scan are the whole scan, and the buffers hold exactly the picks so far |
| ParticleField.SparseScanFirst | src/scripts/webgl/particles/Particles.js:235-242 | while the count is within its limit, the pass picks something exactly when some pixel ahead is kept and has `step` at the stride there; its first pick is the first such pixel |
| ParticleField.SparseScanSpaced | src/scripts/webgl/particles/Particles.js:235-242 | every sparse pick passes the threshold test; the first comes no earlier than pixel 4499 (for a step starting at 0); consecutive picks are at least 4500 apart, counting dark pixels; the count passes the limit by at most one |
| ParticleField.AtMostElevenPicks | src/scripts/webgl/particles/Particles.js:168-237 | the discarding sparse pass makes at most eleven picks |
| ParticleField.BrightScanFillsCapacity | src/scripts/webgl/particles/Particles.js:235-242 | on an all-bright stretch with room for them, the pass makes every pick up to one past its limit |
| ParticleField.ElevenPicks | src/scripts/webgl/particles/Particles.js:168-237 | a bright image of at least 49500 pixels yields eleven picks, one more than the length-10 buffers hold |
| ParticleField.FillInteractive | src/scripts/webgl/particles/Particles.js:231-261 | the sparse loop appends each pick's grid cell, in scan order, to the point list and keeps the entries already there; the buffers hold the first picks that fit |
| ParticleField.Destroyed | src/scripts/webgl/particles/Particles.js:354-375 | destroy always leaves no particle mesh; without one it changes nothing; the red mesh goes with the mesh; the hit area goes only if both meshes were there |
| ParticleField.DestroyedDetaches | src/scripts/webgl/particles/Particles.js:354-375 | with distinct children, destroy leaves in the container exactly the children it does not release |
| ParticleField.DestroyTwice | src/scripts/webgl/particles/Particles.js:330-346 | the second destroy, from hide's second completion callback, changes nothing |
| ParticleField.Particles.constructor | src/scripts/webgl/particles/Particles.js:9-13 | a new field has an empty point list and no meshes, hit area, touch texture or children |
| ParticleField.Particles.InitPoints | src/scripts/webgl/particles/Particles.js:39-156 | numPoints is the pixel count; with discarding the buffers hold every kept pixel; without it they are a hundredth of the image long and hold the first pixels; the mesh joins the container, which stays free of repeats |
| ParticleField.Particles.InitInteractivePoints | src/scripts/webgl/particles/Particles.js:158-272 | the sparse picks go into buffers of the limit's length (10 when discarding); their cells are appended to the shared point list, which the controls then reference; the red mesh joins the container, which stays free of repeats |
| ParticleField.Particles.InitTouch | src/scripts/webgl/particles/Particles.js:274-279 | the touch texture is created only when none exists, and is kept otherwise |
| ParticleField.Particles.InitHitArea | src/scripts/webgl/particles/Particles.js:281-287 | a hit plane of the image's size is created and joins the container, which stays free of repeats |
| ParticleField.Particles.AddListeners | src/scripts/webgl/particles/Particles.js:289-295 | the hit area is appended to the ray targets and the controls are enabled |
| ParticleField.Particles.RemoveListeners | src/scripts/webgl/particles/Particles.js:297-303 | the element at the hit area's findIndex position is spliced out of the ray targets, and the controls are disabled |
| ParticleField.Particles.Update | src/scripts/webgl/particles/Particles.js:309-315 | update does nothing without the particle mesh; otherwise time advances, and the touch texture is updated when it exists |
| ParticleField.Particles.Show | src/scripts/webgl/particles/Particles.js:317-328 | show ends by adding the listeners |
| ParticleField.Particles.Hide | src/scripts/webgl/particles/Particles.js:330-352 | with both meshes, two completion callbacks are scheduled, the listeners are removed and the promise can resolve; when it resolves, a Detach is logged exactly when the controls were enabled; a missing mesh makes the executor throw (after one callback if only the red mesh is missing), and the controls stay as they were |
| ParticleField.Particles.HideComplete | src/scripts/webgl/particles/Particles.js:333-336 | a completion callback destroys the field exactly when hide was asked to |
| ParticleField.Particles.Destroy | src/scripts/webgl/particles/Particles.js:354-375 | destroy takes the field to Destroyed of its former parts |
| ParticleField.Particles.InitMeshes | src/scripts/webgl/particles/Particles.js:30-31 | both discarding passes run: numPoints is the pixel count, mesh and red mesh join the container in that order, the dense `pindex` and `offset` buffers (one and three slots per kept pixel) hold every kept pixel and its column and row, the red buffers hold the first sparse picks and the point list gains their cells, shared with the controls |
| ParticleField.Particles.Present | src/scripts/webgl/particles/Particles.js:32-35 | after both passes, a hit plane of the image's size joins the container and the ray targets; an existing touch texture is kept, otherwise a fresh one is made; the controls are enabled, with an Attach logged exactly when they were disabled |
| ParticleField.Particles.Load | src/scripts/webgl/particles/Particles.js:18-36 | the loaded image's size reaches particles and controls; the container gains mesh, red mesh and hit area in that order; the red mesh's buffers have length 10 and 30 and hold the first sparse picks; the point list gains the cells of the discarding sparse pass; the hit plane has the image's size; an existing touch texture is kept, otherwise a fresh one is made; a container free of repeats stays so; the controls are enabled with the hit area as a ray target, an Attach logged exactly when they were disabled |
| View.InitialIndex | src/scripts/webgl/WebGLView.js:28 | the random first index lies in [0, length) when there are samples, and is 0 otherwise |
| View.NextIndex | src/scripts/webgl/WebGLView.js:126-129 | next stays within range for any current sample; it moves one on exactly when that is still in range, and otherwise, or before any goto, goes to 0 |
| View.AdvanceSteps | src/scripts/webgl/WebGLView.js:126-129 | short of the last sample, k calls of next move exactly k on |
| View.AdvanceSplit | src/scripts/webgl/WebGLView.js:126-129 | k + m calls of next are k calls followed by m more |
| View.NextCycles | src/scripts/webgl/WebGLView.js:126-129 | one call of next per sample comes back to the starting sample |
| View.WebGLView.constructor | src/scripts/webgl/WebGLView.js:11-30 | particles and controls are created and the random first sample is loaded directly |
| View.WebGLView.Goto | src/scripts/webgl/WebGLView.js:113-124 | with no current sample, goto loads at once and leaves the controls alone; otherwise it hides first and chains the load on the hide; a resolving hide splices the hit area out and disables the controls, logging a Detach exactly when they were enabled; a throwing hide loses the load and leaves ray targets, enabled flag and listener log as they were; either way the index becomes current at once |
| View.WebGLView.Next | src/scripts/webgl/WebGLView.js:126-129 | next goes to NextIndex of the current sample, so it stays within range; before any goto it loads sample 0 directly; otherwise it records the hide-then-load (or the lost load) for the new index, with the same effect on the controls as goto |

## Left out

- Ray casting is outside the model. This covers the NDC conversion from
  the cursor position and `rect`, the plane intersection, `offset` and
  the dead drag code. Each cursor handler receives the nearest hit
  instead. `onDown` casts a second ray from the same cursor position;
  the model uses the same hit for it.
- Textures, canvases and `getImageData` are replaced by an input: the
  red channel of the image. This includes the vertical flip, which does
  not change which pixel positions are read.
- Materials, shaders, geometry construction, attribute upload and
  `dispose` calls are left out. They are three.js library calls.
- Floating-point values are left out: the random per-instance angles,
  the uniforms and `uTime += delta`, the tweens of `show`/`hide`, the
  `resize` scaling of the particles and `fovHeight`.
  - Buffer contents are modelled as integers. They are the exact values
    a Float32Array holds for images below 2^24 pixels.
  - Without discarding, the dense buffer lengths come from the float
    `numPoints / 100`. The model truncates it as the typed arrays do.
  - Controls.Scale: the press position `uv * width` is computed exactly,
    in reals. The source multiplies in floating point, and close to the
    strict `< 2` test its rounding can change whether a point matches.
- The event emitter's handler registry is left out. This covers
  `addListener`/`removeListener` of the particles' `interactive-move`
  handler and `onInteractiveMove`, which feeds `TouchTexture.addTouch`.
  `TouchTexture` is not part of this model: only whether it exists is
  tracked.
- DOM listener registration (mouse versus touch) and the `browser`
  detection are left out. Attach/detach calls are recorded in the
  `listening` log. `getBoundingClientRect` and the window size reach
  `Resize` as its `bounds` argument.
- Audio playback is left out. `OnDown` returns the slot (`music` + index
  mod 6) each match would play.
- The asynchronous parts are left out: the texture load after `init`,
  the tween completions and the promise's `then`. `Goto` records the
  request in `actions`. `Load` and `HideComplete` are the callbacks the
  environment runs later.
- `WebGLView`'s renderer, camera, clock, `update`, `draw`, `resize` and
  the unused `mouseDown`/`mouseUp`/`getIntersections` are left out.
- JavaScript exceptions are modelled only where they change control
  flow, in `Hide`. Elsewhere they are kept out by preconditions: a null
  mesh dereferenced by `initTouch`, `show` or `update`. `Destroy` takes
  each part's `parent` to be the container, which is where the model
  adds every part.
- ParticleField.Particles.Load: states the lengths of both dense buffers
  but not their contents; InitMeshes and InitPoints state the contents.
- View.InitialIndex: `~~` truncates through a 32-bit integer. The model
  uses the plain floor, which agrees for sample lists shorter than 2^31.
- The particles reach the controls through `webgl.interactive`. In the
  model the controls are passed as a parameter, because the view creates
  them after the particles.
