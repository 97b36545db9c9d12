# Pixel cursor trail, modelled in Dafny

`assets/js/pixel-trail.js` draws a trail of small squares behind the mouse
pointer. The script keeps three pieces of state:

- a store of trail points, `pixels`;
- an id counter, `pixelId`;
- the last accepted pointer position, `lastPosition`.

Two handlers change this state:

- **Pointer move.** The handler samples the move only if it is more than 12
  pixels from the last accepted position. A sampled move appends a fresh
  point (opacity 1, age 0) together with its element. The store holds at most
  40 points: beyond that, the oldest point is evicted and its element
  detached.
- **Frame tick.** Each tick lowers every point's opacity by 0.04, adds one to
  its age and restyles its element. Points whose opacity has reached 0 are
  then removed and their elements detached. The element's side is
  `12 * max(0.3, 1 - age/100)`, centred on the point.

The project has two modules:

- `PixelTrail` (`pixel_trail.dfy`) holds the value model.
  - The datatypes are `Pixel`, `Position`, `Style` and `Trail`.
  - `MouseMove` and `Tick` specify one pointer move and one frame tick as
    functions on `Trail`.
  - `ElementsOf` gives the container's children: a map from point id to the
    style last written into that point's element.
  - The module also holds the lemmas about the model:
    - the state invariant: at most 40 points, ids strictly increasing and
      below the counter, ages non-increasing, and opacity = 1 - 0.04·age and
      in (0, 1];
    - the sampler's threshold;
    - eviction;
    - the filter;
    - the fade schedule;
    - concrete event sequences.
- `TrailSession` (`trail_session.dfy`) holds class `Session`.
  - The script's module-level variables become fields that its methods update
    in place. A ghost field `rendered` stands for the attached elements.
  - `HandleMouseMove` and `Animate` are each proved to move the state exactly
    as `MouseMove` and `Tick` do.
  - Both keep `Valid()`: the invariant, plus the fact that the attached
    elements are exactly one per stored point, each showing that point's
    current style.
  - The map and filter passes of the tick are `while` loops with their
    invariants.

Numbers:

- Pointer coordinates are integers.
- Opacity and sizes are exact reals.
- The distance test `sqrt(dx²+dy²) > 12` is stated as `dx²+dy² > 144`. Lemma
  `AcceptsIsDistanceTest` proves the two agree for the non-negative square
  root.

## Model

| member | source | states |
|---|---|---|
| PixelTrail.InitialTrail | assets/js/pixel-trail.js:15-17 | defines the state at load: empty store, counter 0, last position (0,0); its properties are stated by `InitialTrailValid` |
| PixelTrail.FreshPixel | assets/js/pixel-trail.js:20-29 | defines the record `createPixel` builds from the counter value: opacity 1, age 0; `CreatePixel` is proved to return it |
| PixelTrail.Accepts | assets/js/pixel-trail.js:35-39 | defines the sampler's test on squared distances; `AcceptsIsDistanceTest` proves it equal to the Euclidean test |
| PixelTrail.Push | assets/js/pixel-trail.js:57-63 | defines push at the tail with shift of the head past 40 points; `AcceptedMoveAppends` and `ElementsOfPush` state its effect |
| PixelTrail.MouseMove | assets/js/pixel-trail.js:31-67 | defines one pointer move: a sampled move pushes a fresh point, advances the counter and records (x,y), any other move leaves the state as it was; specifies `Session.HandleMouseMove` |
| PixelTrail.Aged | assets/js/pixel-trail.js:71-72 | defines what the map callback does to one point: opacity −0.04, age +1 |
| PixelTrail.Decay | assets/js/pixel-trail.js:70-86 | defines the map phase, `Aged` on every point in order; specifies `Session.DecayAll` |
| PixelTrail.Survivors | assets/js/pixel-trail.js:87-95 | the filter phase keeps at most as many points as it is given, each with opacity above 0; `SurvivorsMembership` and `SurvivorsKeepOrder` state which ones and in what order |
| PixelTrail.Tick | assets/js/pixel-trail.js:69-95 | defines one tick as the map phase followed by the filter, counter and last position untouched; specifies `Session.Animate` |
| PixelTrail.ElementsOf | assets/js/pixel-trail.js:54-62 | defines the container's children as one element per stored point, keyed by id, styled by `StyleOf`; `ElementsOfKeys` and `ElementsOfStyles` state this |
| PixelTrail.InitialTrailValid | assets/js/pixel-trail.js:15-17 | the state at load is an empty store, counter 0 and last position (0,0), and it satisfies the trail invariant |
| TrailSession.Session.constructor | assets/js/pixel-trail.js:15-17 | a new session holds the initial state, satisfies `Valid()` and has no element attached |
| TrailSession.Session.CreatePixel | assets/js/pixel-trail.js:20-29 | returns a point at (x,y) with opacity 1, age 0 and the counter's old value as id, and advances the counter by one |
| PixelTrail.AcceptsIsDistanceTest | assets/js/pixel-trail.js:35-39 | for the non-negative d with d² = dx²+dy², a move is sampled exactly when d > 12 (both directions) |
| PixelTrail.RejectedMoveChangesNothing | assets/js/pixel-trail.js:39-66 | a move within 12 pixels of the last accepted position leaves store, counter and last position unchanged |
| PixelTrail.AcceptedMoveAppends | assets/js/pixel-trail.js:39-65 | a sampled move advances the counter, records (x,y), and leaves at most 40 points, ending with the fresh point; below capacity the fresh point is appended, and at capacity the old head is dropped and the fresh point appended |
| PixelTrail.MouseMovePreservesInvariant | assets/js/pixel-trail.js:31-67 | every pointer move keeps the invariant: length at most 40, ids strictly increasing and below the counter, ages non-increasing, opacity = 1 - 0.04·age and in (0,1] |
| TrailSession.Session.Append | assets/js/pixel-trail.js:54-63 | pushes the point at the tail and shifts out the head past 40 points; the fresh point's element is attached with its style and the evicted point's element detached, so the attached elements again match the store |
| TrailSession.Session.HandleMouseMove | assets/js/pixel-trail.js:31-67 | moves the object's state exactly as `MouseMove` does and keeps `Valid()`, so elements and store still correspond one to one |
| PixelTrail.DecayKeepsOrder | assets/js/pixel-trail.js:70-86 | aging keeps the store's length and ids, the id and age order, and the opacity/age relation |
| TrailSession.Session.DecayAll | assets/js/pixel-trail.js:70-86 | the map loop ages every point in place (opacity −0.04, age +1) and restyles each element, leaving the store equal to `Decay` of the old store and the elements in step with it |
| PixelTrail.SurvivorsMembership | assets/js/pixel-trail.js:87-95 | a point survives the filter exactly when it was in the store and its opacity is above 0 |
| PixelTrail.SurvivorsKeepOrder | assets/js/pixel-trail.js:87-95 | the filter keeps the survivors' relative order (ids increasing, ages non-increasing) |
| PixelTrail.SurvivorsOfLiveStore | assets/js/pixel-trail.js:87-95 | the filter removes nothing from a store whose points all have positive opacity |
| TrailSession.Session.RemoveExpired | assets/js/pixel-trail.js:87-95 | the filter loop keeps exactly `Survivors` of the store, in order, and detaches the element of every expired point |
| PixelTrail.TickOfEmptyStore | assets/js/pixel-trail.js:69-95 | a tick on an empty store changes nothing |
| PixelTrail.TickSurvivors | assets/js/pixel-trail.js:69-95 | after a tick the store holds exactly the aged old points that were younger than 24 ticks (both directions) |
| PixelTrail.TickPreservesInvariant | assets/js/pixel-trail.js:69-95 | a tick keeps the trail invariant |
| TrailSession.Session.Animate | assets/js/pixel-trail.js:69-95 | moves the object's state exactly as `Tick` does and keeps `Valid()` |
| PixelTrail.SizeMultiplier | assets/js/pixel-trail.js:44 | the multiplier lies in [0.3, 1]; it is 1 - age/100 up to age 70 and the 0.3 floor from age 70 on |
| PixelTrail.ElementSize | assets/js/pixel-trail.js:45 | the rendered side lies between 3.6 and 12 pixels |
| PixelTrail.StyleOf | assets/js/pixel-trail.js:75-82 | an element is a square of side `ElementSize(age)` centred on its point, with the point's opacity |
| PixelTrail.ElementsOfKeys | assets/js/pixel-trail.js:54-61 | an id has an attached element exactly when a point of the store has that id |
| PixelTrail.ElementsOfStyles | assets/js/pixel-trail.js:74-83 | in a store with distinct ids, each point's element shows that point's own style |
| PixelTrail.ElementsOfPush | assets/js/pixel-trail.js:54-62 | pushing a point attaches its element; past 40 points the old head's element is also detached |
| PixelTrail.ElementsDropAt | assets/js/pixel-trail.js:59-61 | removing one point of a store with distinct ids removes exactly its element |
| PixelTrail.ElementsUpdateAt | assets/js/pixel-trail.js:74-83 | changing one point (same id) changes only its element's style |
| PixelTrail.ExpiredIdsAttached | assets/js/pixel-trail.js:88-91 | every expired point has an element to detach |
| PixelTrail.ElementsOfSurvivors | assets/js/pixel-trail.js:87-95 | after the filter, the elements are the old ones minus exactly those of the expired points |
| PixelTrail.FadeSchedule | assets/js/pixel-trail.js:25-26 | after k ticks a fresh point has opacity 1 - 0.04·k and age k |
| PixelTrail.ExpiresAtTick25 | assets/js/pixel-trail.js:71-72 | after k ticks a fresh point's opacity is positive exactly when k < 25 |
| PixelTrail.LeavesOnTwentyFifthTick | assets/js/pixel-trail.js:69-95 | a stored point of age 24 is not in the store after the next tick: the filter drops it on its 25th tick |
| PixelTrail.LiveSizeAboveFloor | assets/js/pixel-trail.js:75-76 | every stored point is younger than 25 ticks, so its size multiplier stays above 0.75 and never reaches the 0.3 floor |
| PixelTrail.FourEventScenario | assets/js/pixel-trail.js:35-65 | moves (0,0), (20,0), (20,0), (50,0) from the initial state sample only the second and fourth, giving points 0 and 1, counter 2 and last position (50,0) |
| PixelTrail.LineTrail | assets/js/pixel-trail.js:35-65 | n moves 20 pixels apart leave the newest min(n,40) points with consecutive ids, counter n and the last move as position |
| PixelTrail.FortyFiveMoveScenario | assets/js/pixel-trail.js:57-63 | after 45 such moves the store holds 40 points with ids 5 to 44: the five oldest were evicted |

## Left out

- The container lookup and creation (lines 8-13) are not modelled: the container is the one map `rendered`.
- DOM elements are not objects in the model. The model does not capture:
  - the class name and `borderRadius` written into each element;
  - the `'px'` string formatting;
  - element identity: `Style` values are keyed by point id.
- The `pixel.element` and `parentNode` guards (lines 60, 74, 89) always hold in the model, because every stored point has an attached element (`Valid()`).
- Re-arming with `requestAnimationFrame`, `init`, `cleanup` and the `DOMContentLoaded`/`beforeunload` listeners (lines 97-118) are event-loop and browser plumbing.
  - `Animate` models one tick.
  - `HandleMouseMove` takes the event's `clientX`/`clientY` as parameters.
- Floating point is not modelled: opacity and sizes are exact reals.
  - In IEEE-754 doubles the 25th subtraction of 0.04 from 1 gives about −3.5e-16, which is ≤ 0, so under doubles a point also expires at tick 25.
  - Only the intermediate opacities differ from 1 − 0.04·k, by rounding error.
- The counter `pixelId` is a JavaScript number, exact only up to 2^53; the model's `nat` is unbounded, so it does not capture loss of precision past 2^53 moves.
- `Math.sqrt` is not modelled: the comparison is over squares, and the two are proved to agree.
- Pointer coordinates are integers.
- Each point's `element` field is not modelled as a field. The element is the entry for the point's id in `rendered`.
