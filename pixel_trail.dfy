/**
 * The value-level model of the pixel cursor trail: trail points, the trail
 * store, the distance-throttled pointer sampler and the per-frame decay tick,
 * with the invariants they keep.  The module-level state of the script is a
 * `Trail`; the class in module TrailSession updates the same state in place
 * and is specified by the functions here.
 */
module PixelTrail {

  /** Side of one trail square in CSS pixels; also the sampling distance. */
  const PixelSize: int := 12
  /** Capacity of the trail store. */
  const TrailLength: int := 40
  /** Opacity lost by every point on each decay tick. */
  const FadeSpeed: real := 0.04

  /** A viewport position reported by a pointer-move event. */
  datatype Position = Position(x: int, y: int)

  /** One trail point; `opacity` and `age` are the fields the decay tick updates. */
  datatype Pixel = Pixel(id: nat, x: int, y: int, opacity: real, age: nat)

  /** What the script writes into an element's style: position, size, opacity. */
  datatype Style = Style(left: real, top: real, width: real, height: real, opacity: real)

  /** The script's mutable state: the store, the id counter, the last accepted position. */
  datatype Trail = Trail(pixels: seq<Pixel>, nextId: nat, last: Position)

  // ---------------------------------------------------------------------------
  // State and operations
  // ---------------------------------------------------------------------------

  /** The state the script starts in. */
  function InitialTrail(): Trail
  {
    Trail([], 0, Position(0, 0))
  }

  /** The record `createPixel` builds, given the counter value it takes. */
  function FreshPixel(id: nat, x: int, y: int): Pixel
  {
    Pixel(id, x, y, 1.0, 0)
  }

  /**
   * The sampler's test: the new position is farther than one pixel size from
   * the last accepted one, compared on squared distances.
   */
  predicate Accepts(last: Position, x: int, y: int)
  {
    var dx := x - last.x;
    var dy := y - last.y;
    dx * dx + dy * dy > PixelSize * PixelSize
  }

  /** Append at the tail; if that makes the store too long, drop the head. */
  function Push(ps: seq<Pixel>, p: Pixel): seq<Pixel>
  {
    var grown := ps + [p];
    if |grown| > TrailLength then grown[1..] else grown
  }

  /** One pointer-move event at (x, y). */
  function MouseMove(t: Trail, x: int, y: int): Trail
  {
    if Accepts(t.last, x, y) then
      Trail(Push(t.pixels, FreshPixel(t.nextId, x, y)), t.nextId + 1, Position(x, y))
    else
      t
  }

  /** What the decay tick's map callback does to one point. */
  function Aged(p: Pixel): Pixel
  {
    p.(opacity := p.opacity - FadeSpeed, age := p.age + 1)
  }

  /** The map phase of the decay tick. */
  function Decay(ps: seq<Pixel>): seq<Pixel>
  {
    seq(|ps|, i requires 0 <= i < |ps| => Aged(ps[i]))
  }

  /** The filter phase of the decay tick: drop every point whose opacity is at most 0. */
  function Survivors(ps: seq<Pixel>): (r: seq<Pixel>)
    ensures |r| <= |ps|
    ensures forall i :: 0 <= i < |r| ==> r[i].opacity > 0.0
  {
    if ps == [] then []
    else
      var rest := Survivors(ps[..|ps| - 1]);
      var p := ps[|ps| - 1];
      if p.opacity <= 0.0 then rest else rest + [p]
  }

  /** One decay tick: age and fade every point, then retire the expired ones. */
  function Tick(t: Trail): Trail
  {
    Trail(Survivors(Decay(t.pixels)), t.nextId, t.last)
  }

  /** The size multiplier, max(0.3, 1 - age/100). */
  function SizeMultiplier(age: nat): (r: real)
    ensures 0.3 <= r <= 1.0
    ensures age <= 70 ==> r == 1.0 - (age as real) / 100.0
    ensures age >= 70 ==> r == 0.3
  {
    var shrunk := 1.0 - (age as real) / 100.0;
    if shrunk > 0.3 then shrunk else 0.3
  }

  /** The rendered side length of a point of the given age. */
  function ElementSize(age: nat): (r: real)
    ensures 3.6 <= r <= PixelSize as real
  {
    PixelSize as real * SizeMultiplier(age)
  }

  /** The style of a point's element: a square centred on the point. */
  function StyleOf(p: Pixel): (s: Style)
    ensures s.width == s.height == ElementSize(p.age)
    ensures s.left + s.width / 2.0 == p.x as real
    ensures s.top + s.height / 2.0 == p.y as real
    ensures s.opacity == p.opacity
  {
    var size := ElementSize(p.age);
    Style(p.x as real - size / 2.0, p.y as real - size / 2.0, size, size, p.opacity)
  }

  /**
   * The container's children: one element per point of the store, keyed by
   * the point's id, showing the style last written into it.
   */
  function ElementsOf(ps: seq<Pixel>): map<nat, Style>
  {
    if ps == [] then map[]
    else
      var p := ps[|ps| - 1];
      ElementsOf(ps[..|ps| - 1])[p.id := StyleOf(p)]
  }

  /** The ids of the expired points (opacity at most 0) of a store. */
  function ExpiredIds(ps: seq<Pixel>): set<nat>
  {
    if ps == [] then {}
    else
      var p := ps[|ps| - 1];
      ExpiredIds(ps[..|ps| - 1]) + if p.opacity <= 0.0 then {p.id} else {}
  }

  /** A sequence of pointer-move events, applied in order. */
  function Feed(t: Trail, moves: seq<Position>): Trail
  {
    if moves == [] then t
    else
      var m := moves[|moves| - 1];
      MouseMove(Feed(t, moves[..|moves| - 1]), m.x, m.y)
  }

  /** A point after k decay ticks (ignoring expiry). */
  function AgedN(p: Pixel, k: nat): Pixel
  {
    if k == 0 then p else Aged(AgedN(p, k - 1))
  }

  // ---------------------------------------------------------------------------
  // Invariants
  // ---------------------------------------------------------------------------

  /** Ids grow strictly from head to tail (so they are distinct). */
  ghost predicate IdsIncreasing(ps: seq<Pixel>)
  {
    forall i, j :: 0 <= i < j < |ps| ==> ps[i].id < ps[j].id
  }

  /** Older points come first: ages never grow from head to tail. */
  ghost predicate AgesNonIncreasing(ps: seq<Pixel>)
  {
    forall i, j :: 0 <= i < j < |ps| ==> ps[j].age <= ps[i].age
  }

  /** A point's opacity is exactly what its age has faded it to. */
  ghost predicate Faded(p: Pixel)
  {
    p.opacity == 1.0 - FadeSpeed * (p.age as real)
  }

  /** The invariant of the script's state between events. */
  ghost predicate TrailInvariant(t: Trail)
  {
    && |t.pixels| <= TrailLength
    && IdsIncreasing(t.pixels)
    && AgesNonIncreasing(t.pixels)
    && (forall i :: 0 <= i < |t.pixels| ==> t.pixels[i].id < t.nextId)
    && (forall i :: 0 <= i < |t.pixels| ==> Faded(t.pixels[i]) && 0.0 < t.pixels[i].opacity <= 1.0)
  }

  // ---------------------------------------------------------------------------
  // The initial state
  // ---------------------------------------------------------------------------

  lemma InitialTrailValid()
    ensures TrailInvariant(InitialTrail())
    ensures InitialTrail().pixels == [] && InitialTrail().nextId == 0
    ensures InitialTrail().last == Position(0, 0)
  {
  }

  // ---------------------------------------------------------------------------
  // The sampler
  // ---------------------------------------------------------------------------

  /**
   * The squared comparison is the Euclidean one: for the (non-negative)
   * distance d with d * d == dx * dx + dy * dy, the move is accepted exactly
   * when d > 12.
   */
  lemma AcceptsIsDistanceTest(last: Position, x: int, y: int, d: real)
    requires d >= 0.0
    requires d * d == ((x - last.x) * (x - last.x) + (y - last.y) * (y - last.y)) as real
    ensures Accepts(last, x, y) <==> d > PixelSize as real
  {
    var sq := (x - last.x) * (x - last.x) + (y - last.y) * (y - last.y);
    if d > 12.0 {
      assert d * d > 12.0 * d;
      assert sq as real > 144.0;
    } else {
      assert d * d <= 12.0 * d <= 144.0;
      assert sq as real <= 144.0;
    }
  }

  /** A rejected move changes nothing: not the store, the counter or the last position. */
  lemma RejectedMoveChangesNothing(t: Trail, x: int, y: int)
    requires !Accepts(t.last, x, y)
    ensures MouseMove(t, x, y) == t
  {
  }

  /**
   * An accepted move appends a fresh point with the old counter value at the
   * tail, advances the counter and records (x, y); the store stays within its
   * capacity, and a full store loses exactly its head.
   */
  lemma AcceptedMoveAppends(t: Trail, x: int, y: int)
    requires TrailInvariant(t)
    requires Accepts(t.last, x, y)
    ensures var t' := MouseMove(t, x, y);
      && t'.nextId == t.nextId + 1
      && t'.last == Position(x, y)
      && |t'.pixels| <= TrailLength
      && |t'.pixels| > 0
      && t'.pixels[|t'.pixels| - 1] == FreshPixel(t.nextId, x, y)
      && (|t.pixels| < TrailLength ==> t'.pixels == t.pixels + [FreshPixel(t.nextId, x, y)])
      && (|t.pixels| == TrailLength ==> t'.pixels == t.pixels[1..] + [FreshPixel(t.nextId, x, y)])
  {
  }

  /** Every reachable state keeps the invariant across a pointer-move event. */
  lemma {:induction false} MouseMovePreservesInvariant(t: Trail, x: int, y: int)
    requires TrailInvariant(t)
    ensures TrailInvariant(MouseMove(t, x, y))
  {
    if Accepts(t.last, x, y) {
      var p := FreshPixel(t.nextId, x, y);
      var grown := t.pixels + [p];
      AppendFreshKeepsOrder(t, p);
      if |grown| > TrailLength {
        assert Push(t.pixels, p) == grown[1..];
        SuffixKeepsOrder(grown, 1);
      }
    }
  }

  /** A fresh point with the counter's id may join the tail of an ordered store. */
  lemma AppendFreshKeepsOrder(t: Trail, p: Pixel)
    requires TrailInvariant(t)
    requires p.id == t.nextId && p.age == 0
    ensures forall i :: 0 <= i < |t.pixels| ==> t.pixels[i].id != p.id
    ensures IdsIncreasing(t.pixels + [p]) && AgesNonIncreasing(t.pixels + [p])
  {
    var grown := t.pixels + [p];
    forall i, j | 0 <= i < j < |grown| ensures grown[i].id < grown[j].id && grown[j].age <= grown[i].age {
      if j < |t.pixels| { assert grown[i] == t.pixels[i] && grown[j] == t.pixels[j]; }
      else { assert grown[i] == t.pixels[i]; }
    }
  }

  /** A suffix of an ordered store is ordered. */
  lemma SuffixKeepsOrder(ps: seq<Pixel>, k: nat)
    requires k <= |ps|
    ensures IdsIncreasing(ps) ==> IdsIncreasing(ps[k..])
    ensures AgesNonIncreasing(ps) ==> AgesNonIncreasing(ps[k..])
  {
    assert forall i :: 0 <= i < |ps| - k ==> ps[k..][i] == ps[k + i];
  }

  // ---------------------------------------------------------------------------
  // The decay tick
  // ---------------------------------------------------------------------------

  /** Aging keeps ids, ordering and the opacity/age relation. */
  lemma DecayKeepsOrder(ps: seq<Pixel>)
    ensures |Decay(ps)| == |ps|
    ensures forall i :: 0 <= i < |ps| ==> Decay(ps)[i].id == ps[i].id
    ensures IdsIncreasing(ps) ==> IdsIncreasing(Decay(ps))
    ensures AgesNonIncreasing(ps) ==> AgesNonIncreasing(Decay(ps))
    ensures (forall i :: 0 <= i < |ps| ==> Faded(ps[i])) ==> (forall i :: 0 <= i < |ps| ==> Faded(Decay(ps)[i]))
  {
  }

  /** A point survives the filter exactly when it was in the input with positive opacity. */
  lemma {:induction false} SurvivorsMembership(ps: seq<Pixel>, p: Pixel)
    ensures p in Survivors(ps) <==> p in ps && p.opacity > 0.0
  {
    if ps != [] {
      var init := ps[..|ps| - 1];
      SurvivorsMembership(init, p);
      assert ps == init + [ps[|ps| - 1]];
    }
  }

  /** The filter keeps the survivors' relative order. */
  lemma {:induction false} SurvivorsKeepOrder(ps: seq<Pixel>)
    ensures IdsIncreasing(ps) ==> IdsIncreasing(Survivors(ps))
    ensures AgesNonIncreasing(ps) ==> AgesNonIncreasing(Survivors(ps))
  {
    if ps != [] {
      var init := ps[..|ps| - 1];
      var p := ps[|ps| - 1];
      SurvivorsKeepOrder(init);
      PrefixKeepsOrder(ps, |ps| - 1);
      var rest := Survivors(init);
      if p.opacity > 0.0 {
        var r := rest + [p];
        assert Survivors(ps) == r;
        // every survivor of the prefix stands before p in ps
        forall i | 0 <= i < |rest| ensures exists k :: 0 <= k < |ps| - 1 && ps[k] == rest[i] {
          SurvivorsMembership(init, rest[i]);
        }
        if IdsIncreasing(ps) {
          forall i, j | 0 <= i < j < |r| ensures r[i].id < r[j].id {
            if j < |rest| { assert r[i] == rest[i] && r[j] == rest[j]; }
            else {
              var k :| 0 <= k < |ps| - 1 && ps[k] == rest[i];
              assert r[i] == ps[k] && r[j] == ps[|ps| - 1];
            }
          }
        }
        if AgesNonIncreasing(ps) {
          forall i, j | 0 <= i < j < |r| ensures r[j].age <= r[i].age {
            if j < |rest| { assert r[i] == rest[i] && r[j] == rest[j]; }
            else {
              var k :| 0 <= k < |ps| - 1 && ps[k] == rest[i];
              assert r[i] == ps[k] && r[j] == ps[|ps| - 1];
            }
          }
        }
      }
    }
  }

  /** A prefix of an ordered store is ordered. */
  lemma PrefixKeepsOrder(ps: seq<Pixel>, k: nat)
    requires k <= |ps|
    ensures IdsIncreasing(ps) ==> IdsIncreasing(ps[..k])
    ensures AgesNonIncreasing(ps) ==> AgesNonIncreasing(ps[..k])
  {
  }

  /** The filter is the identity on a store whose points are all visible. */
  lemma {:induction false} SurvivorsOfLiveStore(ps: seq<Pixel>)
    requires forall i :: 0 <= i < |ps| ==> ps[i].opacity > 0.0
    ensures Survivors(ps) == ps
  {
    if ps != [] {
      var init := ps[..|ps| - 1];
      SurvivorsOfLiveStore(init);
      assert ps == init + [ps[|ps| - 1]];
    }
  }

  /** A tick on an empty store changes nothing. */
  lemma TickOfEmptyStore(t: Trail)
    requires t.pixels == []
    ensures Tick(t) == t
  {
  }

  /**
   * What a tick leaves in the store: exactly the aged points that were younger
   * than 24 ticks (the ones whose opacity stays positive), and nothing else.
   */
  lemma TickSurvivors(t: Trail, p: Pixel)
    requires TrailInvariant(t)
    ensures p in Tick(t).pixels <==>
      exists i :: 0 <= i < |t.pixels| && p == Aged(t.pixels[i]) && t.pixels[i].age < 24
  {
    var d := Decay(t.pixels);
    SurvivorsMembership(d, p);
    if p in Tick(t).pixels {
      var i :| 0 <= i < |d| && d[i] == p;
      assert Faded(t.pixels[i]);
    }
    if exists i :: 0 <= i < |t.pixels| && p == Aged(t.pixels[i]) && t.pixels[i].age < 24 {
      var i :| 0 <= i < |t.pixels| && p == Aged(t.pixels[i]) && t.pixels[i].age < 24;
      assert Faded(t.pixels[i]);
      assert d[i] == p;
    }
  }

  /** A stored point of age 24 is gone after the next tick: its opacity reaches 0 and the filter drops it. */
  lemma LeavesOnTwentyFifthTick(t: Trail, j: nat)
    requires TrailInvariant(t) && j < |t.pixels| && t.pixels[j].age == 24
    ensures forall q :: q in Tick(t).pixels ==> q.id != t.pixels[j].id
  {
    forall q | q in Tick(t).pixels ensures q.id != t.pixels[j].id {
      TickSurvivors(t, q);
      var i :| 0 <= i < |t.pixels| && q == Aged(t.pixels[i]) && t.pixels[i].age < 24;
      assert i != j;
    }
  }

  /** Every reachable state keeps the invariant across a decay tick. */
  lemma {:induction false} TickPreservesInvariant(t: Trail)
    requires TrailInvariant(t)
    ensures TrailInvariant(Tick(t))
  {
    var d := Decay(t.pixels);
    DecayKeepsOrder(t.pixels);
    SurvivorsKeepOrder(d);
    var s := Survivors(d);
    forall i | 0 <= i < |s| ensures s[i].id < t.nextId && Faded(s[i]) && 0.0 < s[i].opacity <= 1.0 {
      SurvivorsMembership(d, s[i]);
      var k :| 0 <= k < |d| && d[k] == s[i];
      assert Faded(d[k]);
    }
  }

  // ---------------------------------------------------------------------------
  // The container's elements
  // ---------------------------------------------------------------------------

  /**
   * Handle ownership: an element is attached for an id exactly when a point of
   * the store has that id.
   */
  lemma {:induction false} ElementsOfKeys(ps: seq<Pixel>, id: nat)
    ensures id in ElementsOf(ps) <==> exists i :: 0 <= i < |ps| && ps[i].id == id
  {
    if ps != [] {
      var init := ps[..|ps| - 1];
      ElementsOfKeys(init, id);
      if id in ElementsOf(init) {
        var i :| 0 <= i < |init| && init[i].id == id;
        assert ps[i] == init[i];
      }
      if exists i :: 0 <= i < |ps| && ps[i].id == id {
        var i :| 0 <= i < |ps| && ps[i].id == id;
        if i < |ps| - 1 { assert ps[i] == init[i]; }
      }
    }
  }

  /** Each attached element shows its own point's position, size and opacity. */
  lemma {:induction false} ElementsOfStyles(ps: seq<Pixel>, i: nat)
    requires IdsIncreasing(ps) && i < |ps|
    ensures ps[i].id in ElementsOf(ps) && ElementsOf(ps)[ps[i].id] == StyleOf(ps[i])
  {
    var init := ps[..|ps| - 1];
    if i < |ps| - 1 {
      PrefixKeepsOrder(ps, |ps| - 1);
      ElementsOfStyles(init, i);
      assert ps[i] == init[i] && ps[i].id != ps[|ps| - 1].id;
    }
  }

  /** A point's element is attached when it is pushed; an evicted head's element is detached. */
  lemma ElementsOfPush(ps: seq<Pixel>, p: Pixel)
    requires IdsIncreasing(ps + [p])
    ensures |ps| + 1 <= TrailLength ==> ElementsOf(Push(ps, p)) == ElementsOf(ps)[p.id := StyleOf(p)]
    ensures |ps| + 1 > TrailLength ==>
      ElementsOf(Push(ps, p)) == ElementsOf(ps)[p.id := StyleOf(p)] - {(ps + [p])[0].id}
  {
    var grown := ps + [p];
    assert grown[..|ps|] == ps;
    assert ElementsOf(grown) == ElementsOf(ps)[p.id := StyleOf(p)];
    if |grown| > TrailLength {
      ElementsDropHead(grown);
    }
  }

  /** Only points of the store can be expired ones. */
  lemma {:induction false} ExpiredIdsAttached(ps: seq<Pixel>)
    ensures ExpiredIds(ps) <= ElementsOf(ps).Keys
  {
    if ps != [] {
      ExpiredIdsAttached(ps[..|ps| - 1]);
    }
  }

  /**
   * Expiry releases exactly the handles of the expired points: the elements
   * of the survivors are those of the store less the expired ids.
   */
  lemma {:induction false} ElementsOfSurvivors(ps: seq<Pixel>)
    requires IdsIncreasing(ps)
    ensures ElementsOf(Survivors(ps)) == ElementsOf(ps) - ExpiredIds(ps)
  {
    if ps != [] {
      var init := ps[..|ps| - 1];
      var p := ps[|ps| - 1];
      PrefixKeepsOrder(ps, |ps| - 1);
      ElementsOfSurvivors(init);
      ElementsOfKeys(init, p.id);
      assert forall i :: 0 <= i < |init| ==> init[i] == ps[i];
      ExpiredIdsAttached(init);
      assert ps == init + [p];
      SurvivorsStep(init, p);
    }
  }

  /** The inductive step of ElementsOfSurvivors, for a last point with an id of its own. */
  lemma SurvivorsStep(init: seq<Pixel>, p: Pixel)
    requires ElementsOf(Survivors(init)) == ElementsOf(init) - ExpiredIds(init)
    requires p.id !in ElementsOf(init)
    requires ExpiredIds(init) <= ElementsOf(init).Keys
    ensures ElementsOf(Survivors(init + [p])) == ElementsOf(init + [p]) - ExpiredIds(init + [p])
  {
    var e := ElementsOf(init);
    SnocUnfolds(init, p);
    if p.opacity <= 0.0 {
      RemoveFresh(e, p.id, StyleOf(p), ExpiredIds(init));
    } else {
      SnocUnfolds(Survivors(init), p);
      UpdateOutside(e, p.id, StyleOf(p), ExpiredIds(init));
    }
  }

  /** The recursive definitions, unfolded once on a store with a point pushed at the tail. */
  lemma SnocUnfolds(init: seq<Pixel>, p: Pixel)
    ensures ElementsOf(init + [p]) == ElementsOf(init)[p.id := StyleOf(p)]
    ensures Survivors(init + [p]) == if p.opacity <= 0.0 then Survivors(init) else Survivors(init) + [p]
    ensures ExpiredIds(init + [p]) == ExpiredIds(init) + if p.opacity <= 0.0 then {p.id} else {}
  {
    assert (init + [p])[..|init|] == init;
  }

  lemma RemoveFresh<K, V>(m: map<K, V>, k: K, v: V, s: set<K>)
    requires k !in m
    ensures m[k := v] - (s + {k}) == m - s
  {
  }

  lemma UpdateOutside<K, V>(m: map<K, V>, k: K, v: V, s: set<K>)
    requires k !in s
    ensures (m - s)[k := v] == m[k := v] - s
  {
  }

  /** Detaching the element of the head. */
  lemma ElementsDropHead(ps: seq<Pixel>)
    requires IdsIncreasing(ps) && |ps| > 0
    ensures ElementsOf(ps[1..]) == ElementsOf(ps) - {ps[0].id}
  {
    assert ps[..0] + ps[1..] == ps[1..];
    ElementsDropAt(ps, 0);
  }

  /** Detaching the element of the point at index m, in a store with distinct ids. */
  lemma {:induction false} ElementsDropAt(ps: seq<Pixel>, m: nat)
    requires IdsIncreasing(ps) && m < |ps|
    ensures ElementsOf(ps[..m] + ps[m + 1..]) == ElementsOf(ps) - {ps[m].id}
  {
    if m == |ps| - 1 {
      DropLastCase(ps);
    } else {
      PrefixKeepsOrder(ps, |ps| - 1);
      ElementsDropAt(ps[..|ps| - 1], m);
      DropInnerCase(ps, m);
    }
  }

  /** ElementsDropAt for the tail of a store with distinct ids. */
  lemma DropLastCase(ps: seq<Pixel>)
    requires IdsIncreasing(ps) && |ps| > 0
    ensures ElementsOf(ps[..|ps| - 1] + ps[|ps|..]) == ElementsOf(ps) - {ps[|ps| - 1].id}
  {
    var init := ps[..|ps| - 1];
    var p := ps[|ps| - 1];
    assert ps == init + [p];
    assert forall i :: 0 <= i < |init| ==> init[i] == ps[i];
    ElementsOfKeys(init, p.id);
    DropLastStep(init, p);
  }

  /** ElementsDropAt before the tail, given the same fact about the store without its tail. */
  lemma DropInnerCase(ps: seq<Pixel>, m: nat)
    requires IdsIncreasing(ps) && m < |ps| - 1
    requires var init := ps[..|ps| - 1];
      ElementsOf(init[..m] + init[m + 1..]) == ElementsOf(init) - {init[m].id}
    ensures ElementsOf(ps[..m] + ps[m + 1..]) == ElementsOf(ps) - {ps[m].id}
  {
    var init := ps[..|ps| - 1];
    var p := ps[|ps| - 1];
    assert ps == init + [p];
    assert ps[m] == init[m];
    DropInnerStep(init, p, m);
  }

  /** The recursive case of ElementsDropAt when the dropped point is the tail. */
  lemma DropLastStep(init: seq<Pixel>, p: Pixel)
    requires p.id !in ElementsOf(init)
    ensures ElementsOf((init + [p])[..|init|] + (init + [p])[|init| + 1..]) == ElementsOf(init + [p]) - {p.id}
  {
    assert (init + [p])[..|init|] + (init + [p])[|init| + 1..] == init;
    SnocUnfolds(init, p);
    DropFresh(ElementsOf(init), p.id, StyleOf(p));
  }

  lemma DropFresh<K, V>(m: map<K, V>, k: K, v: V)
    requires k !in m
    ensures m[k := v] - {k} == m
  {
  }

  /** The recursive case of ElementsDropAt when the dropped point lies before the tail p. */
  lemma DropInnerStep(init: seq<Pixel>, p: Pixel, m: nat)
    requires m < |init| && p.id != init[m].id
    requires ElementsOf(init[..m] + init[m + 1..]) == ElementsOf(init) - {init[m].id}
    ensures ElementsOf((init + [p])[..m] + (init + [p])[m + 1..]) == ElementsOf(init + [p]) - {init[m].id}
  {
    var rest := init[..m] + init[m + 1..];
    DropBeforeTail(init, p, m);
    SnocUnfolds(rest, p);
    SnocUnfolds(init, p);
    UpdateOutside(ElementsOf(init), p.id, StyleOf(p), {init[m].id});
  }

  lemma DropBeforeTail<T>(s: seq<T>, x: T, m: nat)
    requires m < |s|
    ensures (s + [x])[..m] + (s + [x])[m + 1..] == (s[..m] + s[m + 1..]) + [x]
  {
  }

  /** Restyling the element of the point at index m after that point changed (its id did not). */
  lemma {:induction false} ElementsUpdateAt(ps: seq<Pixel>, m: nat, q: Pixel)
    requires IdsIncreasing(ps) && m < |ps| && q.id == ps[m].id
    ensures ElementsOf(ps[m := q]) == ElementsOf(ps)[q.id := StyleOf(q)]
  {
    if m == |ps| - 1 {
      assert ps == ps[..|ps| - 1] + [ps[|ps| - 1]];
      UpdateLastStep(ps[..|ps| - 1], ps[|ps| - 1], q);
    } else {
      PrefixKeepsOrder(ps, |ps| - 1);
      ElementsUpdateAt(ps[..|ps| - 1], m, q);
      UpdateInnerCase(ps, m, q);
    }
  }

  /** ElementsUpdateAt before the tail, given the same fact about the store without its tail. */
  lemma UpdateInnerCase(ps: seq<Pixel>, m: nat, q: Pixel)
    requires IdsIncreasing(ps) && m < |ps| - 1 && q.id == ps[m].id
    requires var init := ps[..|ps| - 1];
      ElementsOf(init[m := q]) == ElementsOf(init)[q.id := StyleOf(q)]
    ensures ElementsOf(ps[m := q]) == ElementsOf(ps)[q.id := StyleOf(q)]
  {
    var init := ps[..|ps| - 1];
    var p := ps[|ps| - 1];
    assert ps == init + [p];
    assert ps[m] == init[m];
    UpdateInnerStep(init, p, m, q);
  }

  /** The recursive case of ElementsUpdateAt when the restyled point is the tail. */
  lemma UpdateLastStep(init: seq<Pixel>, p: Pixel, q: Pixel)
    requires q.id == p.id
    ensures ElementsOf((init + [p])[|init| := q]) == ElementsOf(init + [p])[q.id := StyleOf(q)]
  {
    assert (init + [p])[|init| := q] == init + [q];
    SnocUnfolds(init, p);
    SnocUnfolds(init, q);
    UpdateTwice(ElementsOf(init), p.id, StyleOf(p), StyleOf(q));
  }

  lemma UpdateTwice<K, V>(m: map<K, V>, k: K, v: V, w: V)
    ensures m[k := v][k := w] == m[k := w]
  {
  }

  /** The recursive case of ElementsUpdateAt when the restyled point lies before the tail p. */
  lemma UpdateInnerStep(init: seq<Pixel>, p: Pixel, m: nat, q: Pixel)
    requires m < |init| && q.id != p.id
    requires ElementsOf(init[m := q]) == ElementsOf(init)[q.id := StyleOf(q)]
    ensures ElementsOf((init + [p])[m := q]) == ElementsOf(init + [p])[q.id := StyleOf(q)]
  {
    assert (init + [p])[m := q] == init[m := q] + [p];
    SnocUnfolds(init[m := q], p);
    SnocUnfolds(init, p);
    UpdatesCommute(ElementsOf(init), q.id, StyleOf(q), p.id, StyleOf(p));
  }

  lemma UpdatesCommute<K, V>(m: map<K, V>, k1: K, v1: V, k2: K, v2: V)
    requires k1 != k2
    ensures m[k1 := v1][k2 := v2] == m[k2 := v2][k1 := v1]
  {
  }

  // ---------------------------------------------------------------------------
  // Decay timing
  // ---------------------------------------------------------------------------

  /** After k ticks a fresh point has opacity 1 - 0.04 k and age k. */
  lemma {:induction false} FadeSchedule(id: nat, x: int, y: int, k: nat)
    ensures AgedN(FreshPixel(id, x, y), k) == Pixel(id, x, y, 1.0 - FadeSpeed * (k as real), k)
  {
    if k > 0 {
      FadeSchedule(id, x, y, k - 1);
    }
  }

  /** A fresh point stays visible for 24 ticks and is expired by the 25th. */
  lemma ExpiresAtTick25(id: nat, x: int, y: int, k: nat)
    ensures AgedN(FreshPixel(id, x, y), k).opacity > 0.0 <==> k < 25
  {
    FadeSchedule(id, x, y, k);
  }

  /** Points in the store are younger than 25 ticks, so their size has not hit the 0.3 floor. */
  lemma LiveSizeAboveFloor(t: Trail, i: int)
    requires TrailInvariant(t)
    requires 0 <= i < |t.pixels|
    ensures t.pixels[i].age < 25
    ensures SizeMultiplier(t.pixels[i].age) > 0.75
  {
    assert Faded(t.pixels[i]);
  }

  // ---------------------------------------------------------------------------
  // Scenarios
  // ---------------------------------------------------------------------------

  /**
   * Events at (0,0), (20,0), (20,0), (50,0) on the initial state: the first
   * and third are rejected, the others each append a point.
   */
  lemma FourEventScenario()
    ensures Feed(InitialTrail(), [Position(0, 0), Position(20, 0), Position(20, 0), Position(50, 0)])
      == Trail([FreshPixel(0, 20, 0), FreshPixel(1, 50, 0)], 2, Position(50, 0))
  {
    var moves := [Position(0, 0), Position(20, 0), Position(20, 0), Position(50, 0)];
    assert moves[..1] == [Position(0, 0)];
    assert [Position(0, 0)][..0] == [];
    var t1 := Feed(InitialTrail(), moves[..1]);
    assert t1 == MouseMove(Feed(InitialTrail(), []), 0, 0);
    assert t1 == InitialTrail();
    var t2 := Feed(InitialTrail(), moves[..2]);
    assert moves[..2][..1] == moves[..1];
    assert t2 == Trail([FreshPixel(0, 20, 0)], 1, Position(20, 0));
    var t3 := Feed(InitialTrail(), moves[..3]);
    assert moves[..3][..2] == moves[..2];
    assert t3 == t2;
    assert moves[..3] == moves[..|moves| - 1];
  }

  /** n pointer moves, 20 pixels apart along the x axis. */
  function Line(n: nat): seq<Position>
  {
    seq(n, k requires 0 <= k < n => Position(20 * (k + 1), 0))
  }

  function Min(a: int, b: int): int
  {
    if a < b then a else b
  }

  /** The store after the n moves of Line(n): the newest min(n, 40) fresh points. */
  function LineStore(n: nat): seq<Pixel>
  {
    var m := Min(n, TrailLength);
    seq(m, i requires 0 <= i < m => FreshPixel(n - m + i, 20 * (n - m + i + 1), 0))
  }

  lemma {:induction false} LineTrail(n: nat)
    ensures Feed(InitialTrail(), Line(n))
      == Trail(LineStore(n), n, if n == 0 then Position(0, 0) else Position(20 * n, 0))
  {
    if n > 0 {
      LineTrail(n - 1);
      assert Line(n)[..n - 1] == Line(n - 1);
      var prev := Trail(LineStore(n - 1), n - 1, if n == 1 then Position(0, 0) else Position(20 * (n - 1), 0));
      assert Accepts(prev.last, 20 * n, 0);
      var p := FreshPixel(n - 1, 20 * n, 0);
      var grown := LineStore(n - 1) + [p];
      if n - 1 < TrailLength {
        assert Push(LineStore(n - 1), p) == grown;
        assert grown == LineStore(n);
      } else {
        assert Push(LineStore(n - 1), p) == grown[1..];
        assert grown[1..] == LineStore(n);
      }
    }
  }

  /** After 45 well-spaced moves the store holds 40 points, ids 5 to 44: the five oldest were evicted. */
  lemma FortyFiveMoveScenario()
    ensures |Feed(InitialTrail(), Line(45)).pixels| == 40
    ensures forall i :: 0 <= i < 40 ==> Feed(InitialTrail(), Line(45)).pixels[i].id == i + 5
  {
    LineTrail(45);
    forall i | 0 <= i < 40 ensures LineStore(45)[i].id == i + 5 {
      assert LineStore(45)[i] == FreshPixel(5 + i, 20 * (6 + i), 0);
    }
  }
}
