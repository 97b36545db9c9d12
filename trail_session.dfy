/**
 * The script's module-level state as an object updated in place: the store
 * `pixels`, the counter `pixelId` and `lastPosition`, plus a ghost map that
 * stands for the container's children (each attached element, by its point's
 * id, with the style last written into it).  Each event handler is specified
 * by the matching function of module PixelTrail.
 */
module TrailSession {
  import opened PixelTrail

  /** One step of the filter loop over the store ps. */
  lemma FilterStep(ps: seq<Pixel>, j: nat)
    requires j < |ps|
    ensures Survivors(ps[..j + 1]) ==
      if ps[j].opacity <= 0.0 then Survivors(ps[..j]) else Survivors(ps[..j]) + [ps[j]]
    ensures ExpiredIds(ps[..j + 1]) ==
      if ps[j].opacity <= 0.0 then ExpiredIds(ps[..j]) + {ps[j].id} else ExpiredIds(ps[..j])
  {
    assert ps[..j + 1][..j] == ps[..j];
  }

  /** What an accepted move leaves behind, in the terms the handler's steps establish. */
  lemma AcceptedStep(t: Trail, x: int, y: int)
    requires TrailInvariant(t) && Accepts(t.last, x, y)
    ensures IdsIncreasing(t.pixels + [FreshPixel(t.nextId, x, y)])
    ensures MouseMove(t, x, y) == Trail(Push(t.pixels, FreshPixel(t.nextId, x, y)), t.nextId + 1, Position(x, y))
    ensures TrailInvariant(MouseMove(t, x, y))
  {
    AppendFreshKeepsOrder(t, FreshPixel(t.nextId, x, y));
    MouseMovePreservesInvariant(t, x, y);
  }

  class Session {
    var pixels: seq<Pixel>
    var pixelId: nat
    var lastPosition: Position
    /** The container's children, by point id, with the style last written into each. */
    ghost var rendered: map<nat, Style>

    /** The abstract state this object holds. */
    ghost function Snapshot(): Trail
      reads this
    {
      Trail(pixels, pixelId, lastPosition)
    }

    /** The state invariant, and every point owning exactly one attached, up-to-date element. */
    ghost predicate Valid()
      reads this
    {
      TrailInvariant(Snapshot()) && rendered == ElementsOf(pixels)
    }

    /** The state the script sets up when it loads; nothing is attached yet. */
    constructor ()
      ensures Valid()
      ensures Snapshot() == InitialTrail()
      ensures rendered == map[]
    {
      pixels := [];
      pixelId := 0;
      lastPosition := Position(0, 0);
      rendered := map[];
    }

    /** Builds a fresh point at (x, y), taking the next id from the counter. */
    method CreatePixel(x: int, y: int) returns (p: Pixel)
      modifies this`pixelId
      ensures p == FreshPixel(old(pixelId), x, y)
      ensures pixelId == old(pixelId) + 1
    {
      p := Pixel(pixelId, x, y, 1.0, 0);
      pixelId := pixelId + 1;
    }

    /**
     * Attaches the element of a new point, pushes the point at the tail and,
     * when the store is then over capacity, shifts out the head and detaches
     * its element.
     */
    method Append(p: Pixel)
      requires rendered == ElementsOf(pixels) && IdsIncreasing(pixels + [p])
      modifies this`pixels, this`rendered
      ensures pixels == Push(old(pixels), p)
      ensures old(|pixels|) + 1 > TrailLength ==> rendered == old(rendered)[p.id := StyleOf(p)] - {old(pixels)[0].id}
      ensures old(|pixels|) + 1 <= TrailLength ==> rendered == old(rendered)[p.id := StyleOf(p)]
      ensures rendered == ElementsOf(pixels)
    {
      ElementsOfPush(pixels, p);
      rendered := rendered[p.id := StyleOf(p)];
      pixels := pixels + [p];
      if |pixels| > TrailLength {
        var oldPixel := pixels[0];
        pixels := pixels[1..];
        rendered := rendered - {oldPixel.id};
      }
    }

    /** The pointer-move handler. */
    method HandleMouseMove(x: int, y: int)
      requires Valid()
      modifies this
      ensures Valid()
      ensures Snapshot() == MouseMove(old(Snapshot()), x, y)
    {
      var dx := x - lastPosition.x;
      var dy := y - lastPosition.y;
      if dx * dx + dy * dy > PixelSize * PixelSize {
        ghost var before := Snapshot();
        AcceptedStep(before, x, y);
        var newPixel := CreatePixel(x, y);
        Append(newPixel);
        lastPosition := Position(x, y);
      }
    }

    /** The map phase of the decay tick: every point is aged and its element restyled. */
    method DecayAll()
      requires rendered == ElementsOf(pixels) && IdsIncreasing(pixels)
      modifies this`pixels, this`rendered
      ensures pixels == Decay(old(pixels))
      ensures rendered == ElementsOf(pixels) && IdsIncreasing(pixels)
    {
      var store := pixels;
      ghost var original := pixels;
      var i := 0;
      while i < |store|
        invariant 0 <= i <= |store| == |original|
        invariant forall k :: 0 <= k < i ==> store[k] == Aged(original[k])
        invariant forall k :: i <= k < |store| ==> store[k] == original[k]
        invariant rendered == ElementsOf(store) && IdsIncreasing(store)
      {
        var pixel := store[i];
        pixel := pixel.(opacity := pixel.opacity - FadeSpeed, age := pixel.age + 1);
        ElementsUpdateAt(store, i, pixel);
        assert IdsIncreasing(store[i := pixel]) by {
          assert forall k :: 0 <= k < |store| ==> store[i := pixel][k].id == store[k].id;
        }
        store := store[i := pixel];
        rendered := rendered[pixel.id := StyleOf(pixel)];
        i := i + 1;
      }
      assert store == Decay(original);
      pixels := store;
    }

    /** The filter phase of the decay tick: expired points leave the store and their elements are detached. */
    method RemoveExpired()
      requires rendered == ElementsOf(pixels) && IdsIncreasing(pixels)
      modifies this`pixels, this`rendered
      ensures pixels == Survivors(old(pixels))
      ensures rendered == ElementsOf(pixels)
    {
      var store := pixels;
      var kept: seq<Pixel> := [];
      var j := 0;
      while j < |store|
        invariant 0 <= j <= |store|
        invariant kept == Survivors(store[..j])
        invariant rendered == ElementsOf(store) - ExpiredIds(store[..j])
      {
        var pixel := store[j];
        FilterStep(store, j);
        if pixel.opacity <= 0.0 {
          rendered := rendered - {pixel.id};
        } else {
          kept := kept + [pixel];
        }
        j := j + 1;
      }
      assert store[..j] == store;
      ElementsOfSurvivors(store);
      pixels := kept;
    }

    /** One decay tick (re-arming the frame callback is not part of the model). */
    method Animate()
      requires Valid()
      modifies this
      ensures Valid()
      ensures Snapshot() == Tick(old(Snapshot()))
    {
      ghost var before := Snapshot();
      DecayAll();
      RemoveExpired();
      assert Snapshot() == Tick(before);
      TickPreservesInvariant(before);
    }
  }
}
