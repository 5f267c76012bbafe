/** Renderables: the visibility gate every drawable element shares, and the
    extension-based choice between the vector and the raster image element.
    Decoding and drawing are not modelled: an image element is a token that
    remembers its format and its file path, and a painter is an identity. */
module Renderables {
  import opened Common
  import opened Text

  /** A drawing surface; a null QPainter pointer is `None`. */
  datatype Painter = Painter(id: nat)

  /** The state of a RenderableBase: only the visibility flag. */
  datatype RenderableBase = RenderableBase(visible: bool)
  {
    predicate IsVisible()
    {
      visible
    }

    /** setVisible(b): afterwards isVisible() reports `b`, and nothing else is held. */
    function SetVisible(b: bool): (r: RenderableBase)
      ensures r.IsVisible() == b
    {
      RenderableBase(b)
    }

    /** render(p): the painter renderImpl is called with, if it is called at all.
        The element itself is left as it was (render is const). */
    function Render(p: Option<Painter>): (drawn: Option<Painter>)
      ensures drawn.Some? <==> IsVisible() && p.Some?
      ensures drawn.Some? ==> drawn == p
    {
      if !visible || p.None? then None else p
    }
  }

  /** A freshly constructed element is visible. */
  function NewRenderable(): (r: RenderableBase)
    ensures r.IsVisible()
  {
    RenderableBase(true)
  }

  /** What a caller can do to an element: toggle it, or ask it to draw. */
  datatype Event = SetVisibleEvent(b: bool) | RenderEvent(p: Option<Painter>)

  /** Replays `events` on `r`: the final element and the painters renderImpl was called with, in order. */
  function Run(r: RenderableBase, events: seq<Event>): (RenderableBase, seq<Painter>)
    decreases |events|
  {
    if events == [] then (r, [])
    else
      var (r', drawn) :=
        match events[0]
        case SetVisibleEvent(b) => (r.SetVisible(b), [])
        case RenderEvent(p) => (r, match r.Render(p) case Some(q) => [q] case None => []);
      var (final, rest) := Run(r', events[1..]);
      (final, drawn + rest)
  }

  /** The visibility a replay ends with, read backwards: the last setVisible, or `initial`. */
  function LastSetting(events: seq<Event>, initial: bool): bool
    decreases |events|
  {
    if events == [] then initial
    else match events[|events| - 1]
      case SetVisibleEvent(b) => b
      case RenderEvent(_) => LastSetting(events[..|events| - 1], initial)
  }

  /** Only setVisible moves the flag: a replay ends with the last value set, or the initial one. */
  lemma {:induction false} RunFinalVisibility(r: RenderableBase, events: seq<Event>)
    ensures Run(r, events).0.IsVisible() == LastSetting(events, r.visible)
    decreases |events|
  {
    if events != [] {
      var r' := match events[0] case SetVisibleEvent(b) => r.SetVisible(b) case RenderEvent(_) => r;
      RunFinalVisibility(r', events[1..]);
      LastSettingCons(events, r.visible);
    }
  }

  /** Reading the last setting backwards agrees with applying the first event forwards. */
  lemma {:induction false} LastSettingCons(events: seq<Event>, initial: bool)
    requires events != []
    ensures LastSetting(events, initial)
         == LastSetting(events[1..], match events[0] case SetVisibleEvent(b) => b case RenderEvent(_) => initial)
    decreases |events|
  {
    if |events| > 1 {
      var init := events[..|events| - 1];
      assert init[1..] == events[1..][..|events[1..]| - 1];
      match events[|events| - 1]
      case SetVisibleEvent(b) =>
      case RenderEvent(_) =>
        LastSettingCons(init, initial);
    }
  }

  /** The non-null painters of the render events, in order. */
  function Requested(events: seq<Event>): seq<Painter>
    decreases |events|
  {
    if events == [] then []
    else
      var first := match events[0] case RenderEvent(Some(q)) => [q] case _ => [];
      first + Requested(events[1..])
  }

  /** Rendering alone never changes the element; an invisible element draws nothing, and a
      visible one draws on exactly the non-null painters it is given. */
  lemma {:induction false} RunRendersOnly(r: RenderableBase, events: seq<Event>)
    requires forall i :: 0 <= i < |events| ==> events[i].RenderEvent?
    ensures Run(r, events).0 == r
    ensures !r.IsVisible() ==> Run(r, events).1 == []
    ensures r.IsVisible() ==> Run(r, events).1 == Requested(events)
    decreases |events|
  {
    if events != [] {
      RunRendersOnly(r, events[1..]);
    }
  }

  /** The image element createRenderable builds: vector or raster, bound to its path. */
  datatype Resource = SvgImage(path: string) | RasterImage(path: string)

  /** createRenderable(path): dispatches on the lower-cased suffix; any other suffix gives null. */
  function CreateRenderable(path: string): (r: Option<Resource>)
    ensures r == Some(SvgImage(path)) <==> ToLower(Suffix(path)) == "svg"
    ensures r == Some(RasterImage(path)) <==> ToLower(Suffix(path)) == "png"
    ensures r == None <==> ToLower(Suffix(path)) != "svg" && ToLower(Suffix(path)) != "png"
  {
    var ext := ToLower(Suffix(path));
    if ext == "svg" then Some(SvgImage(path))
    else if ext == "png" then Some(RasterImage(path))
    else None
  }

  /** For a path ending in `.ext`, the element depends only on `ext`, in any letter case. */
  lemma ExtensionDispatch(p: string, ext: string)
    requires '.' !in ext && '/' !in ext
    ensures ToLower(ext) == "svg" ==> CreateRenderable(p + "." + ext) == Some(SvgImage(p + "." + ext))
    ensures ToLower(ext) == "png" ==> CreateRenderable(p + "." + ext) == Some(RasterImage(p + "." + ext))
    ensures ToLower(ext) != "svg" && ToLower(ext) != "png" ==> CreateRenderable(p + "." + ext) == None
  {
    SuffixOfExtension(p, ext);
  }

  /** A path ending in ".svg" or ".png" dispatches to the matching element. */
  lemma KnownExtensions(p: string)
    ensures CreateRenderable(p + ".svg") == Some(SvgImage(p + ".svg"))
    ensures CreateRenderable(p + ".png") == Some(RasterImage(p + ".png"))
  {
    assert p + ".svg" == p + "." + "svg";
    assert p + ".png" == p + "." + "png";
    assert ToLower("svg") == "svg";
    assert ToLower("png") == "png";
    SuffixOfExtension(p, "svg");
    SuffixOfExtension(p, "png");
  }

  /** The empty path has no suffix, so it makes no element. */
  lemma NoSuffix()
    ensures CreateRenderable("") == None
  {
    assert Suffix("") == "";
    assert ToLower("") == "";
  }
}
