/** `hdm_api::layout_manager`: `LayoutManager::apply` splits a 1920x1080
    screen into equal vertical slots, one per tiling panel in list order,
    and centres every floating panel. The printed lines are the output. */
module LayoutManager {

  datatype Layout = Tiling | Floating

  datatype Panel = Panel(name: string, layout: Layout)

  /** `global_layout` is carried but `apply` never reads it. */
  datatype Manager = Manager(panels: seq<Panel>, globalLayout: Layout)

  datatype Rect = Rect(x: int, y: int, width: int, height: int)

  /** One printed line: a tiled panel's slot, or a floating panel centred. */
  datatype Placement = TiledAt(name: string, slot: Rect) | Centered(name: string)

  const ScreenWidth: nat := 1920
  const ScreenHeight: nat := 1080

  /** The panels with the given layout, in list order. */
  function WithLayout(ps: seq<Panel>, l: Layout): (r: seq<Panel>)
    ensures |r| <= |ps|
    ensures forall i :: 0 <= i < |r| ==> r[i].layout == l
  {
    if ps == [] then []
    else
      var rest := WithLayout(ps[1..], l);
      if ps[0].layout == l then [ps[0]] + rest else rest
  }

  /** The filtered list holds exactly the panels of that layout. */
  lemma {:induction false} WithLayoutMembers(ps: seq<Panel>, l: Layout, p: Panel)
    ensures p in WithLayout(ps, l) <==> p in ps && p.layout == l
  {
    if ps != [] {
      WithLayoutMembers(ps[1..], l, p);
      assert p in ps <==> p == ps[0] || p in ps[1..];
    }
  }

  /** Every panel is either tiling or floating. */
  lemma {:induction false} LayoutsPartition(ps: seq<Panel>)
    ensures |WithLayout(ps, Tiling)| + |WithLayout(ps, Floating)| == |ps|
  {
    if ps != [] {
      LayoutsPartition(ps[1..]);
    }
  }

  /** The slot of the `i`-th of `n` tiling panels: width `1920 / n` (u32
      division), x = `i * width`, the full height. */
  function Slot(i: nat, n: nat): (r: Rect)
    requires i < n
    ensures r.y == 0 && r.height == ScreenHeight && r.width == ScreenWidth / n
    ensures r.x == i * r.width
  {
    var w := ScreenWidth / n;
    Rect(i * w, 0, w, ScreenHeight)
  }

  /** Slots lie side by side in index order without overlap. */
  lemma SlotsDisjoint(i: nat, j: nat, n: nat)
    requires i < j < n
    ensures Slot(i, n).x + Slot(i, n).width <= Slot(j, n).x
  {
    var w := ScreenWidth / n;
    MulMonotone(i + 1, j, w);
    assert (i + 1) * w == i * w + w;
  }

  /** Every slot, including the only one of a single tiled panel, lies
      within the screen. */
  lemma SlotInScreen(i: nat, n: nat)
    requires i < n
    ensures 0 <= Slot(i, n).x && Slot(i, n).x + Slot(i, n).width <= ScreenWidth
    ensures Slot(i, n).y + Slot(i, n).height == ScreenHeight
  {
    var w := ScreenWidth / n;
    assert n * w + ScreenWidth % n == ScreenWidth;
    MulMonotone(i + 1, n, w);
    assert (i + 1) * w == i * w + w;
  }

  /** The last slot ends where the `1920 % n` undivided pixels begin; a
      single panel fills the whole width. */
  lemma LastSlotEnd(n: nat)
    requires n > 0
    ensures Slot(n - 1, n).x + Slot(n - 1, n).width == ScreenWidth - ScreenWidth % n
    ensures n == 1 ==> Slot(0, 1) == Rect(0, 0, ScreenWidth, ScreenHeight)
  {
    var w := ScreenWidth / n;
    assert n * w + ScreenWidth % n == ScreenWidth;
    assert (n - 1) * w + w == n * w;
  }

  lemma MulMonotone(a: nat, b: nat, w: nat)
    requires a <= b
    ensures a * w <= b * w
  {
    assert b * w == a * w + (b - a) * w;
  }

  /** Every slot of a non-empty tiling is at least one pixel wide while
      there are at most 1920 tiling panels. */
  lemma SlotsNonEmpty(i: nat, n: nat)
    requires i < n <= ScreenWidth
    ensures Slot(i, n).width >= 1
  {
  }

  /** `LayoutManager::apply`: first the tiling panels with their slots, in
      list order, then a `Centered` line for each floating panel. With no
      tiling panel the first loop does not run, so `1920 / 0` is never
      evaluated. */
  method Apply(m: Manager) returns (log: seq<Placement>)
    ensures var tiles := WithLayout(m.panels, Tiling);
            var floats := WithLayout(m.panels, Floating);
      && |log| == |tiles| + |floats| == |m.panels|
      && (forall k :: 0 <= k < |tiles| ==> log[k] == TiledAt(tiles[k].name, Slot(k, |tiles|)))
      && (forall k :: |tiles| <= k < |log| ==> log[k] == Centered(floats[k - |tiles|].name))
  {
    var tiles := WithLayout(m.panels, Tiling);
    var tiled := TileAll(tiles);
    var centred := CentreFloating(m.panels);
    log := tiled + centred;
    LayoutsPartition(m.panels);
  }

  /** The first loop of `apply`: slot `i` of `|tiles|` for the `i`-th panel. */
  method TileAll(tiles: seq<Panel>) returns (log: seq<Placement>)
    ensures |log| == |tiles|
    ensures forall k :: 0 <= k < |tiles| ==> log[k] == TiledAt(tiles[k].name, Slot(k, |tiles|))
  {
    var num := |tiles|;
    log := [];
    var i := 0;
    while i < num
      invariant 0 <= i <= num
      invariant |log| == i
      invariant forall k :: 0 <= k < i ==> log[k] == TiledAt(tiles[k].name, Slot(k, num))
    {
      var width := ScreenWidth / num;
      log := log + [TiledAt(tiles[i].name, Rect(i * width, 0, width, ScreenHeight))];
      i := i + 1;
    }
  }

  /** The second loop of `apply`: the floating panels, in list order. */
  method CentreFloating(ps: seq<Panel>) returns (log: seq<Placement>)
    ensures var floats := WithLayout(ps, Floating);
      |log| == |floats| && forall k :: 0 <= k < |log| ==> log[k] == Centered(floats[k].name)
  {
    log := [];
    ghost var seen: seq<Panel> := [];
    var j := 0;
    while j < |ps|
      invariant 0 <= j <= |ps|
      invariant seen == WithLayout(ps[..j], Floating)
      invariant |log| == |seen|
      invariant forall k :: 0 <= k < |log| ==> log[k] == Centered(seen[k].name)
    {
      var p := ps[j];
      assert ps[..j + 1] == ps[..j] + [p];
      WithLayoutSnoc(ps[..j], p, Floating);
      if p.layout == Floating {
        log := log + [Centered(p.name)];
        seen := seen + [p];
      }
      j := j + 1;
    }
    assert ps[..j] == ps;
  }

  /** Filtering extends by one panel at the end of the list. */
  lemma {:induction false} WithLayoutSnoc(ps: seq<Panel>, p: Panel, l: Layout)
    ensures WithLayout(ps + [p], l) == WithLayout(ps, l) + (if p.layout == l then [p] else [])
  {
    if ps != [] {
      assert (ps + [p])[1..] == ps[1..] + [p];
      WithLayoutSnoc(ps[1..], p, l);
    } else {
      assert ps + [p] == [p];
    }
  }
}
