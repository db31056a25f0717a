/** The sequential thumbnail loader of the gallery constructor: thumbnail k
    is requested, and only when its `onload` has placed it does the
    `item_rendered` event request thumbnail k+1; `complete` fires when the
    event names an index past the end of the catalog. */
module Loader {
  import opened Wrappers
  import opened Media
  import opened Grid

  /** How a requested thumbnail image turns out: it loads with a rendered
      width, or it never fires `onload`. */
  datatype Thumb = Loaded(width: nat) | Broken

  /** The observable steps of the loader, in the order they happen. */
  datatype Signal =
    | Requested(index: nat)     // renderItem called for catalog entry `index`
    | ItemRendered(next: nat)   // the item_rendered event, carrying the next index
    | Complete                  // the complete event

  /** The gallery after loading: its signals, the thumbnail table and the
      lightbox elements pushed so far. */
  datatype Gallery = Gallery(signals: seq<Signal>, layout: Layout, items: seq<Content>)

  /** The constructor reads `.thumb` of the missing first entry of an empty
      catalog and throws. */
  datatype InitError = EmptyCatalog

  /** The number of leading thumbnails that load. */
  function LoadedPrefix(thumbs: seq<Thumb>): (p: nat)
    ensures p <= |thumbs|
    ensures forall i :: 0 <= i < p ==> thumbs[i].Loaded?
    ensures p < |thumbs| ==> thumbs[p].Broken?
  {
    if thumbs == [] || thumbs[0].Broken? then 0 else 1 + LoadedPrefix(thumbs[1..])
  }

  function WidthOf(t: Thumb): nat
  {
    if t.Loaded? then t.width else 0
  }

  /** The cells of the first `p` thumbnails, in catalog order. */
  function Cells(thumbs: seq<Thumb>, p: nat): seq<Cell>
    requires p <= |thumbs|
  {
    seq(p, i requires 0 <= i < p => Cell(i, WidthOf(thumbs[i])))
  }

  /** The lightbox elements of the first `k` catalog entries. */
  function Items(cat: seq<Descriptor>, k: nat): seq<Content>
    requires k <= |cat|
  {
    seq(k, i requires 0 <= i < k => MediaItem(cat[i]))
  }

  /** The signal at position `j` of a run in which every request is answered. */
  function ExpectedSignal(j: nat): Signal
  {
    if j % 2 == 0 then Requested(j / 2) else ItemRendered(j / 2 + 1)
  }

  /** The signals of a run over `n` entries whose first `p` thumbnails load:
      request and event alternate in catalog order; the run ends with
      `complete` when every thumbnail loaded, and otherwise with the
      request of the thumbnail that never loads. */
  ghost predicate Protocol(signals: seq<Signal>, n: nat, p: nat)
  {
    && p <= n
    && |signals| == 2 * p + 1
    && (forall j :: 0 <= j < 2 * p ==> signals[j] == ExpectedSignal(j))
    && signals[2 * p] == (if p == n then Complete else Requested(p))
  }

  /** The synchronous part of `renderItem` for entry `k`: the request goes
      out and the entry's lightbox element is pushed. */
  function Request(g: Gallery, cat: seq<Descriptor>, k: nat): (r: Gallery)
    requires k < |cat|
    ensures r.layout == g.layout
    ensures |r.signals| == |g.signals| + 1 && r.signals[..|g.signals|] == g.signals
    ensures r.signals[|g.signals|] == Requested(k)
    ensures |r.items| == |g.items| + 1 && r.items[..|g.items|] == g.items
    ensures r.items[|g.items|] == MediaItem(cat[k])
  {
    g.(signals := g.signals + [Requested(k)], items := g.items + [MediaItem(cat[k])])
  }

  /** The `onload` handler of entry `k`: place the cell, fire `item_rendered`. */
  function OnLoad(g: Gallery, k: nat, w: nat, containerWidth: int): (r: Gallery)
    ensures Flatten(Table(r.layout)) == Flatten(Table(g.layout)) + [Cell(k, w)]
    ensures r.items == g.items
    ensures r.signals == g.signals + [ItemRendered(k + 1)]
  {
    g.(layout := Insert(g.layout, Cell(k, w), containerWidth),
       signals := g.signals + [ItemRendered(k + 1)])
  }

  /** `renderItem` for entry `k` followed by everything its `onload` and the
      `item_rendered` handler trigger. */
  function RenderItem(cat: seq<Descriptor>, thumbs: seq<Thumb>, containerWidth: int, k: nat, g: Gallery): (r: Gallery)
    requires k < |cat| == |thumbs|
    ensures g.signals + [Requested(k)] <= r.signals
    ensures g.items + [MediaItem(cat[k])] <= r.items
    decreases |cat| - k
  {
    var requested := Request(g, cat, k);
    match thumbs[k]
    case Broken => requested
    case Loaded(w) =>
      var placed := OnLoad(requested, k, w, containerWidth);
      if k + 1 < |cat| then RenderItem(cat, thumbs, containerWidth, k + 1, placed)
      else placed.(signals := placed.signals + [Complete])
  }

  /** What the gallery looks like just before entry `k` is requested. */
  ghost predicate ReadyFor(cat: seq<Descriptor>, thumbs: seq<Thumb>, containerWidth: int, k: nat, g: Gallery)
    requires k <= |cat| == |thumbs|
  {
    && (forall i :: 0 <= i < k ==> thumbs[i].Loaded?)
    && |g.signals| == 2 * k
    && (forall j :: 0 <= j < 2 * k ==> g.signals[j] == ExpectedSignal(j))
    && g.layout == Pack(Cells(thumbs, k), containerWidth)
    && g.items == Items(cat, k)
  }

  lemma RequestedShape(cat: seq<Descriptor>, thumbs: seq<Thumb>, containerWidth: int, k: nat, g: Gallery)
    requires k < |cat| == |thumbs|
    requires ReadyFor(cat, thumbs, containerWidth, k, g)
    ensures var q := Request(g, cat, k);
      && |q.signals| == 2 * k + 1
      && (forall j :: 0 <= j < 2 * k ==> q.signals[j] == ExpectedSignal(j))
      && q.signals[2 * k] == Requested(k)
      && q.items == Items(cat, k + 1)
      && q.layout == g.layout
  {
    var q := Request(g, cat, k);
    assert q.signals == g.signals + [Requested(k)];
    forall j | 0 <= j < 2 * k
      ensures q.signals[j] == ExpectedSignal(j)
    {
      assert q.signals[j] == g.signals[j];
    }
    ItemsStep(cat, k);
  }

  lemma ExpectedPair(k: nat)
    ensures ExpectedSignal(2 * k) == Requested(k)
    ensures ExpectedSignal(2 * k + 1) == ItemRendered(k + 1)
  {
  }

  lemma CellsStep(thumbs: seq<Thumb>, k: nat, containerWidth: int)
    requires k < |thumbs| && thumbs[k].Loaded?
    ensures Pack(Cells(thumbs, k + 1), containerWidth)
         == Insert(Pack(Cells(thumbs, k), containerWidth), Cell(k, thumbs[k].width), containerWidth)
  {
    var cs := Cells(thumbs, k + 1);
    assert cs[..k] == Cells(thumbs, k);
    assert cs[k] == Cell(k, thumbs[k].width);
  }

  lemma SignalsStep(before: seq<Signal>, k: nat)
    requires |before| == 2 * k
    requires forall j :: 0 <= j < 2 * k ==> before[j] == ExpectedSignal(j)
    ensures var after := before + [Requested(k), ItemRendered(k + 1)];
      forall j :: 0 <= j < 2 * (k + 1) ==> after[j] == ExpectedSignal(j)
  {
    ExpectedPair(k);
  }

  lemma LoadedReady(cat: seq<Descriptor>, thumbs: seq<Thumb>, containerWidth: int, k: nat, g: Gallery)
    requires k < |cat| == |thumbs| && thumbs[k].Loaded?
    requires ReadyFor(cat, thumbs, containerWidth, k, g)
    ensures ReadyFor(cat, thumbs, containerWidth, k + 1, OnLoad(Request(g, cat, k), k, thumbs[k].width, containerWidth))
  {
    var w := thumbs[k].width;
    LoadedSignals(g, cat, k, w, containerWidth);
    LoadedLayout(g, cat, thumbs, k, containerWidth);
    LoadedItems(g, cat, k, w, containerWidth);
  }

  lemma LoadedSignals(g: Gallery, cat: seq<Descriptor>, k: nat, w: nat, containerWidth: int)
    requires k < |cat|
    requires |g.signals| == 2 * k
    requires forall j :: 0 <= j < 2 * k ==> g.signals[j] == ExpectedSignal(j)
    ensures var after := OnLoad(Request(g, cat, k), k, w, containerWidth).signals;
      && |after| == 2 * (k + 1)
      && forall j :: 0 <= j < 2 * (k + 1) ==> after[j] == ExpectedSignal(j)
  {
    assert OnLoad(Request(g, cat, k), k, w, containerWidth).signals
        == g.signals + [Requested(k), ItemRendered(k + 1)];
    SignalsStep(g.signals, k);
  }

  lemma LoadedLayout(g: Gallery, cat: seq<Descriptor>, thumbs: seq<Thumb>, k: nat, containerWidth: int)
    requires k < |cat| && k < |thumbs| && thumbs[k].Loaded?
    requires g.layout == Pack(Cells(thumbs, k), containerWidth)
    ensures OnLoad(Request(g, cat, k), k, thumbs[k].width, containerWidth).layout
         == Pack(Cells(thumbs, k + 1), containerWidth)
  {
    LayoutStep(thumbs, k, containerWidth, g.layout);
  }

  lemma LoadedItems(g: Gallery, cat: seq<Descriptor>, k: nat, w: nat, containerWidth: int)
    requires k < |cat| && g.items == Items(cat, k)
    ensures OnLoad(Request(g, cat, k), k, w, containerWidth).items == Items(cat, k + 1)
  {
    assert OnLoad(Request(g, cat, k), k, w, containerWidth).items == g.items + [MediaItem(cat[k])];
    ItemsStep(cat, k);
  }

  lemma LayoutStep(thumbs: seq<Thumb>, k: nat, containerWidth: int, layout: Layout)
    requires k < |thumbs| && thumbs[k].Loaded?
    requires layout == Pack(Cells(thumbs, k), containerWidth)
    ensures Insert(layout, Cell(k, thumbs[k].width), containerWidth) == Pack(Cells(thumbs, k + 1), containerWidth)
  {
    CellsStep(thumbs, k, containerWidth);
  }

  lemma ItemsStep(cat: seq<Descriptor>, k: nat)
    requires k < |cat|
    ensures Items(cat, k + 1) == Items(cat, k) + [MediaItem(cat[k])]
  {
    var a, b := Items(cat, k + 1), Items(cat, k) + [MediaItem(cat[k])];
    assert |a| == |b|;
    forall i | 0 <= i < |a|
      ensures a[i] == b[i]
    {
    }
  }

  /** A thumbnail that never loads ends the run right after its request. */
  lemma BrokenEnds(cat: seq<Descriptor>, thumbs: seq<Thumb>, containerWidth: int, k: nat, g: Gallery)
    requires k < |cat| == |thumbs| && thumbs[k].Broken?
    requires ReadyFor(cat, thumbs, containerWidth, k, g)
    ensures LoadedPrefix(thumbs) == k
    ensures var r := Request(g, cat, k);
      && Protocol(r.signals, |cat|, k)
      && r.layout == Pack(Cells(thumbs, k), containerWidth)
      && r.items == Items(cat, k + 1)
  {
    var r := Request(g, cat, k);
    ItemsStep(cat, k);
    assert r.signals[2 * k] == Requested(k);
  }

  /** After the last entry loads, `complete` closes the run. */
  lemma LastEnds(cat: seq<Descriptor>, thumbs: seq<Thumb>, containerWidth: int, g: Gallery)
    requires |cat| == |thumbs|
    requires ReadyFor(cat, thumbs, containerWidth, |cat|, g)
    ensures LoadedPrefix(thumbs) == |cat|
    ensures var r := g.(signals := g.signals + [Complete]);
      && Protocol(r.signals, |cat|, |cat|)
      && r.layout == Pack(Cells(thumbs, |cat|), containerWidth)
      && r.items == Items(cat, |cat|)
  {
    var r := g.(signals := g.signals + [Complete]);
    assert r.signals[2 * |cat|] == Complete;
    assert forall j :: 0 <= j < 2 * |cat| ==> r.signals[j] == g.signals[j];
  }

  lemma {:induction false} RenderItemRun(cat: seq<Descriptor>, thumbs: seq<Thumb>, containerWidth: int, k: nat, g: Gallery)
    requires k < |cat| == |thumbs|
    requires ReadyFor(cat, thumbs, containerWidth, k, g)
    ensures var r := RenderItem(cat, thumbs, containerWidth, k, g); var p := LoadedPrefix(thumbs);
      && Protocol(r.signals, |cat|, p)
      && r.layout == Pack(Cells(thumbs, p), containerWidth)
      && r.items == Items(cat, if p < |cat| then p + 1 else p)
    decreases |cat| - k
  {
    if thumbs[k].Broken? {
      BrokenEnds(cat, thumbs, containerWidth, k, g);
      assert RenderItem(cat, thumbs, containerWidth, k, g) == Request(g, cat, k);
    } else {
      LoadedReady(cat, thumbs, containerWidth, k, g);
      var placed := OnLoad(Request(g, cat, k), k, thumbs[k].width, containerWidth);
      if k + 1 < |cat| {
        assert RenderItem(cat, thumbs, containerWidth, k, g)
            == RenderItem(cat, thumbs, containerWidth, k + 1, placed);
        RenderItemRun(cat, thumbs, containerWidth, k + 1, placed);
      } else {
        assert RenderItem(cat, thumbs, containerWidth, k, g)
            == placed.(signals := placed.signals + [Complete]);
        LastEnds(cat, thumbs, containerWidth, placed);
      }
    }
  }

  /** The gallery constructor: an empty catalog throws; otherwise the first
      entry is requested and the chain runs until the catalog is exhausted
      or a thumbnail never loads. */
  function Initialize(cat: seq<Descriptor>, thumbs: seq<Thumb>, containerWidth: int): (r: Result<Gallery, InitError>)
    requires |thumbs| == |cat|
    ensures r.Failure? <==> cat == []
    ensures r.Success? ==>
      var p := LoadedPrefix(thumbs);
      && Protocol(r.value.signals, |cat|, p)
      && r.value.layout == Pack(Cells(thumbs, p), containerWidth)
      && r.value.items == Items(cat, if p < |cat| then p + 1 else p)
  {
    if cat == [] then Failure(EmptyCatalog)
    else
      var g := Gallery([], Initial, []);
      assert Cells(thumbs, 0) == [];
      assert ReadyFor(cat, thumbs, containerWidth, 0, g);
      RenderItemRun(cat, thumbs, containerWidth, 0, g);
      Success(RenderItem(cat, thumbs, containerWidth, 0, g))
  }

  /** `complete` fires exactly when every thumbnail loaded, and then only
      once, as the very last signal. */
  lemma CompleteOnceAtEnd(signals: seq<Signal>, n: nat, p: nat)
    requires Protocol(signals, n, p)
    ensures Complete in signals <==> p == n
    ensures forall j :: 0 <= j < |signals| && signals[j] == Complete ==> j == |signals| - 1
  {
    forall j | 0 <= j < 2 * p
      ensures signals[j] != Complete
    {
      assert signals[j] == ExpectedSignal(j);
    }
  }

  /** Entry 0 is requested only by the constructor, and entry k > 0 only
      right after the `item_rendered` event of entry k-1. */
  lemma RequestFollowsRendered(signals: seq<Signal>, n: nat, p: nat)
    requires Protocol(signals, n, p)
    ensures forall j :: 0 <= j < |signals| && signals[j] == Requested(0) ==> j == 0
    ensures forall j, k :: 0 < j < |signals| && signals[j] == Requested(k) ==>
      k > 0 && signals[j - 1] == ItemRendered(k)
  {
    forall j, k | 0 < j < |signals| && signals[j] == Requested(k)
      ensures k > 0 && signals[j - 1] == ItemRendered(k)
    {
      assert signals[j - 1] == ExpectedSignal(j - 1);
      if j < 2 * p {
        assert signals[j] == ExpectedSignal(j);
      }
    }
    forall j | 0 <= j < |signals| && signals[j] == Requested(0)
      ensures j == 0
    {
      if j < 2 * p {
        assert signals[j] == ExpectedSignal(j);
      }
    }
  }

  /** Thumbnails enter the table in catalog order, each in exactly one cell,
      whatever their widths. */
  lemma PlacementOrder(cat: seq<Descriptor>, thumbs: seq<Thumb>, containerWidth: int)
    requires |thumbs| == |cat| && cat != []
    ensures var g := Initialize(cat, thumbs, containerWidth).value;
      var cells := Flatten(Table(g.layout));
      && |cells| == LoadedPrefix(thumbs)
      && forall i :: 0 <= i < |cells| ==> cells[i].index == i && cells[i].width == thumbs[i].width
  {
  }

  // ---------------------------------------------------------------------
  // The next index as the source computes it: `indexOf(item_opt) + 1`.
  // JavaScript's indexOf compares object identities, modelled here as a
  // list `refs` of identities, one per catalog position.

  /** `Array.prototype.indexOf`: the first position holding `ref`, or -1. */
  function IndexOf(refs: seq<nat>, ref: nat): (i: int)
    ensures -1 <= i < |refs|
    ensures i >= 0 ==> refs[i] == ref && forall j :: 0 <= j < i ==> refs[j] != ref
    ensures i == -1 ==> ref !in refs
  {
    if refs == [] then -1
    else if refs[0] == ref then 0
    else
      var i := IndexOf(refs[1..], ref);
      if i < 0 then -1 else i + 1
  }

  ghost predicate Distinct(refs: seq<nat>)
  {
    forall i, j :: 0 <= i < j < |refs| ==> refs[i] != refs[j]
  }

  /** The index the `item_rendered` event carries after entry `k` loads. */
  function NextIndexAsWritten(refs: seq<nat>, k: nat): (next: int)
    requires k < |refs|
    ensures 1 <= next <= k + 1
  {
    IndexOf(refs, refs[k]) + 1
  }

  lemma NextIndexDistinct(refs: seq<nat>, k: nat)
    requires k < |refs| && Distinct(refs)
    ensures NextIndexAsWritten(refs, k) == k + 1
  {
  }

  /** The requests of the as-written chain when every thumbnail loads,
      followed for at most `fuel` events. */
  datatype Run = Run(requested: seq<nat>, completed: bool)

  function RequestsAsWritten(refs: seq<nat>, k: nat, fuel: nat): (r: Run)
    requires k < |refs|
    ensures |r.requested| >= 1 && r.requested[0] == k
    decreases fuel
  {
    var next := NextIndexAsWritten(refs, k);
    if next >= |refs| then Run([k], true)
    else if fuel == 0 then Run([k], false)
    else
      var rest := RequestsAsWritten(refs, next, fuel - 1);
      Run([k] + rest.requested, rest.completed)
  }

  /** With distinct entries the as-written chain requests 0, 1, ..., n-1
      and completes. */
  lemma {:induction false} AsWrittenDistinct(refs: seq<nat>, k: nat, fuel: nat)
    requires k < |refs| && Distinct(refs) && fuel >= |refs| - 1 - k
    ensures RequestsAsWritten(refs, k, fuel).completed
    ensures RequestsAsWritten(refs, k, fuel).requested == seq(|refs| - k, i => k + i)
    decreases fuel
  {
    NextIndexDistinct(refs, k);
    if k + 1 < |refs| {
      AsWrittenDistinct(refs, k + 1, fuel - 1);
      var rest := RequestsAsWritten(refs, k + 1, fuel - 1).requested;
      assert [k] + rest == seq(|refs| - k, i => k + i);
    }
  }

  /** A catalog holding the same object at positions 0 and 2: entry 2 reports
      index 1 as next, so entries 1 and 2 are requested in turn forever and
      `complete` never fires. */
  lemma {:induction false} DuplicateEntryNeverCompletes(fuel: nat)
    ensures RequestsAsWritten([7, 8, 7], 0, fuel).completed == false
    ensures fuel >= 3 ==>
      var r := RequestsAsWritten([7, 8, 7], 0, fuel).requested;
      |r| >= 4 && r[..4] == [0, 1, 2, 1]
  {
    var refs := [7, 8, 7];
    assert NextIndexAsWritten(refs, 0) == 1;
    assert NextIndexAsWritten(refs, 1) == 2;
    assert NextIndexAsWritten(refs, 2) == 1;
    if fuel > 0 {
      CycleNeverCompletes(refs, 1, fuel - 1);
    }
    if fuel >= 3 {
      var r1 := RequestsAsWritten(refs, 1, fuel - 1);
      var r2 := RequestsAsWritten(refs, 2, fuel - 2);
      var r3 := RequestsAsWritten(refs, 1, fuel - 3);
      assert r2.requested == [2] + r3.requested;
      assert r1.requested == [1] + r2.requested;
    }
  }

  lemma {:induction false} CycleNeverCompletes(refs: seq<nat>, k: nat, fuel: nat)
    requires refs == [7, 8, 7] && (k == 1 || k == 2)
    ensures !RequestsAsWritten(refs, k, fuel).completed
    decreases fuel
  {
    assert NextIndexAsWritten(refs, 1) == 2;
    assert NextIndexAsWritten(refs, 2) == 1;
    if fuel > 0 {
      CycleNeverCompletes(refs, 3 - k, fuel - 1);
    }
  }
}
