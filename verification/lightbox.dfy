/** The lightbox's navigation: one index into the media elements, moved by
    clicks on the left or right half of the lightbox, by swipes and by the
    navigation bullets, together with the counter text, the bullets and the
    arrows shown on hover. */
module Lightbox {
  import opened Wrappers
  import Decimal

  /** Whether the previous and next arrows are visible. */
  datatype Arrows = Arrows(prev: bool, next: bool)

  const Hidden := Arrows(false, false)

  /** The open lightbox: the shown `index` among the `count` media elements
      (the gallery's `items`), and the arrows. */
  datatype Viewer = Viewer(index: nat, count: nat, arrows: Arrows)

  /** The `show_bullets` option, and whether swipe gestures are listened to
      (`support_mobile` on a touch device running iOS or Android). */
  datatype Options = Options(showBullets: bool, gestures: bool)

  datatype Half = LeftHalf | RightHalf

  /** Which half of the lightbox box `[left, left + width)` the pointer
      abscissa `x` is in: the left half when `x < left + width / 2`, with
      the division exact as in JavaScript. */
  function HalfAt(x: int, left: int, width: int): Half
  {
    if 2 * x < 2 * left + width then LeftHalf else RightHalf
  }

  datatype Input =
    | Click(onLink: bool, x: int, left: int, width: int)   // click on the lightbox; onLink when its target is an `a`
    | Hover(x: int, left: int, width: int)                 // mouseover
    | Leave                                                // mouseleave
    | Swipe(direction: string)                             // swipe gesture on the page body
    | BulletClick(i: nat, x: int, left: int, width: int)   // click on the i-th navigation bullet

  ghost predicate Valid(v: Viewer)
  {
    v.index < v.count
  }

  /** No arrow points past an end of the media list. */
  ghost predicate ArrowsSound(v: Viewer)
  {
    && (v.arrows.prev ==> v.index != 0)
    && (v.arrows.next ==> v.index != v.count - 1)
  }

  /** The lightbox opened on the element at `k`; its arrows start hidden. */
  function Open(k: nat, count: nat): (v: Viewer)
    requires k < count
    ensures Valid(v) && ArrowsSound(v) && v.index == k && v.count == count
    ensures v.arrows == Hidden
  {
    Viewer(k, count, Hidden)
  }

  /** `changeItem`: the index is set and the content, arrows included, is
      rebuilt with the arrows transparent. */
  function ChangeItem(v: Viewer, i: nat): (r: Viewer)
    ensures r.index == i && r.count == v.count
    ensures ArrowsSound(r)
    ensures i < v.count ==> Valid(r)
  {
    v.(index := i, arrows := Hidden)
  }

  function Previous(v: Viewer): Viewer
  {
    if v.index == 0 then v else ChangeItem(v, v.index - 1)
  }

  function Next(v: Viewer): Viewer
  {
    if v.index == v.count - 1 then v else ChangeItem(v, v.index + 1)
  }

  /** A click that reaches the lightbox's click handler without a link as
      its target: one step toward the clicked half, none past an end. */
  function HalfClick(v: Viewer, x: int, left: int, width: int): (r: Viewer)
    ensures r.count == v.count
    ensures v.index < v.count ==>
      r.index == Clamp(v.index + (if HalfAt(x, left, width) == LeftHalf then -1 else 1), v.count)
  {
    if HalfAt(x, left, width) == LeftHalf then Previous(v) else Next(v)
  }

  /** A navigation bullet: the selected one has no click handler of its own,
      so a click on it bubbles up to the lightbox; every other one stops the
      click there and jumps to its target. */
  datatype Bullet = Selected | Jump(target: nat)

  /** The bullet row `renderNavigation` builds, one bullet per media element. */
  function Bullets(v: Viewer, opts: Options): (bs: seq<Bullet>)
    ensures |bs| == if opts.showBullets then v.count else 0
    ensures forall i :: 0 <= i < |bs| ==> (bs[i] == Selected <==> i == v.index)
    ensures forall i :: 0 <= i < |bs| && bs[i].Jump? ==> bs[i].target == i
  {
    if opts.showBullets then
      seq(v.count, i requires 0 <= i < v.count => if i == v.index then Selected else Jump(i))
    else []
  }

  /** The mouseover handler: the arrow of the other half is hidden and the
      arrow of this half shown unless the index is at that end. */
  function HoverArrows(v: Viewer, h: Half): (a: Arrows)
    ensures h == LeftHalf ==> !a.next && (a.prev <==> v.arrows.prev || v.index != 0)
    ensures h == RightHalf ==> !a.prev && (a.next <==> v.arrows.next || v.index != v.count - 1)
    ensures ArrowsSound(v) ==> ArrowsSound(v.(arrows := a))
  {
    match h
    case LeftHalf =>
      var a := v.arrows.(next := false);
      if v.index == 0 then a else a.(prev := true)
    case RightHalf =>
      var a := v.arrows.(prev := false);
      if v.index == v.count - 1 then a else a.(next := true)
  }

  /** One input to the open lightbox. */
  function Step(v: Viewer, input: Input, opts: Options): (r: Viewer)
    requires Valid(v)
    ensures Valid(r) && r.count == v.count
    ensures ArrowsSound(v) ==> ArrowsSound(r)
    ensures (input.BulletClick? && input.i != v.index) || r.index == v.index || r.index == v.index + 1 || r.index + 1 == v.index
    ensures input.BulletClick? && input.i != v.index ==> r.index == v.index || r.index == input.i
  {
    match input
    case Click(onLink, x, left, width) =>
      if onLink then v else HalfClick(v, x, left, width)
    case Hover(x, left, width) =>
      v.(arrows := HoverArrows(v, HalfAt(x, left, width)))
    case Leave =>
      v.(arrows := Hidden)
    case Swipe(direction) =>
      if !opts.gestures then v
      else if direction == "left" then Next(v)
      else Previous(v)
    case BulletClick(i, x, left, width) =>
      var bs := Bullets(v, opts);
      if i >= |bs| then v
      else match bs[i]
        case Jump(target) => ChangeItem(v, target)
        case Selected => HalfClick(v, x, left, width)
  }

  /** A sequence of inputs. */
  function Navigate(v: Viewer, inputs: seq<Input>, opts: Options): (r: Viewer)
    requires Valid(v)
    ensures Valid(r) && r.count == v.count
    ensures ArrowsSound(v) ==> ArrowsSound(r)
    decreases |inputs|
  {
    if inputs == [] then v else Navigate(Step(v, inputs[0], opts), inputs[1..], opts)
  }

  /** `index + delta` kept within `[0, count)`. */
  function Clamp(x: int, count: nat): int
    requires count > 0
  {
    if x < 0 then 0 else if x >= count then count - 1 else x
  }

  /** A click off any link moves one step toward the clicked half, and stops
      at the ends. */
  lemma ClickMovesOneStep(v: Viewer, x: int, left: int, width: int, opts: Options)
    requires Valid(v)
    ensures var delta := if 2 * x < 2 * left + width then -1 else 1;
      Step(v, Click(false, x, left, width), opts).index == Clamp(v.index + delta, v.count)
  {
  }

  /** A click whose target is a link is left to the link. */
  lemma LinkClickIgnored(v: Viewer, x: int, left: int, width: int, opts: Options)
    requires Valid(v)
    ensures Step(v, Click(true, x, left, width), opts) == v
  {
  }

  /** A swipe to the left does what a click on the right half does, and any
      other swipe what a click on the left half does. */
  lemma SwipeMatchesClick(v: Viewer, direction: string, x: int, left: int, width: int, opts: Options)
    requires Valid(v) && opts.gestures
    requires direction == "left" <==> HalfAt(x, left, width) == RightHalf
    ensures Step(v, Swipe(direction), opts) == Step(v, Click(false, x, left, width), opts)
  {
  }

  /** Without gesture support a swipe changes nothing. */
  lemma SwipeIgnoredWithoutGestures(v: Viewer, direction: string, opts: Options)
    requires Valid(v) && !opts.gestures
    ensures Step(v, Swipe(direction), opts) == v
  {
  }

  /** Exactly one bullet, the current one, is selected; every other bullet
      takes the lightbox to exactly its own index, wherever it is clicked. */
  lemma BulletsNavigate(v: Viewer, opts: Options)
    requires Valid(v) && opts.showBullets
    ensures var bs := Bullets(v, opts);
      && |bs| == v.count
      && bs[v.index] == Selected
      && (forall i :: 0 <= i < |bs| && i != v.index ==> bs[i] == Jump(i))
      && (forall i, x, left, width :: 0 <= i < v.count && i != v.index ==>
            Step(v, BulletClick(i, x, left, width), opts).index == i)
  {
  }

  /** The selected bullet stops nothing: a click on it is a click on the
      lightbox at the same place, so it moves one step toward that half. */
  lemma SelectedBulletActsAsClick(v: Viewer, x: int, left: int, width: int, opts: Options)
    requires Valid(v) && opts.showBullets
    ensures Step(v, BulletClick(v.index, x, left, width), opts) == Step(v, Click(false, x, left, width), opts)
    ensures var delta := if 2 * x < 2 * left + width then -1 else 1;
      Step(v, BulletClick(v.index, x, left, width), opts).index == Clamp(v.index + delta, v.count)
  {
  }

  /** Without bullets, or past the last one, a bullet click changes nothing. */
  lemma NoBulletNoChange(v: Viewer, i: nat, x: int, left: int, width: int, opts: Options)
    requires Valid(v) && (!opts.showBullets || i >= v.count)
    ensures Step(v, BulletClick(i, x, left, width), opts) == v
  {
  }

  /** Hovering over a half shows exactly that half's arrow, unless the index
      is at that end, and hides the other one. */
  lemma HoverShowsOneArrow(v: Viewer, x: int, left: int, width: int, opts: Options)
    requires Valid(v) && ArrowsSound(v)
    ensures var a := Step(v, Hover(x, left, width), opts).arrows;
      if 2 * x < 2 * left + width then a == Arrows(v.index != 0, false)
      else a == Arrows(false, v.index != v.count - 1)
  {
  }

  /** The index reached by any inputs stays among the media elements, and no
      arrow ever points past an end. */
  lemma NavigationStaysInRange(k: nat, count: nat, inputs: seq<Input>, opts: Options)
    requires k < count
    ensures var r := Navigate(Open(k, count), inputs, opts);
      0 <= r.index < count && ArrowsSound(r)
  {
  }

  /** Three media, opened on the first: previous does nothing, two nexts
      reach the last and a third next does nothing. */
  lemma ThreeItemScenario(opts: Options)
    ensures var v := Open(0, 3);
      var prev, next := Click(false, 0, 0, 100), Click(false, 99, 0, 100);
      && Step(v, prev, opts).index == 0
      && Navigate(v, [next, next], opts).index == 2
      && Navigate(v, [next, next, next], opts).index == 2
  {
    var v := Open(0, 3);
    var next := Click(false, 99, 0, 100);
    var v1 := Step(v, next, opts);
    var v2 := Step(v1, next, opts);
    var v3 := Step(v2, next, opts);
    assert v1.index == 1 && v2.index == 2 && v3.index == 2;
    NavigateCons(v2, next, [], opts);
    NavigateCons(v1, next, [next], opts);
    NavigateCons(v, next, [next], opts);
    NavigateCons(v1, next, [next, next], opts);
    NavigateCons(v, next, [next, next], opts);
  }

  /** Navigating through a first input and then the rest. */
  lemma NavigateCons(v: Viewer, a: Input, rest: seq<Input>, opts: Options)
    requires Valid(v)
    ensures Navigate(v, [a] + rest, opts) == Navigate(Step(v, a, opts), rest, opts)
  {
    assert ([a] + rest)[1..] == rest;
  }

  // The counter.

  /** The counter text: the one-based position, a slash, and the catalog
      length (which may exceed `count` while thumbnails are still loading). */
  function CounterText(index: nat, total: nat): (r: string)
    ensures var k := |Decimal.Show(index + 1)|;
      && k < |r| && r[k] == '/'
      && forall j :: 0 <= j < |r| && j != k ==> Decimal.IsDigit(r[j])
  {
    Decimal.Show(index + 1) + "/" + Decimal.Show(total)
  }

  /** The first position of `c` in `s`, if any. */
  function Find(s: string, c: char): (r: Option<nat>)
    ensures r.Some? ==> r.value < |s| && s[r.value] == c && c !in s[..r.value]
    ensures r.None? ==> c !in s
  {
    if s == [] then None
    else if s[0] == c then Some(0)
    else match Find(s[1..], c)
      case None => None
      case Some(i) => assert s[..i + 1] == [s[0]] + s[1..][..i]; Some(i + 1)
  }

  function ReadDigits(s: string): Option<nat>
  {
    if |s| > 0 && forall i :: 0 <= i < |s| ==> Decimal.IsDigit(s[i]) then Some(Decimal.Read(s)) else None
  }

  /** Reads a counter text back into its position and total. */
  function ParseCounter(s: string): Option<(nat, nat)>
  {
    match Find(s, '/')
    case None => None
    case Some(k) =>
      match (ReadDigits(s[..k]), ReadDigits(s[k + 1..]))
      case (Some(pos), Some(total)) => Some((pos, total))
      case _ => None
  }

  /** The counter shows the one-based position and the total, and can be
      read back into them. */
  lemma {:induction false} CounterRoundTrip(index: nat, total: nat)
    ensures ParseCounter(CounterText(index, total)) == Some((index + 1, total))
  {
    var a, b := Decimal.Show(index + 1), Decimal.Show(total);
    var s := CounterText(index, total);
    assert s[|a|] == '/';
    assert s[..|a|] == a;
    assert Find(s, '/') == Some(|a|);
    assert s[|a| + 1..] == b;
    Decimal.ReadShow(index + 1);
    Decimal.ReadShow(total);
  }
}
