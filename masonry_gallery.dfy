/**
  The per-item state machine of the `MasonryGallery` component
  (`src/components/MasonryGallery.tsx`).

  The component keeps three state cells (`hoveredIndex`, `loadedImages`,
  `visibleImages`) and one mutable ref (`timerRef`). Browser callbacks are
  events: a mouse entering or leaving an item, the dismissal timer firing,
  an image or video reporting that it has loaded, the IntersectionObserver
  reporting entries, a click, and the unmount cleanup. Time is abstract:
  `setTimeout` hands out a fresh handle and arms it, `clearTimeout` disarms
  it, and the timer event fires one armed handle.

  `GalleryState` and `Step` are the specification; the class `Gallery` has
  the component's fields and one method per handler, each proved to move
  its fields exactly as `Step` moves the state.
*/
module MasonryGallery {

  import opened Options

  // ---------------------------------------------------------------------
  // The items the component is given

  datatype MediaType = ImageType | VideoType

  /** The fields of `GalleryItem` the component reads. */
  datatype GalleryItem = GalleryItem(
    mediaType: Option<MediaType>,
    src: string,
    videoSrc: Option<string>,
    alt: string,
    photographer: Option<string>,
    client: Option<string>)

  /** `image.type === "video"`; an item without a type is an image. */
  predicate IsVideo(item: GalleryItem)
  {
    item.mediaType == Some(VideoType)
  }

  /** JavaScript truthiness of an optional string: present and non-empty. */
  predicate Truthy(s: Option<string>)
  {
    s.Some? && s.value != ""
  }

  /**
    The `poster` attribute of a video: its `src` when that is non-empty,
    otherwise `undefined`.
  */
  function Poster(item: GalleryItem): (poster: Option<string>)
    ensures poster.Some? <==> item.src != ""
    ensures poster.Some? ==> poster.value == item.src
  {
    if item.src != "" then Some(item.src) else None
  }

  /** `image.photographer && image.client`: the caption element is rendered at all. */
  predicate HasCaption(item: GalleryItem)
  {
    Truthy(item.photographer) && Truthy(item.client)
  }

  /** `videoRefs.current[index]` holds a video element exactly when item `index` is a video. */
  predicate HasVideo(items: seq<GalleryItem>, index: nat)
  {
    index < |items| && IsVideo(items[index])
  }

  // ---------------------------------------------------------------------
  // The state and the events

  /**
    `timerRef` is the handle the last `setTimeout` returned; `pending` are
    the handles that are armed; `nextTimer` is the handle the next
    `setTimeout` returns (handles are positive, so always truthy).
  */
  datatype GalleryState = GalleryState(
    hoveredIndex: Option<nat>,
    timerRef: Option<nat>,
    pending: set<nat>,
    nextTimer: nat,
    loadedImages: set<nat>,
    visibleImages: set<nat>,
    mounted: bool)

  datatype Event =
    | Hover(index: nat)
    | Leave(index: nat)
    | TimerFire(handle: nat)
    | Load(index: nat)
    | Intersect(index: nat, isIntersecting: bool)
    | Click(index: nat)
    | Unmount

  /** The state of a freshly mounted gallery. */
  function Initial(): (s: GalleryState)
  {
    GalleryState(None, None, {}, 1, {}, {}, true)
  }

  /** `if (timerRef.current) clearTimeout(timerRef.current)`. */
  function ClearCurrent(s: GalleryState): (pending: set<nat>)
  {
    if s.timerRef.Some? then s.pending - {s.timerRef.value} else s.pending
  }

  /**
    What one event does. An unmounted gallery receives no events, and
    only an armed timer fires; any other event leaves the state alone.
  */
  function Step(s: GalleryState, e: Event): (t: GalleryState)
    ensures !s.mounted ==> t == s
    ensures t.mounted ==> s.mounted
    ensures s.loadedImages <= t.loadedImages && s.visibleImages <= t.visibleImages
  {
    if !s.mounted then s
    else
      match e
      case Hover(i) =>
        s.(hoveredIndex := Some(i), timerRef := Some(s.nextTimer),
           pending := ClearCurrent(s) + {s.nextTimer}, nextTimer := s.nextTimer + 1)
      case Leave(_) => s
      case TimerFire(h) =>
        if h in s.pending then s.(hoveredIndex := None, pending := s.pending - {h}) else s
      case Load(i) => s.(loadedImages := s.loadedImages + {i})
      case Intersect(i, isIntersecting) =>
        if isIntersecting then s.(visibleImages := s.visibleImages + {i}) else s
      case Click(_) => s
      case Unmount => s.(pending := ClearCurrent(s), mounted := false)
  }

  /** The state after a sequence of events. */
  function Run(s: GalleryState, events: seq<Event>): GalleryState
    decreases |events|
  {
    if events == [] then s else Run(Step(s, events[0]), events[1..])
  }

  /**
    The timer discipline: every armed handle is the one `timerRef` holds,
    handles are fresh, and nothing is armed after unmounting.
  */
  ghost predicate Inv(s: GalleryState)
  {
    && (forall h :: h in s.pending ==> s.timerRef == Some(h))
    && 0 < s.nextTimer
    && (s.timerRef.Some? ==> 0 < s.timerRef.value < s.nextTimer)
    && (!s.mounted ==> s.pending == {})
  }

  // ---------------------------------------------------------------------
  // Derived per-item display

  /** `hoveredIndex !== null && hoveredIndex !== index`: the grayscale class. */
  predicate Grayscale(s: GalleryState, index: nat)
  {
    s.hoveredIndex.Some? && s.hoveredIndex.value != index
  }

  /** The caption is rendered and animated to `visible` (`hoveredIndex === index`). */
  predicate CaptionVisible(s: GalleryState, items: seq<GalleryItem>, index: nat)
  {
    index < |items| && HasCaption(items[index]) && s.hoveredIndex == Some(index)
  }

  /** The inline opacity of an image: 1 once loaded, 0 before. */
  function Opacity(s: GalleryState, index: nat): (opacity: nat)
    ensures opacity <= 1
    ensures opacity == 1 <==> index in s.loadedImages
  {
    if index in s.loadedImages then 1 else 0
  }

  /** The `show` class of an image's `<picture>`. */
  predicate Shown(s: GalleryState, index: nat)
  {
    index in s.loadedImages
  }

  /** What the observer callback asks of an item's video element. */
  datatype MediaCommand = Play(index: nat) | Pause(index: nat) | NoCommand

  /** One IntersectionObserver entry, by the `data-index` of its target. */
  datatype ObserverEntry = ObserverEntry(index: nat, isIntersecting: bool)

  function Command(items: seq<GalleryItem>, entry: ObserverEntry): (c: MediaCommand)
    ensures c.Play? <==> HasVideo(items, entry.index) && entry.isIntersecting
    ensures c.Pause? <==> HasVideo(items, entry.index) && !entry.isIntersecting
    ensures c != NoCommand ==> c.index == entry.index
  {
    if !HasVideo(items, entry.index) then NoCommand
    else if entry.isIntersecting then Play(entry.index)
    else Pause(entry.index)
  }

  /** The indices of the entries that report an intersection. */
  function IntersectingIndices(entries: seq<ObserverEntry>): (r: set<nat>)
  {
    if entries == [] then {}
    else
      var last := entries[|entries| - 1];
      IntersectingIndices(entries[..|entries| - 1]) + (if last.isIntersecting then {last.index} else {})
  }

  /** The indices collected are exactly those of the entries that report an intersection. */
  lemma {:induction false} IntersectingIndicesMembers(entries: seq<ObserverEntry>, i: nat)
    ensures i in IntersectingIndices(entries) <==> exists k :: 0 <= k < |entries| && entries[k].index == i && entries[k].isIntersecting
  {
    if entries != [] {
      var p := entries[..|entries| - 1];
      IntersectingIndicesMembers(p, i);
      assert forall k :: 0 <= k < |p| ==> entries[k] == p[k];
    }
  }

  /** The events one observer callback amounts to, in entry order. */
  function IntersectEvents(entries: seq<ObserverEntry>): (events: seq<Event>)
    ensures |events| == |entries|
    ensures forall k :: 0 <= k < |entries| ==> events[k] == Intersect(entries[k].index, entries[k].isIntersecting)
  {
    seq(|entries|, k requires 0 <= k < |entries| => Intersect(entries[k].index, entries[k].isIntersecting))
  }

  // ---------------------------------------------------------------------
  // Properties of the specification

  lemma InitialInv()
    ensures Inv(Initial())
    ensures Initial().hoveredIndex.None? && Initial().pending == {}
  {
  }

  /** Every event keeps the timer discipline. */
  lemma StepInv(s: GalleryState, e: Event)
    requires Inv(s)
    ensures Inv(Step(s, e))
  {
    if s.mounted && (e.Hover? || e.Unmount?) {
      assert forall h :: h in ClearCurrent(s) ==> false;
    }
  }

  lemma {:induction false} RunInv(s: GalleryState, events: seq<Event>)
    requires Inv(s)
    ensures Inv(Run(s, events))
    decreases |events|
  {
    if events != [] {
      StepInv(s, events[0]);
      RunInv(Step(s, events[0]), events[1..]);
    }
  }

  /** At most one dismissal timer is ever armed, and it is the one `timerRef` holds. */
  lemma AtMostOneTimer(s: GalleryState)
    requires Inv(s)
    ensures s.pending == {} || (s.timerRef.Some? && s.pending == {s.timerRef.value})
    ensures |s.pending| <= 1
  {
    if s.pending != {} {
      var h :| h in s.pending;
      assert s.pending == {h};
    }
  }

  /**
    Hovering shows the hovered item and arms exactly one new timer,
    disarming the one armed before.
  */
  lemma HoverArmsOneTimer(s: GalleryState, i: nat)
    requires Inv(s) && s.mounted
    ensures Step(s, Hover(i)).hoveredIndex == Some(i)
    ensures Step(s, Hover(i)).pending == {s.nextTimer}
    ensures Step(s, Hover(i)).timerRef == Some(s.nextTimer)
    ensures s.nextTimer !in s.pending
  {
    AtMostOneTimer(s);
  }

  lemma RunTwo(s: GalleryState, e1: Event, e2: Event)
    ensures Run(s, [e1, e2]) == Step(Step(s, e1), e2)
  {
    assert [e1, e2][1..] == [e2];
    assert [e2][1..] == [];
    assert Run(s, [e1, e2]) == Run(Step(s, e1), [e2]);
    assert Run(Step(s, e1), [e2]) == Run(Step(Step(s, e1), e2), []);
  }

  /**
    Hovering `a` and then `b`: only `b` is un-grayed and only `b` may show
    a caption, and the timer armed for `a` can no longer fire.
  */
  lemma HoverThenHover(s: GalleryState, items: seq<GalleryItem>, a: nat, b: nat)
    requires Inv(s) && s.mounted
    ensures var t := Run(s, [Hover(a), Hover(b)]);
      && t.hoveredIndex == Some(b)
      && s.nextTimer !in t.pending
      && t.pending == {s.nextTimer + 1}
      && (forall k: nat :: Grayscale(t, k) <==> k != b)
      && (forall k: nat :: CaptionVisible(t, items, k) ==> k == b)
  {
    var s1 := Step(s, Hover(a));
    HoverArmsOneTimer(s, a);
    StepInv(s, Hover(a));
    HoverArmsOneTimer(s1, b);
    RunTwo(s, Hover(a), Hover(b));
  }

  /** When the timer armed by a hover fires, nothing is hovered and nothing is armed, yet `timerRef` keeps the spent handle. */
  lemma HoverThenFire(s: GalleryState, i: nat)
    requires Inv(s) && s.mounted
    ensures var t := Run(s, [Hover(i), TimerFire(s.nextTimer)]);
      && t.hoveredIndex.None?
      && t.pending == {}
      && t.timerRef == Some(s.nextTimer)
      && forall k: nat :: !Grayscale(t, k)
  {
    HoverArmsOneTimer(s, i);
    RunTwo(s, Hover(i), TimerFire(s.nextTimer));
  }

  /** Leaving an item and clicking it change nothing; the hover persists until the timer fires. */
  lemma LeaveAndClickChangeNothing(s: GalleryState, i: nat)
    ensures Step(s, Leave(i)) == s
    ensures Step(s, Click(i)) == s
  {
  }

  /** Unmounting disarms the pending timer, after which no event changes anything. */
  lemma UnmountClearsTimer(s: GalleryState, events: seq<Event>)
    requires Inv(s) && s.mounted
    ensures Step(s, Unmount).pending == {}
    ensures Run(Step(s, Unmount), events) == Step(s, Unmount)
  {
    AtMostOneTimer(s);
    RunUnmounted(Step(s, Unmount), events);
  }

  lemma {:induction false} RunUnmounted(s: GalleryState, events: seq<Event>)
    requires !s.mounted
    ensures Run(s, events) == s
    decreases |events|
  {
    if events != [] {
      RunUnmounted(s, events[1..]);
    }
  }

  /** Loaded and visible items stay so: no event removes an index from either set. */
  lemma {:induction false} RunMonotone(s: GalleryState, events: seq<Event>)
    ensures s.loadedImages <= Run(s, events).loadedImages
    ensures s.visibleImages <= Run(s, events).visibleImages
    decreases |events|
  {
    if events != [] {
      RunMonotone(Step(s, events[0]), events[1..]);
    }
  }

  /** Once an image has loaded it keeps opacity 1 and the `show` class, whatever follows. */
  lemma LoadedStaysShown(s: GalleryState, i: nat, events: seq<Event>)
    requires s.mounted
    ensures Opacity(Run(Step(s, Load(i)), events), i) == 1
    ensures Shown(Run(Step(s, Load(i)), events), i)
  {
    RunMonotone(Step(s, Load(i)), events);
  }

  /**
    Loading only adds its index to the loaded set; an intersection only
    adds its index to the visible set, and leaving the viewport changes
    no state.
  */
  lemma LoadAndIntersectOnlyAdd(s: GalleryState, i: nat)
    requires s.mounted
    ensures Step(s, Load(i)) == s.(loadedImages := s.loadedImages + {i})
    ensures Step(s, Intersect(i, true)) == s.(visibleImages := s.visibleImages + {i})
    ensures Step(s, Intersect(i, false)) == s
  {
  }

  /**
    With nothing hovered no item is grayscale; with an item hovered every
    item but that one is.
  */
  lemma GrayscaleCases(s: GalleryState)
    ensures s.hoveredIndex.None? ==> forall k: nat :: !Grayscale(s, k)
    ensures s.hoveredIndex.Some? ==> !Grayscale(s, s.hoveredIndex.value)
    ensures forall k: nat :: !Grayscale(s, k) <==> s.hoveredIndex.None? || s.hoveredIndex == Some(k)
  {
  }

  /**
    At most one caption is animated visible, that of the hovered item, and
    none is when nothing is hovered; the one item left in colour is the one
    whose caption can show.
  */
  lemma CaptionAtMostOne(s: GalleryState, items: seq<GalleryItem>)
    ensures s.hoveredIndex.None? ==> forall k: nat :: !CaptionVisible(s, items, k)
    ensures forall j: nat, k: nat :: CaptionVisible(s, items, j) && CaptionVisible(s, items, k) ==> j == k
    ensures forall k: nat :: CaptionVisible(s, items, k) ==> !Grayscale(s, k) && HasCaption(items[k])
  {
  }

  /**
    Running the entries of one observer callback as events adds exactly
    their intersecting indices to the visible set and changes nothing else.
  */
  lemma {:induction false} RunIntersect(s: GalleryState, entries: seq<ObserverEntry>)
    requires s.mounted
    ensures Run(s, IntersectEvents(entries)) == s.(visibleImages := s.visibleImages + IntersectingIndices(entries))
    decreases |entries|
  {
    if entries != [] {
      var p := entries[..|entries| - 1];
      var last := entries[|entries| - 1];
      var e := Intersect(last.index, last.isIntersecting);
      RunIntersect(s, p);
      assert IntersectEvents(entries) == IntersectEvents(p) + [e];
      RunAppend(s, IntersectEvents(p), [e]);
      assert [e][1..] == [];
    } else {
      assert IntersectingIndices(entries) == {};
    }
  }

  /** Running two event sequences one after the other is running their concatenation. */
  lemma {:induction false} RunAppend(s: GalleryState, a: seq<Event>, b: seq<Event>)
    ensures Run(s, a + b) == Run(Run(s, a), b)
    decreases |a|
  {
    if a == [] {
      assert a + b == b;
    } else {
      assert (a + b)[0] == a[0];
      assert (a + b)[1..] == a[1..] + b;
      RunAppend(Step(s, a[0]), a[1..], b);
    }
  }

  // ---------------------------------------------------------------------
  // The component

  class Gallery {
    const items: seq<GalleryItem>
    var hoveredIndex: Option<nat>
    var loadedImages: set<nat>
    var visibleImages: set<nat>
    var timerRef: Option<nat>
    /** The browser's armed timers and its next handle. */
    var pending: set<nat>
    var nextTimer: nat
    var mounted: bool

    function State(): GalleryState
      reads this
    {
      GalleryState(hoveredIndex, timerRef, pending, nextTimer, loadedImages, visibleImages, mounted)
    }

    ghost predicate Valid()
      reads this
    {
      Inv(State())
    }

    /** Mounting: empty state, no timer. */
    constructor (images: seq<GalleryItem>)
      ensures Valid() && State() == Initial() && items == images
    {
      items := images;
      hoveredIndex := None;
      loadedImages := {};
      visibleImages := {};
      timerRef := None;
      pending := {};
      nextTimer := 1;
      mounted := true;
      InitialInv();
    }

    /** `setTimeout`: arms a fresh handle. */
    method SetTimeout() returns (handle: nat)
      modifies this
      ensures handle == old(nextTimer) && nextTimer == handle + 1
      ensures pending == old(pending) + {handle}
      ensures hoveredIndex == old(hoveredIndex) && timerRef == old(timerRef) && mounted == old(mounted)
      ensures loadedImages == old(loadedImages) && visibleImages == old(visibleImages)
    {
      handle := nextTimer;
      pending := pending + {handle};
      nextTimer := nextTimer + 1;
    }

    /** `clearTimeout`: disarms a handle; a spent or unknown handle is ignored. */
    method ClearTimeout(handle: nat)
      modifies this
      ensures pending == old(pending) - {handle}
      ensures hoveredIndex == old(hoveredIndex) && timerRef == old(timerRef) && nextTimer == old(nextTimer)
      ensures mounted == old(mounted) && loadedImages == old(loadedImages) && visibleImages == old(visibleImages)
    {
      pending := pending - {handle};
    }

    /** `handleImageHover`. */
    method HandleImageHover(index: nat)
      requires Valid() && mounted
      modifies this
      ensures Valid()
      ensures State() == Step(old(State()), Hover(index))
      ensures hoveredIndex == Some(index) && pending == {old(nextTimer)} && timerRef == Some(old(nextTimer))
    {
      hoveredIndex := Some(index);
      if timerRef.Some? {
        ClearTimeout(timerRef.value);
      }
      var handle := SetTimeout();
      timerRef := Some(handle);
      HoverArmsOneTimer(old(State()), index);
      StepInv(old(State()), Hover(index));
    }

    /** `handleImageLeave`: does nothing; the timer ends the hover. */
    method HandleImageLeave(index: nat)
      requires Valid() && mounted
      ensures State() == Step(State(), Leave(index))
    {
    }

    /** The timer's callback, `setHoveredIndex(null)`; `timerRef` is left holding the spent handle. */
    method TimerFired(handle: nat)
      requires Valid() && mounted && handle in pending
      modifies this
      ensures Valid()
      ensures State() == Step(old(State()), TimerFire(handle))
      ensures hoveredIndex.None? && pending == {} && timerRef == old(timerRef)
    {
      AtMostOneTimer(State());
      pending := pending - {handle};
      hoveredIndex := None;
      StepInv(old(State()), TimerFire(handle));
    }

    /** `handleImageLoad`. */
    method HandleImageLoad(index: nat)
      requires Valid() && mounted
      modifies this
      ensures Valid()
      ensures State() == Step(old(State()), Load(index))
      ensures loadedImages == old(loadedImages) + {index}
    {
      loadedImages := loadedImages + {index};
    }

    /**
      The IntersectionObserver callback: each intersecting entry makes its
      item visible and plays its video; each other entry pauses its video.
    */
    method ObserverCallback(entries: seq<ObserverEntry>) returns (commands: seq<MediaCommand>)
      requires Valid() && mounted
      modifies this
      ensures Valid()
      ensures State() == Run(old(State()), IntersectEvents(entries))
      ensures visibleImages == old(visibleImages) + IntersectingIndices(entries)
      ensures |commands| == |entries|
      ensures forall k :: 0 <= k < |entries| ==> commands[k] == Command(items, entries[k])
    {
      commands := [];
      var k := 0;
      while k < |entries|
        invariant 0 <= k <= |entries|
        invariant State() == old(State()).(visibleImages := old(visibleImages) + IntersectingIndices(entries[..k]))
        invariant |commands| == k
        invariant forall j :: 0 <= j < k ==> commands[j] == Command(items, entries[j])
      {
        var entry := entries[k];
        assert entries[..k + 1][..k] == entries[..k];
        assert IntersectingIndices(entries[..k + 1])
            == IntersectingIndices(entries[..k]) + (if entry.isIntersecting then {entry.index} else {});
        var command: MediaCommand;
        if entry.isIntersecting {
          visibleImages := visibleImages + {entry.index};
          command := if HasVideo(items, entry.index) then Play(entry.index) else NoCommand;
        } else {
          command := if HasVideo(items, entry.index) then Pause(entry.index) else NoCommand;
        }
        commands := commands + [command];
        k := k + 1;
      }
      assert entries[..k] == entries;
      RunIntersect(old(State()), entries);
    }

    /** The button's `onClick`: reports the item's index to `onImageClick`. */
    method HandleClick(index: nat) returns (reported: nat)
      requires Valid() && mounted
      ensures reported == index
      ensures State() == Step(State(), Click(index))
    {
      reported := index;
    }

    /** The unmount cleanup: disarms the timer `timerRef` holds. */
    method Unmount()
      requires Valid() && mounted
      modifies this
      ensures Valid()
      ensures State() == Step(old(State()), Event.Unmount)
      ensures pending == {} && !mounted
    {
      AtMostOneTimer(State());
      if timerRef.Some? {
        ClearTimeout(timerRef.value);
      }
      mounted := false;
    }
  }
}
