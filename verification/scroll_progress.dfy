/** The scroll-progress hook: how far down the page the reader is, and in
    which direction they last scrolled.

    The window is not read here: each scroll event's `scrollY`, document
    `scrollHeight` and `innerHeight` are inputs. */
module ScrollProgress {

  datatype Direction = Up | Down

  datatype Progress = Progress(progress: real, direction: Direction)

  /** The published value, and the position the listener compares the next
      event against. */
  datatype Tracker = Tracker(published: Progress, lastScrollY: real)

  /** What the hook publishes before any scroll event. */
  const InitialProgress := Progress(0.0, Down)

  /** A scroll event's readings. */
  datatype ScrollEvent = ScrollEvent(scrollY: real, scrollHeight: real, innerHeight: real)

  /** The listener is installed remembering the position at that moment;
      nothing is published yet. */
  function Subscribe(scrollY: real): (t: Tracker)
    ensures t.published == InitialProgress
    ensures t.lastScrollY == scrollY
  {
    Tracker(InitialProgress, scrollY)
  }

  /** `handleScroll`: the progress is the position over the scrollable
      height, or 0 when nothing scrolls; the direction is down only for a
      strictly larger position; the position is remembered for the next
      event. */
  function HandleScroll(t: Tracker, e: ScrollEvent): (t': Tracker)
    ensures var h := e.scrollHeight - e.innerHeight;
            && (h > 0.0 ==> t'.published.progress * h == e.scrollY)
            && (h <= 0.0 ==> t'.published.progress == 0.0)
    ensures t'.published.direction == Down <==> e.scrollY > t.lastScrollY
    ensures t'.lastScrollY == e.scrollY
  {
    var scrollable := e.scrollHeight - e.innerHeight;
    var progress := if scrollable > 0.0 then e.scrollY / scrollable else 0.0;
    var direction := if e.scrollY > t.lastScrollY then Down else Up;
    Tracker(Progress(progress, direction), e.scrollY)
  }

  /** The tracker after a sequence of scroll events. */
  function Run(t: Tracker, events: seq<ScrollEvent>): Tracker
    decreases |events|
  {
    if |events| == 0 then t else Run(HandleScroll(t, events[0]), events[1..])
  }

  /** A position inside the scrollable range gives a progress in [0, 1],
      with 0 at the top and 1 at the bottom. */
  lemma ProgressInUnitRange(t: Tracker, e: ScrollEvent)
    requires 0.0 <= e.scrollY <= e.scrollHeight - e.innerHeight
    ensures 0.0 <= HandleScroll(t, e).published.progress <= 1.0
    ensures e.scrollY == 0.0 ==> HandleScroll(t, e).published.progress == 0.0
    ensures e.scrollY == e.scrollHeight - e.innerHeight && e.scrollY > 0.0
            ==> HandleScroll(t, e).published.progress == 1.0
  {
    var h := e.scrollHeight - e.innerHeight;
    if h > 0.0 {
      var p := HandleScroll(t, e).published.progress;
      assert p * h == e.scrollY;
    }
  }

  /** The progress is not clamped: whenever the page scrolls, an overscroll
      above the top publishes a negative progress, and one past the bottom a
      progress above 1. */
  lemma OverscrollIsNegative(t: Tracker, e: ScrollEvent)
    requires e.scrollHeight - e.innerHeight > 0.0
    ensures e.scrollY < 0.0 ==> HandleScroll(t, e).published.progress < 0.0
    ensures e.scrollY > e.scrollHeight - e.innerHeight ==> HandleScroll(t, e).published.progress > 1.0
  {
    var h := e.scrollHeight - e.innerHeight;
    var p := HandleScroll(t, e).published.progress;
    assert p * h == e.scrollY;
    assert p >= 0.0 ==> p * h >= 0.0;
    assert p <= 1.0 ==> (1.0 - p) * h >= 0.0;
  }

  /** Staying put reads as scrolling up. */
  lemma NoMovementIsUp(t: Tracker, e: ScrollEvent)
    requires e.scrollY == t.lastScrollY
    ensures HandleScroll(t, e).published.direction == Up
  {
  }

  /** After a nonempty run the published value depends only on the last
      event and the position before it: the previous event's, or the one
      remembered at subscription. */
  lemma {:induction false} RunPublishesLastEvent(t: Tracker, events: seq<ScrollEvent>)
    requires |events| > 0
    ensures var before := if |events| == 1 then t.lastScrollY else events[|events| - 2].scrollY;
            Run(t, events) == HandleScroll(Tracker(t.published, before), events[|events| - 1])
    decreases |events|
  {
    var t1 := HandleScroll(t, events[0]);
    if |events| > 1 {
      RunPublishesLastEvent(t1, events[1..]);
      assert events[1..][|events| - 2] == events[|events| - 1];
      if |events| > 2 {
        assert events[1..][|events| - 3] == events[|events| - 2];
      }
      assert Tracker(t1.published, events[0].scrollY).lastScrollY == events[0].scrollY;
    }
  }

  /** Every run leaves the last event's position remembered, and the
      published direction is down exactly when that event moved past the
      position before it. */
  lemma RunDirection(t: Tracker, events: seq<ScrollEvent>)
    requires |events| > 0
    ensures Run(t, events).lastScrollY == events[|events| - 1].scrollY
    ensures var before := if |events| == 1 then t.lastScrollY else events[|events| - 2].scrollY;
            Run(t, events).published.direction == Down <==> events[|events| - 1].scrollY > before
  {
    RunPublishesLastEvent(t, events);
  }
}
