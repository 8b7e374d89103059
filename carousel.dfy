/** The testimonial carousel: a page index and a page size that is a step
    function of the viewport width. "Next" and "previous" saturate at the ends;
    a resize that changes the page size goes back to the first page.
    The number of cards and the viewport width are inputs. */
module Carousel {

  /** Widest viewport, in CSS pixels, that shows one card per page. */
  const PhoneMaxWidth := 768
  /** Widest viewport that shows two cards per page; wider ones show three. */
  const TabletMaxWidth := 1024

  /** Cards shown per page for a viewport of the given width. */
  function CardsPerView(width: int): (r: int)
    ensures 1 <= r <= 3
    ensures r == 1 <==> width <= PhoneMaxWidth
    ensures r == 2 <==> PhoneMaxWidth < width <= TabletMaxWidth
    ensures r == 3 <==> TabletMaxWidth < width
  {
    if width <= PhoneMaxWidth then 1
    else if width <= TabletMaxWidth then 2
    else 3
  }

  /** The last index "next" can reach: `cardCount - perView`, or 0 when the
      cards do not fill one page. */
  function LastIndex(cardCount: nat, perView: int): nat
  {
    if cardCount > perView then cardCount - perView else 0
  }

  /** The carousel's state: the index of the first visible card and the page size. */
  datatype Position = Position(index: int, perView: int)

  /** The invariant every handler keeps. */
  predicate InRange(p: Position, cardCount: nat)
  {
    1 <= p.perView <= 3 && 0 <= p.index <= LastIndex(cardCount, p.perView)
  }

  /** "Next": one step forward while below `cardCount - perView`, otherwise nothing. */
  function Next(p: Position, cardCount: nat): (r: Position)
    ensures r.perView == p.perView
    ensures r == p <==> p.index >= cardCount - p.perView
    ensures r != p ==> r.index == p.index + 1
    ensures InRange(p, cardCount) ==> InRange(r, cardCount)
  {
    if p.index < cardCount - p.perView then p.(index := p.index + 1) else p
  }

  /** "Previous": one step back while above 0, otherwise nothing. */
  function Prev(p: Position): (r: Position)
    ensures r.perView == p.perView
    ensures r == p <==> p.index <= 0
    ensures r != p ==> r.index == p.index - 1
    ensures p.index >= 0 ==> r.index >= 0
    ensures forall n: nat :: InRange(p, n) ==> InRange(r, n)
  {
    if p.index > 0 then p.(index := p.index - 1) else p
  }

  /** Window resize: a new page size restarts at index 0; the same page size
      changes nothing. */
  function Resize(p: Position, width: int): (r: Position)
    ensures r.perView == CardsPerView(width)
    ensures r == p <==> p.perView == CardsPerView(width)
    ensures r != p ==> r.index == 0
    ensures forall n: nat :: InRange(p, n) ==> InRange(r, n)
  {
    var w := CardsPerView(width);
    if w != p.perView then Position(0, w) else p
  }

  /** `k` presses of "next". */
  function NextTimes(p: Position, cardCount: nat, k: nat): Position
    decreases k
  {
    if k == 0 then p else NextTimes(Next(p, cardCount), cardCount, k - 1)
  }

  /** `k` presses of "previous". */
  function PrevTimes(p: Position, k: nat): Position
    decreases k
  {
    if k == 0 then p else PrevTimes(Prev(p), k - 1)
  }

  /** From a valid position, `k` presses of "next" advance by `k` but stop at
      the last index: the index never passes it, whatever is pressed. */
  lemma {:induction false} NextTimesSaturates(p: Position, cardCount: nat, k: nat)
    requires InRange(p, cardCount)
    ensures var r := NextTimes(p, cardCount, k);
      r.perView == p.perView && InRange(r, cardCount)
      && r.index == if p.index + k <= LastIndex(cardCount, p.perView)
                    then p.index + k else LastIndex(cardCount, p.perView)
    decreases k
  {
    if k > 0 {
      NextTimesSaturates(Next(p, cardCount), cardCount, k - 1);
    }
  }

  /** At the last index "next" changes nothing, so pressing it again and again
      is idempotent. */
  lemma NextAtEndIsIdempotent(p: Position, cardCount: nat, k: nat)
    requires InRange(p, cardCount) && p.index == LastIndex(cardCount, p.perView)
    ensures Next(p, cardCount) == p
    ensures NextTimes(p, cardCount, k) == p
  {
    NextTimesSaturates(p, cardCount, k);
  }

  /** `k` presses of "previous" step back by `k` but stop at 0. */
  lemma {:induction false} PrevTimesSaturates(p: Position, k: nat)
    requires p.index >= 0
    ensures var r := PrevTimes(p, k);
      r.perView == p.perView && r.index == if p.index >= k then p.index - k else 0
    decreases k
  {
    if k > 0 {
      PrevTimesSaturates(Prev(p), k - 1);
    }
  }

  /** "Previous" undoes a "next" that moved, and "next" undoes a "previous"
      that moved. */
  lemma NextPrevInverse(p: Position, cardCount: nat)
    requires InRange(p, cardCount)
    ensures Next(p, cardCount) != p ==> Prev(Next(p, cardCount)) == p
    ensures Prev(p) != p ==> Next(Prev(p), cardCount) == p
  {
  }

  /** The carousel widget: the two closure variables of the source as fields. */
  class TestimonialCarousel {
    var currentIndex: int
    var cardsPerView: int

    function State(): Position
      reads this
    {
      Position(currentIndex, cardsPerView)
    }

    predicate Valid(cardCount: nat)
      reads this
    {
      InRange(State(), cardCount)
    }

    /** Initial setup: the first page, sized for the current viewport. */
    constructor (width: int)
      ensures State() == Position(0, CardsPerView(width))
      ensures forall n: nat :: Valid(n)
    {
      currentIndex := 0;
      cardsPerView := CardsPerView(width);
    }

    /** The "next" button. */
    method NextSlide(cardCount: nat)
      modifies this
      ensures State() == Next(old(State()), cardCount)
      ensures old(Valid(cardCount)) ==> Valid(cardCount)
    {
      var maxIndex := cardCount - cardsPerView;
      if currentIndex < maxIndex {
        currentIndex := currentIndex + 1;
      }
    }

    /** The "previous" button. */
    method PrevSlide()
      modifies this
      ensures State() == Prev(old(State()))
      ensures forall n: nat :: old(Valid(n)) ==> Valid(n)
    {
      if currentIndex > 0 {
        currentIndex := currentIndex - 1;
      }
    }

    /** The window's resize event. */
    method OnResize(width: int)
      modifies this
      ensures State() == Resize(old(State()), width)
      ensures forall n: nat :: old(Valid(n)) ==> Valid(n)
    {
      var newCardsPerView := CardsPerView(width);
      if newCardsPerView != cardsPerView {
        cardsPerView := newCardsPerView;
        currentIndex := 0;
      }
    }
  }
}
