/**
 The testimonial slider: a current-slide index over a fixed number of slides,
 and a horizontal offset (in percent of the slider width) for every slide.
 Slide `i` is moved to `100 * (i - k)` percent when slide `k` is shown.
 */
module Slider {

  /** The two slider buttons. */
  datatype Button = Left | Right

  /** The offset that showing slide `shown` gives to slide `i`. */
  function Offset(i: int, shown: int): int
  {
    100 * (i - shown)
  }

  /** The offsets of all `count` slides when slide `shown` is displayed. */
  function Layout(count: nat, shown: int): (r: seq<int>)
    ensures |r| == count
    ensures forall i :: 0 <= i < count ==> r[i] == 100 * (i - shown)
    // the slide on screen is the one, and the only one, at offset 0
    ensures forall i :: 0 <= i < count ==> (r[i] == 0 <==> i == shown)
    // slides before it are to the left, slides after it to the right
    ensures forall i :: 0 <= i < count ==> (r[i] < 0 <==> i < shown)
    // neighbouring slides are exactly one slider width apart
    ensures forall i :: 0 <= i < count - 1 ==> r[i + 1] == r[i] + 100
  {
    seq(count, i => Offset(i, shown))
  }

  /**
   The index after a click on the right button. Within range, "wrap at the
   last slide, else increment" is addition modulo the number of slides.
   */
  function NextIndex(cur: int, maxSlide: nat): (r: int)
    ensures 0 <= cur < maxSlide ==> r == (cur + 1) % maxSlide && 0 <= r < maxSlide
  {
    if cur == maxSlide - 1 then 0 else cur + 1
  }

  /**
   The index after a click on the left button. Within range, "wrap at the
   first slide, else decrement" is subtraction modulo the number of slides.
   */
  function PrevIndex(cur: int, maxSlide: nat): (r: int)
    ensures 0 <= cur < maxSlide ==> r == (cur - 1) % maxSlide && 0 <= r < maxSlide
  {
    if cur == 0 then maxSlide - 1 else cur - 1
  }

  /** The index after one button click: within range, a move by `Delta(b)` modulo the number of slides. */
  function Step(cur: int, maxSlide: nat, b: Button): (r: int)
    ensures 0 <= cur < maxSlide ==> r == (cur + Delta(b)) % maxSlide && 0 <= r < maxSlide
  {
    match b
    case Right => NextIndex(cur, maxSlide)
    case Left => PrevIndex(cur, maxSlide)
  }

  /**
   The index after the clicks `clicks`, applied in order, starting from `cur`.
   Every sequence of clicks that starts in range stays in range.
   */
  function Run(cur: int, maxSlide: nat, clicks: seq<Button>): (r: int)
    ensures 0 <= cur < maxSlide ==> 0 <= r < maxSlide
    decreases |clicks|
  {
    if clicks == [] then cur else Run(Step(cur, maxSlide, clicks[0]), maxSlide, clicks[1..])
  }

  /** How far one click moves the index before wrapping. */
  function Delta(b: Button): int
  {
    if b == Right then 1 else -1
  }

  /** Right clicks minus left clicks. */
  function Net(clicks: seq<Button>): int
    decreases |clicks|
  {
    if clicks == [] then 0
    else Delta(clicks[0]) + Net(clicks[1..])
  }

  /** `k` clicks on the right button. */
  function Rights(k: nat): seq<Button>
  {
    seq(k, _ => Right)
  }

  /** Exactly one slide is at offset 0 when the shown index is in range, and none otherwise. */
  lemma LayoutShowsExactlyOne(count: nat, shown: int)
    ensures (exists i :: 0 <= i < count && Layout(count, shown)[i] == 0) <==> 0 <= shown < count
    ensures forall i, j :: 0 <= i < count && 0 <= j < count && Layout(count, shown)[i] == 0 && Layout(count, shown)[j] == 0 ==> i == j
  {
    if 0 <= shown < count {
      assert Layout(count, shown)[shown] == 0;
    }
  }

  /** A left click undoes a right click, and a right click undoes a left click. */
  lemma NextThenPrevRestores(cur: int, maxSlide: nat)
    requires 0 <= cur < maxSlide
    ensures PrevIndex(NextIndex(cur, maxSlide), maxSlide) == cur
    ensures NextIndex(PrevIndex(cur, maxSlide), maxSlide) == cur
    ensures Layout(maxSlide, PrevIndex(NextIndex(cur, maxSlide), maxSlide)) == Layout(maxSlide, cur)
  {
  }

  /** With no slides the index leaves the range on the first click of either button. */
  lemma NoSlidesLeaveRange()
    ensures NextIndex(0, 0) == 1
    ensures PrevIndex(0, 0) == -1
  {
  }

  /** With no slides neither wrap ever fires: the index drifts by the net number of right clicks. */
  lemma {:induction false} NoSlidesDrift(cur: int, clicks: seq<Button>)
    ensures Run(cur, 0, clicks) == cur + Net(clicks)
    decreases |clicks|
  {
    if clicks != [] {
      NoSlidesDrift(Step(cur, 0, clicks[0]), clicks[1..]);
    }
  }

  /** From the initial index 0, the index is always a valid slide when there is at least one. */
  lemma ReachableInRange(maxSlide: nat, clicks: seq<Button>)
    requires maxSlide >= 1
    ensures 0 <= Run(0, maxSlide, clicks) < maxSlide
  {
  }

  /** A positive multiple of `n` is at least `n`. */
  lemma ProductAtLeast(k: int, n: int)
    requires k >= 1 && n > 0
    ensures k * n >= n
  {
  }

  /** Euclidean remainders are unique: `a * n + r` with `0 <= r < n` leaves remainder `r`. */
  lemma RemainderUnique(y: int, a: int, r: int, n: int)
    requires n > 0 && 0 <= r < n && y == a * n + r
    ensures y % n == r
  {
    var k := a - y / n;
    assert y == (y / n) * n + y % n;
    assert k * n == y % n - r;
    if k >= 1 {
      ProductAtLeast(k, n);
    } else if k <= -1 {
      ProductAtLeast(-k, n);
    }
  }

  /** Adding a multiple of `n` does not change the remainder modulo `n`. */
  lemma ShiftByMultiple(x: int, q: int, n: int)
    requires n > 0
    ensures (x + q * n) % n == x % n
  {
    var a := x / n;
    assert x == a * n + x % n;
    assert x + q * n == (a + q) * n + x % n;
    RemainderUnique(x + q * n, a + q, x % n, n);
  }

  /** Reducing the first summand modulo `n` first does not change the sum's remainder. */
  lemma ModuloOfSum(a: int, d: int, n: int)
    requires n > 0
    ensures (a % n + d) % n == (a + d) % n
  {
    var q := a / n;
    assert a == q * n + a % n;
    assert a + d == (a % n + d) + q * n;
    ShiftByMultiple(a % n + d, q, n);
  }

  /** The index reached depends only on the net number of right clicks, modulo the number of slides. */
  lemma {:induction false} RunIsNetDisplacement(cur: int, maxSlide: nat, clicks: seq<Button>)
    requires 0 <= cur < maxSlide
    ensures Run(cur, maxSlide, clicks) == (cur + Net(clicks)) % maxSlide
    decreases |clicks|
  {
    if clicks == [] {
      RemainderUnique(cur, 0, cur, maxSlide);
    } else {
      var b, rest := clicks[0], clicks[1..];
      var next := Step(cur, maxSlide, b);
      RunIsNetDisplacement(next, maxSlide, rest);
      ModuloOfSum(cur + Delta(b), Net(rest), maxSlide);
      assert cur + Delta(b) + Net(rest) == cur + Net(clicks);
    }
  }

  /** `k` right clicks have a net displacement of `k`. */
  lemma {:induction false} NetOfRights(k: nat)
    ensures Net(Rights(k)) == k
  {
    if k > 0 {
      assert Rights(k)[1..] == Rights(k - 1);
      NetOfRights(k - 1);
    }
  }

  /** As many right clicks as there are slides come back to the slide we started from. */
  lemma FullTurnReturns(cur: int, maxSlide: nat)
    requires 0 <= cur < maxSlide
    ensures Run(cur, maxSlide, Rights(maxSlide)) == cur
  {
    RunIsNetDisplacement(cur, maxSlide, Rights(maxSlide));
    NetOfRights(maxSlide);
    ShiftByMultiple(cur, 1, maxSlide);
    RemainderUnique(cur, 0, cur, maxSlide);
    assert cur + Net(Rights(maxSlide)) == cur + 1 * maxSlide;
  }

  /**
   The slider controller. `slides` holds one offset per slide element,
   `curSlide` is the module-level index that the buttons move.
   */
  class Carousel {
    var curSlide: int
    const maxSlide: nat
    const slides: array<int>

    ghost predicate Valid()
      reads this
    {
      slides.Length == maxSlide
    }

    /** The slides are positioned for the current index. */
    ghost predicate Displayed()
      reads this, slides
      requires Valid()
    {
      slides[..] == Layout(maxSlide, curSlide)
    }

    /** Page load: take the slide elements, start at slide 0 and position them for it. */
    constructor (elements: array<int>)
      modifies elements
      ensures Valid() && slides == elements && maxSlide == elements.Length
      ensures curSlide == 0 && Displayed()
    {
      slides := elements;
      maxSlide := elements.Length;
      curSlide := 0;
      new;
      GoToSlide(0);
    }

    /** Position every slide for showing slide `slide`; the index itself is not touched. */
    method GoToSlide(slide: int)
      requires Valid()
      modifies slides
      ensures slides[..] == Layout(maxSlide, slide)
    {
      var i := 0;
      while i < slides.Length
        invariant 0 <= i <= slides.Length
        invariant forall j :: 0 <= j < i ==> slides[j] == Offset(j, slide)
      {
        slides[i] := Offset(i, slide);
        i := i + 1;
      }
    }

    /** The right button: advance, wrapping from the last slide to the first. */
    method Next()
      requires Valid()
      modifies this, slides
      ensures Valid()
      ensures curSlide == NextIndex(old(curSlide), maxSlide)
      ensures Displayed()
      ensures 0 <= old(curSlide) < maxSlide ==> 0 <= curSlide < maxSlide
    {
      if curSlide == maxSlide - 1 {
        curSlide := 0;
      } else {
        curSlide := curSlide + 1;
      }
      GoToSlide(curSlide);
    }

    /** The left button: go back, wrapping from the first slide to the last. */
    method Prev()
      requires Valid()
      modifies this, slides
      ensures Valid()
      ensures curSlide == PrevIndex(old(curSlide), maxSlide)
      ensures Displayed()
      ensures 0 <= old(curSlide) < maxSlide ==> 0 <= curSlide < maxSlide
    {
      if curSlide == 0 {
        curSlide := maxSlide - 1;
      } else {
        curSlide := curSlide - 1;
      }
      GoToSlide(curSlide);
    }
  }

  /** Three slides: right, right, right wraps to 0; then left wraps to 2 and left again gives 1. */
  method ThreeSlides()
  {
    var elements := new int[3];
    var c := new Carousel(elements);
    c.Next();
    assert c.curSlide == 1;
    c.Next();
    assert c.curSlide == 2;
    c.Next();
    assert c.curSlide == 0 && c.slides[..] == [0, 100, 200];
    c.Prev();
    assert c.curSlide == 2 && c.slides[..] == [-200, -100, 0];
    c.Prev();
    assert c.curSlide == 1;
  }
}
