/** The infinite image carousel: a fixed ring of images, one integer of state
    (the index of the centred image), a five-image window around it, and
    next/previous navigation that wraps round the ring.
 */
module InfiniteCarousel {
  import opened JsRemainder

  /** The nine image references the component ships with, in ring order. */
  const SourceImages: seq<string> := [
    "https://images.unsplash.com/photo-1649972904349-6e44c42644a7",
    "https://images.unsplash.com/photo-1488590528505-98d2b5aba04b",
    "https://images.unsplash.com/photo-1518770660439-4636190af475",
    "https://images.unsplash.com/photo-1461749280684-dccba630e2f6",
    "https://images.unsplash.com/photo-1486312338219-ce68d2c6f44d",
    "https://images.unsplash.com/photo-1581091226825-a6a2a5aee158",
    "https://images.unsplash.com/photo-1485827404703-89b55fcc595e",
    "https://images.unsplash.com/photo-1526374965328-7f61d4dc18c5",
    "https://images.unsplash.com/photo-1531297484001-80022131f5a1"
  ]

  /** One entry of the visible window: the absolute ring index (also the
      entry's rendering key) and the image at that index. */
  datatype Slide = Slide(index: int, image: string)

  /** The index after `i` on a ring of `n` images, computed as the handler
      does: JavaScript `(i + 1) % n`. */
  function Next(i: int, n: int): (r: int)
    requires n > 0
    ensures 0 <= i < n ==> 0 <= r < n
    ensures 0 <= i < n ==> r == if i == n - 1 then 0 else i + 1
  {
    if 0 <= i < n then ModNearRange(i + 1, n); Rem(i + 1, n) else Rem(i + 1, n)
  }

  /** The index before `i` on a ring of `n` images, computed as the handler
      does: JavaScript `(i - 1 + n) % n`. */
  function Prev(i: int, n: int): (r: int)
    requires n > 0
    ensures 0 <= i < n ==> 0 <= r < n
    ensures 0 <= i < n ==> r == if i == 0 then n - 1 else i - 1
  {
    if 0 <= i < n then ModNearRange(i - 1 + n, n); Rem(i - 1 + n, n) else Rem(i - 1 + n, n)
  }

  /** `k` presses of next, starting from `i`. */
  function NextRepeated(i: int, n: int, k: nat): int
    requires n > 0
  {
    if k == 0 then i else Next(NextRepeated(i, n, k - 1), n)
  }

  /** The reference window: the entry at position k shows the image at offset
      k - 2 from `current`, reduced onto the ring by the Euclidean remainder. */
  function Window(images: seq<string>, current: int): seq<Slide>
    requires |images| > 0
  {
    seq(5, k requires 0 <= k < 5 =>
      var idx := (current + k - 2) % |images|;
      Slide(idx, images[idx]))
  }

  /** The carousel component: its image ring and its one piece of state. */
  class Carousel {
    const images: seq<string>
    var currentIndex: int

    /** The ring is non-empty and the current index lies on it. */
    ghost predicate Valid()
      reads this
    {
      |images| > 0 && 0 <= currentIndex < |images|
    }

    /** Mounting the component: the state starts at index 0. */
    constructor (images: seq<string>)
      requires |images| > 0
      ensures Valid()
      ensures this.images == images && currentIndex == 0
    {
      this.images := images;
      currentIndex := 0;
    }

    /** The five entries around the current index, offsets -2 to +2 in order,
        each offset wrapped onto the ring by one correction up and one down. */
    method VisibleImages() returns (visible: seq<Slide>)
      requires Valid()
      requires |images| >= 2
      ensures visible == Window(images, currentIndex)
      ensures |visible| == 5
      ensures forall k :: 0 <= k < 5 ==>
        0 <= visible[k].index < |images| && visible[k].image == images[visible[k].index]
      ensures visible[2] == Slide(currentIndex, images[currentIndex])
      ensures |images| >= 5 ==>
        forall j, k :: 0 <= j < k < 5 ==> visible[j].index != visible[k].index
    {
      visible := [];
      for i := -2 to 3
        invariant |visible| == i + 2
        invariant forall k :: 0 <= k < |visible| ==> visible[k] == Window(images, currentIndex)[k]
      {
        var index := currentIndex + i;
        if index < 0 {
          index := |images| + index;
        }
        if index >= |images| {
          index := index - |images|;
        }
        ModNearRange(currentIndex + i, |images|);
        visible := visible + [Slide(index, images[index])];
      }
      ModNearRange(currentIndex, |images|);
      if |images| >= 5 {
        WindowIndicesDistinct(images, currentIndex);
      }
    }

    /** The next button: advance one image, wrapping from the last to the first. */
    method HandleNext()
      requires Valid()
      modifies this
      ensures Valid()
      ensures currentIndex == Next(old(currentIndex), |images|)
    {
      currentIndex := Next(currentIndex, |images|);
    }

    /** The previous button: go back one image, wrapping from the first to the last. */
    method HandlePrev()
      requires Valid()
      modifies this
      ensures Valid()
      ensures currentIndex == Prev(old(currentIndex), |images|)
    {
      currentIndex := Prev(currentIndex, |images|);
    }
  }

  /** Next and previous undo each other, in either order. */
  lemma NextPrevInverse(i: int, n: int)
    requires n > 0 && 0 <= i < n
    ensures Prev(Next(i, n), n) == i
    ensures Next(Prev(i, n), n) == i
  {
  }

  /** From an index on the ring, k presses of next land on (i + k) mod n. */
  lemma {:induction false} NextRepeatedIsShift(i: int, n: int, k: nat)
    requires n > 0 && 0 <= i < n
    ensures NextRepeated(i, n, k) == (i + k) % n
  {
    if k == 0 {
      ModNearRange(i, n);
    } else {
      NextRepeatedIsShift(i, n, k - 1);
      ModSucc(i + k - 1, n);
    }
  }

  /** n presses of next bring the carousel back to where it started. */
  lemma NextFullCycle(i: int, n: int)
    requires n > 0 && 0 <= i < n
    ensures NextRepeated(i, n, n) == i
  {
    NextRepeatedIsShift(i, n, n);
    ModNearRange(i + n, n);
  }

  /** Every index is reachable from every other by pressing next, in fewer
      than n presses. */
  lemma NextReachesEveryIndex(i: int, t: int, n: int)
    requires n > 0 && 0 <= i < n && 0 <= t < n
    ensures 0 <= (t - i) % n < n
    ensures NextRepeated(i, n, (t - i) % n) == t
  {
    ModNearRange(t - i, n);
    NextRepeatedIsShift(i, n, (t - i) % n);
    ModNearRange(i + (t - i) % n, n);
  }

  /** On a ring of at least five images the five window indices are pairwise
      distinct, as their use as rendering keys requires. */
  lemma WindowIndicesDistinct(images: seq<string>, current: int)
    requires |images| >= 5 && 0 <= current < |images|
    ensures forall j, k :: 0 <= j < k < 5 ==>
      Window(images, current)[j].index != Window(images, current)[k].index
  {
    var n := |images|;
    forall j, k | 0 <= j < k < 5
      ensures Window(images, current)[j].index != Window(images, current)[k].index
    {
      ModNearRange(current + j - 2, n);
      ModNearRange(current + k - 2, n);
    }
  }

  /** On a ring of fewer than five images two window entries always share an
      index, so the keys are distinct only when the ring has five or more. */
  lemma WindowIndicesCollideOnSmallRing(images: seq<string>, current: int)
    requires 0 < |images| < 5 && 0 <= current < |images|
    ensures exists j, k :: (0 <= j < k < 5 &&
      Window(images, current)[j].index == Window(images, current)[k].index)
  {
    var n := |images|;
    var w := Window(images, current);
    if n == 1 {
      ModUnique(current - 2, 1, current - 2, 0);
      ModUnique(current + 2, 1, current + 2, 0);
      assert w[0].index == w[4].index;
    } else if n == 3 {
      ModNearRange(current - 2, 3);
      ModNearRange(current + 1, 3);
      assert w[0].index == w[3].index;
    } else {
      ModNearRange(current - 2, n);
      ModNearRange(current + 2, n);
      assert w[0].index == w[4].index;
    }
  }

  /** After next, the window slides left by one: its first four entries are
      the last four entries of the window before. */
  lemma WindowAfterNext(images: seq<string>, current: int)
    requires |images| > 0 && 0 <= current < |images|
    ensures Window(images, Next(current, |images|))[..4] == Window(images, current)[1..]
  {
    var n := |images|;
    forall k | 0 <= k < 4
      ensures Window(images, Next(current, n))[k] == Window(images, current)[k + 1]
    {
      if current == n - 1 {
        ModAddPeriod(k - 2, n);
      }
    }
  }

  /** After previous, the window slides right by one: its last four entries
      are the first four entries of the window before. */
  lemma WindowAfterPrev(images: seq<string>, current: int)
    requires |images| > 0 && 0 <= current < |images|
    ensures Window(images, Prev(current, |images|))[1..] == Window(images, current)[..4]
  {
    var n := |images|;
    var p := Prev(current, n);
    WindowAfterNext(images, p);
    NextPrevInverse(current, n);
  }

  /** The shipped ring at start-up shows images 7, 8, 0, 1, 2; one press of
      next shows 8, 0, 1, 2, 3; one press of previous from the start gives 8. */
  lemma SourceRingScenario()
    ensures |SourceImages| == 9
    ensures Window(SourceImages, 0) ==
      [Slide(7, SourceImages[7]), Slide(8, SourceImages[8]), Slide(0, SourceImages[0]),
       Slide(1, SourceImages[1]), Slide(2, SourceImages[2])]
    ensures Next(0, 9) == 1 && Prev(0, 9) == 8
    ensures Window(SourceImages, 1) ==
      [Slide(8, SourceImages[8]), Slide(0, SourceImages[0]), Slide(1, SourceImages[1]),
       Slide(2, SourceImages[2]), Slide(3, SourceImages[3])]
  {
  }

  /** A client driving the component through its public contracts only. */
  method NavigationScenario()
  {
    var c := new Carousel(SourceImages);
    var v := c.VisibleImages();
    assert v[2].index == 0;
    c.HandleNext();
    assert c.currentIndex == 1;
    c.HandlePrev();
    c.HandlePrev();
    assert c.currentIndex == 8;
    v := c.VisibleImages();
    assert v[2].image == SourceImages[8];
    assert v[0].index != v[4].index;
  }
}
