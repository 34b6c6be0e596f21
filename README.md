# Infinite carousel: circular-index model

This project models the logic of the `InfiniteCarousel` React component. The
component shows a ring of nine images. Its one piece of state is
`currentIndex`, the index of the centred image, and it starts at 0. On each
render it computes a window of five `{index, image}` entries at offsets -2 to
+2 around `currentIndex`. Each offset is wrapped onto the ring by two one-step
corrections, not by a remainder. The next and previous buttons move
`currentIndex` by one with JavaScript `%`.

Layout:

- `JsRemainder.dfy` (module `JsRemainder`) models JavaScript's truncating `%`
  and proves where it agrees with Dafny's Euclidean `%`. It also holds small
  lemmas about the Euclidean remainder near the range [0, n).
- `InfiniteCarousel.dfy` (module `InfiniteCarousel`) holds the following:
  - the shipped image ring (`SourceImages`);
  - the pure index updates `Next` and `Prev`, as the handlers compute them;
  - a reference window `Window`, defined with the Euclidean remainder;
  - the class `Carousel`, with the `currentIndex` field and the methods
    `VisibleImages`, `HandleNext` and `HandlePrev`;
  - the lemmas about all of these.

`VisibleImages` builds the window with the source's loop and its two
corrections. It is proved equal to `Window`. The lemmas about `Window`, `Next`
and `Prev` then state what the component promises: every index stays in range,
the centre entry is the current image, the keys are distinct, next and
previous are inverses, n presses of next make a full cycle, and the window
slides by one entry per press.

The image ring is generic: any non-empty `seq<string>` can be used, and
`SourceImages` holds the nine URLs the component ships with. The window's
range guarantee needs at least 2 images, because the two corrections only
undo an offset no larger than the ring. The five keys are distinct exactly
when the ring has at least 5 images (`WindowIndicesDistinct` and
`WindowIndicesCollideOnSmallRing`). The shipped ring has 9.

## Model

| member | source | states |
|---|---|---|
| JsRemainder.Rem | src/components/InfiniteCarousel.tsx:34 | JavaScript `%` with a positive divisor: the result lies strictly between -n and n, takes the sign of the dividend and differs from the dividend by a multiple of n; for a non-negative dividend it equals the Euclidean remainder |
| JsRemainder.RemUnique | src/components/InfiniteCarousel.tsx:34 | bound, sign and congruence determine the remainder: any value meeting all three equals JavaScript's `a % n` |
| JsRemainder.RemDiffersFromModOnNegative | src/components/InfiniteCarousel.tsx:38 | for n >= 2, JavaScript gives `-1 % n == -1` where the Euclidean remainder is n - 1, which is why the decrement adds n before `%` |
| JsRemainder.ModNearRange | src/components/InfiniteCarousel.tsx:25-27 | for -n <= x < 2n, the two one-step corrections (add n if negative, subtract n if at least n) give exactly the Euclidean remainder of x |
| InfiniteCarousel.Next | src/components/InfiniteCarousel.tsx:33-35 | for an index in [0, n), `(i + 1) % n` stays in [0, n) and is i + 1, except that n - 1 wraps to 0 |
| InfiniteCarousel.Prev | src/components/InfiniteCarousel.tsx:37-39 | for an index in [0, n), `(i - 1 + n) % n` stays in [0, n) and is i - 1, except that 0 wraps to n - 1 |
| InfiniteCarousel.Carousel.constructor | src/components/InfiniteCarousel.tsx:20 | a mounted carousel has a non-empty ring and `currentIndex == 0` |
| InfiniteCarousel.Carousel.VisibleImages | src/components/InfiniteCarousel.tsx:22-31 | the loop returns exactly 5 entries, one per offset -2..+2 in order; entry k has index (currentIndex + k - 2) mod N in [0, N) and the image at that index; entry 2 is the current image; with N >= 5 the five indices are pairwise distinct |
| InfiniteCarousel.Carousel.HandleNext | src/components/InfiniteCarousel.tsx:33-35 | the next handler sets `currentIndex` to `Next` of its old value and keeps it in [0, N) |
| InfiniteCarousel.Carousel.HandlePrev | src/components/InfiniteCarousel.tsx:37-39 | the previous handler sets `currentIndex` to `Prev` of its old value and keeps it in [0, N) |
| InfiniteCarousel.NextPrevInverse | src/components/InfiniteCarousel.tsx:34-38 | on [0, n), next followed by previous restores the index, and so does previous followed by next |
| InfiniteCarousel.NextRepeatedIsShift | src/components/InfiniteCarousel.tsx:34 | k presses of next from i land on (i + k) mod n |
| InfiniteCarousel.NextFullCycle | src/components/InfiniteCarousel.tsx:34 | n presses of next return to the starting index |
| InfiniteCarousel.NextReachesEveryIndex | src/components/InfiniteCarousel.tsx:34 | every index t is reached from every index i by (t - i) mod n < n presses of next |
| InfiniteCarousel.WindowIndicesDistinct | src/components/InfiniteCarousel.tsx:45-47 | with at least 5 images, the five window indices used as element keys are pairwise distinct |
| InfiniteCarousel.WindowIndicesCollideOnSmallRing | src/components/InfiniteCarousel.tsx:22-31 | with 1 to 4 images, two of the five window entries share an index for every current index, so the keys used at line 47 are distinct only on rings of at least 5 images |
| InfiniteCarousel.WindowAfterNext | src/components/InfiniteCarousel.tsx:22-35 | after next, the first four window entries are the last four entries of the previous window |
| InfiniteCarousel.WindowAfterPrev | src/components/InfiniteCarousel.tsx:22-39 | after previous, the last four window entries are the first four entries of the previous window |
| InfiniteCarousel.SourceRingScenario | src/components/InfiniteCarousel.tsx:7-17 | the shipped ring has 9 images; at start the window shows indices 7, 8, 0, 1, 2; after next it shows 8, 0, 1, 2, 3; previous from 0 gives 8 |

## Left out

- Rendering: the JSX markup, class names, per-position translation and stacking, the `<img>` attributes and alt text, and the `Button` and icon components. These are presentation and calls into libraries that are not part of this model.
- React state mechanics: `useState`, functional updates and re-rendering. `currentIndex` is a plain field that `HandleNext` and `HandlePrev` overwrite.
- Image contents: the URLs are opaque strings, and nothing is fetched.
- Jump-to-index by thumbnail and the image preload gate (`imagesLoaded`): the component as written has neither feature. The preload is asynchronous I/O in any case.
- The page that mounts the component (src/pages/Index.tsx) has no logic.
- Number representation: JavaScript numbers are doubles. The indices here are small integers, so they are modelled as unbounded `int`.
- InfiniteCarousel.Next: says nothing about an index outside [0, n), because the component's state never leaves that range.
- InfiniteCarousel.Prev: says nothing about an index outside [0, n), for the same reason.
