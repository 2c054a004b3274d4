/** The swipe gallery: a cyclic index into a fixed, non-empty list of images,
    advanced by one on every tap and wrapping to the first image after the last. */
module Gallery {

  /** The updater `(prev + 1) % images.length`. Both operands are non-negative
      here, where JavaScript's truncating `%` and Dafny's Euclidean `%` agree. */
  function Next(index: nat, length: nat): (r: nat)
    requires length >= 1
    ensures r < length
    ensures index + 1 < length ==> r == index + 1
    ensures index + 1 == length ==> r == 0
  {
    (index + 1) % length
  }

  /** The index after `clicks` taps on a freshly mounted gallery (it starts at 0). */
  function IndexAfter(clicks: nat, length: nat): (r: nat)
    requires length >= 1
    ensures r < length
  {
    if clicks == 0 then 0 else Next(IndexAfter(clicks - 1, length), length)
  }

  /** A non-zero multiple of `n` is at least `n` away from zero. */
  lemma {:induction false} MultipleAtLeast(d: nat, n: nat)
    requires d >= 1
    ensures d * n >= n
  {
    if d > 1 {
      MultipleAtLeast(d - 1, n);
      assert d * n == (d - 1) * n + n;
    }
  }

  /** `q * n + m` with `m < n` has quotient `q` and remainder `m`. */
  lemma ModOfSplit(q: nat, m: nat, n: nat)
    requires n >= 1 && m < n
    ensures (q * n + m) / n == q
    ensures (q * n + m) % n == m
  {
    var x := q * n + m;
    var q', m' := x / n, x % n;
    assert q' * n + m' == q * n + m;
    if q' < q {
      MultipleAtLeast(q - q', n);
      assert false;
    } else if q' > q {
      MultipleAtLeast(q' - q, n);
      assert false;
    }
  }

  /** Advancing a remainder by one and reducing again is the remainder of the successor. */
  lemma ModSucc(x: nat, n: nat)
    requires n >= 1
    ensures (x % n + 1) % n == (x + 1) % n
  {
    var q, m := x / n, x % n;
    assert x == q * n + m;
    if m + 1 < n {
      ModOfSplit(0, m + 1, n);
      ModOfSplit(q, m + 1, n);
    } else {
      assert x + 1 == (q + 1) * n + 0;
      ModOfSplit(1, 0, n);
      ModOfSplit(q + 1, 0, n);
    }
  }

  /** After `k` taps the gallery shows image `k mod n`. */
  lemma {:induction false} IndexAfterIsMod(clicks: nat, length: nat)
    requires length >= 1
    ensures IndexAfter(clicks, length) == clicks % length
  {
    if clicks == 0 {
      ModOfSplit(0, 0, length);
    } else {
      IndexAfterIsMod(clicks - 1, length);
      ModSucc(clicks - 1, length);
    }
  }

  /** Adding `n` does not change the remainder modulo `n`. */
  lemma ModAddPeriod(x: nat, n: nat)
    requires n >= 1
    ensures (x + n) % n == x % n
  {
    var q, m := x / n, x % n;
    assert x + n == (q + 1) * n + m;
    ModOfSplit(q + 1, m, n);
  }

  /** The shown indices repeat with period `n`: the gallery restarts after
      every full round. */
  lemma Periodic(clicks: nat, length: nat)
    requires length >= 1
    ensures IndexAfter(clicks + length, length) == IndexAfter(clicks, length)
  {
    IndexAfterIsMod(clicks, length);
    IndexAfterIsMod(clicks + length, length);
    ModAddPeriod(clicks, length);
  }

  /** The first round visits 0, 1, ..., n - 1 in order, so every image is shown. */
  lemma FirstRoundVisitsEach(clicks: nat, length: nat)
    requires clicks < length
    ensures IndexAfter(clicks, length) == clicks
  {
    IndexAfterIsMod(clicks, length);
    ModOfSplit(0, clicks, length);
  }

  /** The counter badge `{index + 1} / {images.length}`. */
  datatype CounterLabel = CounterLabel(position: nat, total: nat)

  /** The badge for a given index: a position in 1..n that identifies the image. */
  function Counter(index: nat, length: nat): (c: CounterLabel)
    requires index < length
    ensures 1 <= c.position <= c.total == length
    ensures c.position - 1 == index
  {
    CounterLabel(index + 1, length)
  }

  /** The counter badge tells shown images apart: distinct indices, distinct badges. */
  lemma CounterDistinguishes(i: nat, j: nat, length: nat)
    requires i < length && j < length
    ensures Counter(i, length) == Counter(j, length) <==> i == j
  {
  }

  /** The gallery widget. `clicks` is the number of taps since it was mounted;
      the index it holds is always the one those taps lead to. */
  class SwipeGallery {
    const images: seq<string>
    var index: nat
    ghost var clicks: nat

    ghost predicate Valid()
      reads this
    {
      |images| >= 1 && index == IndexAfter(clicks, |images|)
    }

    constructor (images: seq<string>)
      requires |images| >= 1
      ensures Valid() && this.images == images
      ensures index == 0 && clicks == 0
    {
      this.images := images;
      index := 0;
      clicks := 0;
    }

    /** A tap on the gallery. */
    method NextImage()
      requires Valid()
      modifies this
      ensures Valid()
      ensures clicks == old(clicks) + 1
      ensures index == Next(old(index), |images|)
      ensures index == clicks % |images|
    {
      index := Next(index, |images|);
      clicks := clicks + 1;
      IndexAfterIsMod(clicks, |images|);
    }

    /** The image source shown, `images[index]`: after `k` taps, image `k mod n`. */
    function CurrentImage(): (src: string)
      reads this
      requires Valid()
      ensures src in images
      ensures src == images[clicks % |images|]
    {
      IndexAfterIsMod(clicks, |images|);
      images[index]
    }

    /** The counter badge: after `k` taps it reads `(k mod n) + 1` out of `n`. */
    function Badge(): (c: CounterLabel)
      reads this
      requires Valid()
      ensures 1 <= c.position <= c.total == |images|
      ensures c.position == clicks % |images| + 1
    {
      IndexAfterIsMod(clicks, |images|);
      Counter(index, |images|)
    }
  }

  /** A JavaScript number as far as the gallery's updater can produce one:
      a non-negative integer, or NaN. */
  datatype JsNumber = Finite(value: nat) | NaN

  /** `(prev + 1) % images.length` as written, with no guard for an empty list:
      in JavaScript `x % 0` is NaN, and NaN stays NaN under `+ 1` and `%`. */
  function NextAsWritten(prev: JsNumber, length: nat): (r: JsNumber)
    ensures r.NaN? <==> prev.NaN? || length == 0
    ensures r.Finite? ==> r.value < length
    ensures prev.Finite? && length >= 1 ==> r == Finite(Next(prev.value, length))
  {
    match prev
    case NaN => NaN
    case Finite(v) => if length == 0 then NaN else Finite((v + 1) % length)
  }

  /** The index after `clicks` taps under the unguarded updater. */
  function IndexAfterAsWritten(clicks: nat, length: nat): (r: JsNumber)
    ensures r.NaN? ==> length == 0
    ensures length >= 1 ==> r.Finite? && r.value < length
  {
    if clicks == 0 then Finite(0) else NextAsWritten(IndexAfterAsWritten(clicks - 1, length), length)
  }

  /** On an empty image list the first tap turns the index into NaN for good. */
  lemma {:induction false} EmptyGalleryIndexBecomesNaN(clicks: nat)
    requires clicks >= 1
    ensures IndexAfterAsWritten(clicks, 0) == NaN
  {
    if clicks > 1 {
      EmptyGalleryIndexBecomesNaN(clicks - 1);
    }
  }

  /** On a non-empty list the unguarded updater and the modelled one agree. */
  lemma {:induction false} AsWrittenAgreesWhenNonEmpty(clicks: nat, length: nat)
    requires length >= 1
    ensures IndexAfterAsWritten(clicks, length) == Finite(IndexAfter(clicks, length))
  {
    if clicks > 0 {
      AsWrittenAgreesWhenNonEmpty(clicks - 1, length);
    }
  }
}
