/** The ranking reveal list: a pointer to the last revealed item, starting
    before the first item and moving forward by one on every tap until the
    last item is revealed. */
module Reveal {

  /** The text a masked item shows instead of its label. */
  const Mask := "???"

  function Min(a: int, b: int): (m: int)
    ensures m <= a && m <= b && (m == a || m == b)
  {
    if a <= b then a else b
  }

  /** `revealNext`: the pointer moves by one only while an item is left to reveal.
      With an empty list `items.length - 1` is -1, so the pointer never moves. */
  function Step(revealedIndex: int, length: nat): (r: int)
    ensures revealedIndex <= r <= revealedIndex + 1
    ensures r != revealedIndex <==> revealedIndex < length - 1
    ensures revealedIndex <= length - 1 ==> r <= length - 1
  {
    if revealedIndex < length - 1 then revealedIndex + 1 else revealedIndex
  }

  /** The pointer after `clicks` taps on a freshly mounted list (it starts at -1). */
  function RevealedAfter(clicks: nat, length: nat): (r: int)
    ensures -1 <= r <= length - 1
  {
    if clicks == 0 then -1 else Step(RevealedAfter(clicks - 1, length), length)
  }

  /** After `k` taps exactly `min(k, n)` items are revealed. */
  lemma {:induction false} RevealedAfterIsMin(clicks: nat, length: nat)
    ensures RevealedAfter(clicks, length) == Min(clicks, length) - 1
  {
    if clicks > 0 {
      RevealedAfterIsMin(clicks - 1, length);
    }
  }

  /** The pointer never moves back: more taps never reveal fewer items. */
  lemma {:induction false} RevealedMonotone(c1: nat, c2: nat, length: nat)
    requires c1 <= c2
    ensures RevealedAfter(c1, length) <= RevealedAfter(c2, length)
  {
    RevealedAfterIsMin(c1, length);
    RevealedAfterIsMin(c2, length);
  }

  /** Once every item is revealed, further taps change nothing. */
  lemma {:induction false} SaturatedIsFixed(clicks: nat, length: nat)
    requires RevealedAfter(clicks, length) == length - 1
    ensures RevealedAfter(clicks + 1, length) == length - 1
    ensures clicks >= length
  {
    RevealedAfterIsMin(clicks, length);
  }

  /** What one rendered row of the list shows: its rank `#idx + 1`, its text
      (the label or the mask), whether it is styled as revealed and carries the
      check mark, and whether it is the highlighted (slightly enlarged) row. */
  datatype ItemView = ItemView(rank: nat, text: string, checked: bool, highlighted: bool)

  /** One row of `items.map(...)`: revealed iff `idx <= revealedIndex`, then
      showing its label, otherwise the mask; the row at `revealedIndex` is highlighted, so only a revealed row is. */
  function ItemAt(item: string, idx: nat, revealedIndex: int): (v: ItemView)
    ensures v.rank == idx + 1
    ensures v.checked <==> idx <= revealedIndex
    ensures v.text == (if v.checked then item else Mask)
    ensures v.highlighted <==> idx == revealedIndex
    ensures v.highlighted ==> v.checked
  {
    var shown := idx <= revealedIndex;
    ItemView(idx + 1, if shown then item else Mask, shown, idx == revealedIndex)
  }

  /** `items.map(...)`: row `idx` is revealed iff `idx <= revealedIndex`; a
      revealed row shows its label and the check mark, any other row the mask;
      the row at `revealedIndex` is the highlighted one. */
  function Render(items: seq<string>, revealedIndex: int): (views: seq<ItemView>)
    ensures |views| == |items|
    ensures forall idx :: 0 <= idx < |items| ==>
      views[idx].rank == idx + 1 &&
      (views[idx].checked <==> idx <= revealedIndex) &&
      views[idx].text == (if idx <= revealedIndex then items[idx] else Mask) &&
      (views[idx].highlighted <==> idx == revealedIndex)
  {
    seq(|items|, idx requires 0 <= idx < |items| => ItemAt(items[idx], idx, revealedIndex))
  }

  /** The number of rows shown as revealed. */
  function CountChecked(views: seq<ItemView>): (count: nat)
    ensures count <= |views|
  {
    if views == [] then 0 else (if views[0].checked then 1 else 0) + CountChecked(views[1..])
  }

  /** When exactly the first `k` rows are revealed, `k` rows are counted. */
  lemma {:induction false} CountCheckedPrefix(views: seq<ItemView>, k: nat)
    requires k <= |views|
    requires forall i :: 0 <= i < |views| ==> (views[i].checked <==> i < k)
    ensures CountChecked(views) == k
  {
    if views != [] {
      CountCheckedPrefix(views[1..], if k == 0 then 0 else k - 1);
    }
  }

  /** In every reachable state the revealed rows are a prefix of the list, of
      length `revealedIndex + 1`. */
  lemma RevealedArePrefix(items: seq<string>, revealedIndex: int)
    requires -1 <= revealedIndex <= |items| - 1
    ensures forall i, j :: 0 <= i <= j < |items| && Render(items, revealedIndex)[j].checked ==>
      Render(items, revealedIndex)[i].checked
    ensures CountChecked(Render(items, revealedIndex)) == revealedIndex + 1
  {
    CountCheckedPrefix(Render(items, revealedIndex), revealedIndex + 1);
  }

  /** The highlighted row is the last revealed one: there is one exactly when
      something is revealed, and it is followed by a masked row or the end. */
  lemma HighlightIsLastRevealed(items: seq<string>, revealedIndex: int)
    requires -1 <= revealedIndex <= |items| - 1
    ensures forall i :: 0 <= i < |items| ==>
      (Render(items, revealedIndex)[i].highlighted <==>
        Render(items, revealedIndex)[i].checked &&
        (i + 1 == |items| || !Render(items, revealedIndex)[i + 1].checked))
    ensures (exists i :: 0 <= i < |items| && Render(items, revealedIndex)[i].highlighted) <==> revealedIndex >= 0
  {
    var views := Render(items, revealedIndex);
    forall i | 0 <= i < |items|
      ensures views[i].highlighted <==> views[i].checked && (i + 1 == |items| || !views[i + 1].checked)
    {
      if i + 1 < |items| {
        assert views[i + 1].checked <==> i + 1 <= revealedIndex;
      }
    }
    if revealedIndex >= 0 {
      assert views[revealedIndex].highlighted;
    }
  }

  /** An effective tap reveals exactly one more row, the next one, leaves every
      other row's revealed state and text as they were, and moves the highlight
      to the newly revealed row; a tap on a fully revealed list changes nothing. */
  lemma RevealNextShowsOneMore(items: seq<string>, revealedIndex: int)
    requires -1 <= revealedIndex <= |items| - 1
    ensures revealedIndex < |items| - 1 ==>
      CountChecked(Render(items, Step(revealedIndex, |items|))) == CountChecked(Render(items, revealedIndex)) + 1 &&
      Render(items, Step(revealedIndex, |items|))[revealedIndex + 1].text == items[revealedIndex + 1] &&
      !Render(items, revealedIndex)[revealedIndex + 1].checked &&
      Render(items, Step(revealedIndex, |items|))[revealedIndex + 1].checked
    ensures forall i :: 0 <= i < |items| && i != revealedIndex + 1 ==>
      Render(items, Step(revealedIndex, |items|))[i].checked == Render(items, revealedIndex)[i].checked &&
      Render(items, Step(revealedIndex, |items|))[i].text == Render(items, revealedIndex)[i].text
    ensures revealedIndex < |items| - 1 ==> forall i :: 0 <= i < |items| ==>
      (Render(items, Step(revealedIndex, |items|))[i].highlighted <==> i == revealedIndex + 1)
    ensures revealedIndex == |items| - 1 ==>
      Render(items, Step(revealedIndex, |items|)) == Render(items, revealedIndex)
  {
    RevealedArePrefix(items, revealedIndex);
    RevealedArePrefix(items, Step(revealedIndex, |items|));
  }

  /** The reveal list widget. `clicks` is the number of taps since it was
      mounted; the pointer it holds is always the one those taps lead to. */
  class RevealList {
    const items: seq<string>
    var revealedIndex: int
    ghost var clicks: nat

    ghost predicate Valid()
      reads this
    {
      revealedIndex == RevealedAfter(clicks, |items|)
    }

    constructor (items: seq<string>)
      ensures Valid() && this.items == items
      ensures revealedIndex == -1 && clicks == 0
    {
      this.items := items;
      revealedIndex := -1;
      clicks := 0;
    }

    /** A tap on any row of the list. */
    method RevealNext()
      requires Valid()
      modifies this
      ensures Valid()
      ensures clicks == old(clicks) + 1
      ensures revealedIndex == Step(old(revealedIndex), |items|)
      ensures revealedIndex == Min(clicks, |items|) - 1
    {
      if revealedIndex < |items| - 1 {
        revealedIndex := revealedIndex + 1;
      }
      clicks := clicks + 1;
      RevealedAfterIsMin(clicks, |items|);
    }

    /** The rendered rows: one per item, the first `min(k, n)` of them revealed
      after `k` taps. */
    function Views(): (views: seq<ItemView>)
      reads this
      requires Valid()
      ensures |views| == |items|
      ensures CountChecked(views) == Min(clicks, |items|)
      ensures forall i :: 0 <= i < |items| ==> (views[i].checked <==> i < clicks)
      ensures forall i :: 0 <= i < |items| ==> views[i].text == (if i < clicks then items[i] else Mask)
      ensures forall i :: 0 <= i < |items| ==> (views[i].highlighted <==> i + 1 == Min(clicks, |items|))
    {
      RevealedAfterIsMin(clicks, |items|);
      RevealedArePrefix(items, revealedIndex);
      Render(items, revealedIndex)
    }
  }
}
