/** Reordering the page list (components/StoryGenerator.tsx): the
    `filter`-by-index and `splice` primitives the handlers are built from, a
    page moved from one position to another, and the cut/paste index rule.
    Everything here is generic in the element type. */
module PageOrder {
  import opened Base

  /** `s.filter((_, k) => k !== i)`: drops position `i`, if there is one. */
  function Remove<T>(s: seq<T>, i: nat): (r: seq<T>)
    ensures i < |s| ==> |r| == |s| - 1
    ensures i < |s| ==> forall k | 0 <= k < |r| :: r[k] == if k < i then s[k] else s[k + 1]
    ensures i >= |s| ==> r == s
  {
    if i < |s| then s[..i] + s[i + 1..] else s
  }

  /** Where `splice(start, …)` acts in an array of length `len`: a negative
      start counts from the end, and either way it is clamped to [0, len]. */
  function SpliceStart(start: int, len: nat): (p: nat)
    ensures p <= len
    ensures 0 <= start <= len ==> p == start
    ensures start > len ==> p == len
    ensures start < 0 ==> p == if len + start < 0 then 0 else len + start
  {
    if start < 0 then (if len + start < 0 then 0 else len + start)
    else if start > len then len
    else start
  }

  /** `s.splice(start, 0, ...xs)`: the new elements, in their order, start at
      the (clamped) position; the old elements keep their order around them. */
  function InsertAt<T>(s: seq<T>, start: int, xs: seq<T>): (r: seq<T>)
    ensures var p := SpliceStart(start, |s|);
      && |r| == |s| + |xs|
      && r[p..p + |xs|] == xs
      && r[..p] + r[p + |xs|..] == s
  {
    var p := SpliceStart(start, |s|);
    assert s == s[..p] + s[p..];
    var r := s[..p] + xs + s[p..];
    assert r[p..p + |xs|] == xs;
    assert r[..p] == s[..p] && r[p + |xs|..] == s[p..];
    r
  }

  /** The page at `from` taken out and put back in at `to` (a drag reorder,
      or a paste once the index has been adjusted). */
  function Moved<T>(s: seq<T>, from: nat, to: int): seq<T>
    requires from < |s|
  {
    InsertAt(Remove(s, from), to, [s[from]])
  }

  /** The moved element lands at the target (clamped to the last position),
      the others keep their relative order, and the list is a permutation of
      the old one. */
  lemma MovedPlacement<T>(s: seq<T>, from: nat, to: int)
    requires from < |s|
    ensures var r := Moved(s, from, to);
      var p := SpliceStart(to, |s| - 1);
      && |r| == |s|
      && r[p] == s[from]
      && Remove(r, p) == Remove(s, from)
      && multiset(r) == multiset(s)
  {
    MovedAt(s, from, to);
    MovedRest(s, from, to);
    RemoveCount(s, from);
    InsertCount(Remove(s, from), to, [s[from]]);
  }

  lemma MovedAt<T>(s: seq<T>, from: nat, to: int)
    requires from < |s|
    ensures var r := Moved(s, from, to);
      var p := SpliceStart(to, |s| - 1);
      |r| == |s| && r[p] == s[from]
  {
    var r := Moved(s, from, to);
    var p := SpliceStart(to, |s| - 1);
    assert r[p..p + 1] == [s[from]];
  }

  lemma MovedRest<T>(s: seq<T>, from: nat, to: int)
    requires from < |s|
    ensures Remove(Moved(s, from, to), SpliceStart(to, |s| - 1)) == Remove(s, from)
  {
    var r := Moved(s, from, to);
    var p := SpliceStart(to, |s| - 1);
    assert r[..p] + r[p + 1..] == Remove(s, from);
  }

  /** Putting the element back where it was taken from restores the list. */
  lemma InsertRemoved<T>(s: seq<T>, i: nat)
    requires i < |s|
    ensures InsertAt(Remove(s, i), i, [s[i]]) == s
  {
    var rest := Remove(s, i);
    assert rest == s[..i] + s[i + 1..];
    assert rest[..i] == s[..i] && rest[i..] == s[i + 1..];
    assert s == s[..i] + [s[i]] + s[i + 1..];
  }

  /** A move onto its own position changes nothing. */
  lemma MovedSame<T>(s: seq<T>, i: nat)
    requires i < |s|
    ensures Moved(s, i, i) == s
  {
    InsertRemoved(s, i);
  }

  /** Moving back undoes a move. */
  lemma MovedInverse<T>(s: seq<T>, from: nat, to: nat)
    requires from < |s| && to < |s|
    ensures Moved(Moved(s, from, to), to, from) == s
  {
    var r := Moved(s, from, to);
    MovedPlacement(s, from, to);
    assert SpliceStart(to, |s| - 1) == to;
    assert Remove(r, to) == Remove(s, from) && r[to] == s[from];
    InsertRemoved(s, from);
  }

  /** Where a cut page goes back in: once the cut page is out of the list,
      every position after it has moved down by one. */
  function PasteSlot(cut: nat, target: nat): nat {
    if cut < target then target - 1 else target
  }

  /** `handlePastePage`: the cut page removed and re-inserted at the adjusted
      target. */
  function Pasted<T>(s: seq<T>, cut: nat, target: nat): seq<T>
    requires cut < |s|
  {
    Moved(s, cut, PasteSlot(cut, target))
  }

  /** For a target from 0 to the length, the cut page ends up in front of the
      page that was at `target` (or last for the final target), the others
      keep their relative order, and no page is lost or duplicated. */
  lemma PastePlacement<T>(s: seq<T>, cut: nat, target: nat)
    requires cut < |s| && target <= |s|
    ensures var r := Pasted(s, cut, target);
      var p := PasteSlot(cut, target);
      && p < |s|
      && r[p] == s[cut]
      && Remove(r, p) == Remove(s, cut)
      && multiset(r) == multiset(s)
  {
    MovedPlacement(s, cut, PasteSlot(cut, target));
  }

  /** Pasting just before or just after the cut page leaves the order as it was. */
  lemma PasteInPlace<T>(s: seq<T>, cut: nat, target: nat)
    requires cut < |s|
    requires target == cut || target == cut + 1
    ensures Pasted(s, cut, target) == s
  {
    MovedSame(s, cut);
  }

  /** [A, B, C, D] with the third page cut and pasted before the first gives
      [C, A, B, D]. */
  lemma PasteToFrontExample()
    ensures Pasted(['A', 'B', 'C', 'D'], 2, 0) == ['C', 'A', 'B', 'D']
  {
    var s := ['A', 'B', 'C', 'D'];
    assert Remove(s, 2) == ['A', 'B', 'D'];
    assert InsertAt(['A', 'B', 'D'], 0, ['C']) == ['C', 'A', 'B', 'D'];
  }

  /** The paste targets the page list offers while page `cut` of `n` is cut:
      one after every page, and one before the first page only when the first
      page is the one that is cut. */
  function RenderedPasteTargets(n: nat, cut: nat): (ts: seq<nat>)
    ensures forall k | 0 <= k < |ts| :: ts[k] <= n
    ensures 0 in ts <==> cut == 0
  {
    (if cut == 0 then [0] else []) + seq(n, k requires 0 <= k < n => k + 1)
  }

  /** As the targets are offered, a page other than the first can never be
      pasted in front: whichever offered target is used, the first page stays
      first. */
  lemma CannotPasteToFront<T>(s: seq<T>, cut: nat, target: nat)
    requires 0 < cut < |s|
    requires target in RenderedPasteTargets(|s|, cut)
    ensures Pasted(s, cut, target)[0] == s[0]
  {
    PastePlacement(s, cut, target);
    var r := Pasted(s, cut, target);
    var p := PasteSlot(cut, target);
    assert Remove(r, p)[0] == r[0];
    assert Remove(s, cut)[0] == s[0];
  }

  /** The offered paste targets, corrected: one before every page and one
      after the last. */
  function PasteTargets(n: nat): (ts: seq<nat>)
    ensures |ts| == n + 1 && forall k | 0 <= k <= n :: ts[k] == k
  {
    seq(n + 1, k requires 0 <= k <= n => k)
  }

  /** With the corrected targets a cut page can be moved to every position. */
  lemma EveryPositionReachable<T>(s: seq<T>, cut: nat, position: nat)
    requires cut < |s| && position < |s|
    ensures var t := if position < cut then position else position + 1;
      && t <= |s| && PasteTargets(|s|)[t] == t
      && Pasted(s, cut, t)[position] == s[cut]
  {
    var t := if position < cut then position else position + 1;
    assert PasteSlot(cut, t) == position;
    PastePlacement(s, cut, t);
  }

  /** Removing position `i` loses exactly one occurrence of `s[i]`. */
  lemma RemoveCount<T>(s: seq<T>, i: nat)
    requires i < |s|
    ensures multiset(Remove(s, i)) + multiset{s[i]} == multiset(s)
  {
    assert s == s[..i] + [s[i]] + s[i + 1..];
  }

  /** Inserting adds exactly the inserted elements. */
  lemma InsertCount<T>(s: seq<T>, start: int, xs: seq<T>)
    ensures multiset(InsertAt(s, start, xs)) == multiset(s) + multiset(xs)
  {
    var p := SpliceStart(start, |s|);
    assert s == s[..p] + s[p..];
  }

  /** A list without repeated elements keeps that property under a move. */
  lemma MovedDistinct<T>(s: seq<T>, from: nat, to: int)
    requires from < |s| && Distinct(s)
    ensures Distinct(Moved(s, from, to))
  {
    MovedPlacement(s, from, to);
    PermutationDistinct(s, Moved(s, from, to));
  }

  /** Inserting elements that are new and pairwise different keeps a list
      free of repetitions. */
  lemma InsertDistinct<T>(s: seq<T>, start: int, xs: seq<T>)
    requires Distinct(s + xs)
    ensures Distinct(InsertAt(s, start, xs))
  {
    PermutationDistinct(s + xs, InsertAt(s, start, xs));
  }

  /** Removing an element keeps a list free of repetitions. */
  lemma RemoveDistinct<T>(s: seq<T>, i: nat)
    requires Distinct(s)
    ensures Distinct(Remove(s, i))
  {
  }

  lemma PermutationDistinct<T>(s: seq<T>, r: seq<T>)
    requires Distinct(s) && multiset(s) == multiset(r)
    ensures Distinct(r)
  {
    forall i, j | 0 <= i < j < |r|
      ensures r[i] != r[j]
    {
      if r[i] == r[j] {
        TwiceCounted(r, i, j);
        OnceCounted(s, r[i]);
      }
    }
  }

  /** An element found at two positions is counted at least twice. */
  lemma TwiceCounted<T>(r: seq<T>, i: nat, j: nat)
    requires i < j < |r| && r[i] == r[j]
    ensures multiset(r)[r[i]] >= 2
  {
    assert r == r[..j] + r[j..];
    assert r[i] in r[..j] && r[j] in r[j..];
  }

  /** In a list without repetitions every element is counted at most once. */
  lemma OnceCounted<T>(s: seq<T>, x: T)
    requires Distinct(s)
    ensures multiset(s)[x] <= 1
  {
    if x in s {
      var k :| 0 <= k < |s| && s[k] == x;
      assert s == s[..k] + [x] + s[k + 1..];
      assert x !in s[..k] && x !in s[k + 1..];
    }
  }
}
