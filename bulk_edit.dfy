/** The bulk overlay edits of components/StoryGenerator.tsx: the handlers that
    copy the page list and then, in a `forEach` over a set of page indices,
    overwrite `newPages[index]` with an edited copy of that page: adding the
    default white box, appending a sticker, merging text-extraction results
    and copying the first selected page's box to the other selected pages.

    An index that is no longer inside the list (the selection is not adjusted
    when a page is deleted) either makes the handler throw before anything is
    stored, or makes it write a record past the end of the list; the two are
    told apart below. */
module BulkEdit {
  import opened Base
  import opened Pages
  import Selection

  /** What a bulk edit leaves behind. */
  datatype Commit =
    | Applied(pages: seq<Page>)  // the edited copy is stored as the new page list
    | Refused(reason: Failure)   // a guard set an error message; the pages are unchanged
    | Aborted                    // a TypeError ended the handler before anything was stored
    | Corrupted                  // a record was written past the end of the list

  /** The `forEach` over `items`, from the `j`-th on: the page at `at(item)` is
      replaced by `f(page, item)`; an item whose page does not exist ends the
      loop with `stale`. */
  function EachFrom<T>(pages: seq<Page>, items: seq<T>, at: T -> nat, f: (Page, T) -> Page,
                       stale: Commit, j: nat): Commit
    decreases |items| - j
  {
    if j >= |items| then Applied(pages)
    else if at(items[j]) >= |pages| then stale
    else
      var k := at(items[j]);
      EachFrom(pages[k := f(pages[k], items[j])], items, at, f, stale, j + 1)
  }

  function Each<T>(pages: seq<Page>, items: seq<T>, at: T -> nat, f: (Page, T) -> Page,
                   stale: Commit): Commit
  {
    EachFrom(pages, items, at, f, stale, 0)
  }

  /** The loop the handlers run over their copy of the page list. */
  method ForEach<T>(pages: seq<Page>, items: seq<T>, at: T -> nat, f: (Page, T) -> Page,
                    stale: Commit) returns (c: Commit)
    ensures c == Each(pages, items, at, f, stale)
  {
    var newPages := pages;
    var j := 0;
    while j < |items|
      invariant j <= |items|
      invariant EachFrom(newPages, items, at, f, stale, j) == Each(pages, items, at, f, stale)
    {
      var k := at(items[j]);
      if k >= |newPages| {
        return stale;
      }
      newPages := newPages[k := f(newPages[k], items[j])];
      j := j + 1;
    }
    return Applied(newPages);
  }

  /** The loop completes exactly when every item's page exists; otherwise the
      outcome is the one for a missing page. */
  lemma {:induction false} EachFromStale<T>(q: seq<Page>, items: seq<T>, at: T -> nat,
                                            f: (Page, T) -> Page, stale: Commit, j: nat)
    requires j <= |items| && !stale.Applied?
    ensures EachFrom(q, items, at, f, stale, j).Applied? <==>
      forall m | j <= m < |items| :: at(items[m]) < |q|
    ensures !EachFrom(q, items, at, f, stale, j).Applied? ==> EachFrom(q, items, at, f, stale, j) == stale
    decreases |items| - j
  {
    if j < |items| && at(items[j]) < |q| {
      var k := at(items[j]);
      EachFromStale(q[k := f(q[k], items[j])], items, at, f, stale, j + 1);
    }
  }

  /** When every item's page exists and no two items name the same page, each
      named page is edited once, from its old value, and every other page is
      kept. */
  lemma {:induction false} EachFromApplied<T>(q: seq<Page>, items: seq<T>, at: T -> nat,
                                              f: (Page, T) -> Page, stale: Commit, j: nat)
    requires j <= |items|
    requires forall m | j <= m < |items| :: at(items[m]) < |q|
    requires forall m, n | j <= m < n < |items| :: at(items[m]) != at(items[n])
    ensures EachFrom(q, items, at, f, stale, j).Applied?
    ensures var r := EachFrom(q, items, at, f, stale, j).pages;
      && |r| == |q|
      && (forall m | j <= m < |items| :: r[at(items[m])] == f(q[at(items[m])], items[m]))
      && (forall k | 0 <= k < |q| && (forall m | j <= m < |items| :: at(items[m]) != k) :: r[k] == q[k])
    decreases |items| - j
  {
    if j < |items| {
      var k := at(items[j]);
      var q' := q[k := f(q[k], items[j])];
      EachFromApplied(q', items, at, f, stale, j + 1);
      var r := EachFrom(q, items, at, f, stale, j).pages;
      assert r == EachFrom(q', items, at, f, stale, j + 1).pages;
      forall m | j <= m < |items|
        ensures r[at(items[m])] == f(q[at(items[m])], items[m])
      {
        if m == j {
          assert forall n | j + 1 <= n < |items| :: at(items[n]) != k;
        }
      }
    }
  }

  lemma EachApplied<T>(pages: seq<Page>, items: seq<T>, at: T -> nat, f: (Page, T) -> Page, stale: Commit)
    requires forall m | 0 <= m < |items| :: at(items[m]) < |pages|
    requires forall m, n | 0 <= m < n < |items| :: at(items[m]) != at(items[n])
    ensures Each(pages, items, at, f, stale).Applied?
    ensures var r := Each(pages, items, at, f, stale).pages;
      && |r| == |pages|
      && (forall m | 0 <= m < |items| :: r[at(items[m])] == f(pages[at(items[m])], items[m]))
      && (forall k | 0 <= k < |pages| && (forall m | 0 <= m < |items| :: at(items[m]) != k) :: r[k] == pages[k])
  {
    EachFromApplied(pages, items, at, f, stale, 0);
  }

  lemma EachStale<T>(pages: seq<Page>, items: seq<T>, at: T -> nat, f: (Page, T) -> Page, stale: Commit)
    requires !stale.Applied?
    ensures Each(pages, items, at, f, stale).Applied? <==> forall m | 0 <= m < |items| :: at(items[m]) < |pages|
    ensures !Each(pages, items, at, f, stale).Applied? ==> Each(pages, items, at, f, stale) == stale
  {
    EachFromStale(pages, items, at, f, stale, 0);
  }

  /** An edit that keeps every page's id keeps the list of ids. */
  lemma {:induction false} EachFromKeepsIds<T>(q: seq<Page>, items: seq<T>, at: T -> nat,
                                               f: (Page, T) -> Page, stale: Commit, j: nat)
    requires j <= |items|
    requires forall p, t :: f(p, t).id == p.id
    requires EachFrom(q, items, at, f, stale, j).Applied?
    requires !stale.Applied?
    ensures Ids(EachFrom(q, items, at, f, stale, j).pages) == Ids(q)
    decreases |items| - j
  {
    if j < |items| {
      var k := at(items[j]);
      var q' := q[k := f(q[k], items[j])];
      EachFromKeepsIds(q', items, at, f, stale, j + 1);
      assert Ids(q') == Ids(q);
    }
  }

  function Itself(k: nat): nat {
    k
  }

  // ---------------------------------------------------------------------
  // Adding the default white box

  /** A page without a box gets the default one; a page with a box keeps it. */
  function WithBox(p: Page): (r: Page)
    ensures r.whiteBox.Some?
    ensures p.whiteBox.Some? ==> r == p
    ensures p.whiteBox.None? ==> r == p.(whiteBox := Some(DefaultBox()))
  {
    if p.whiteBox.None? then p.(whiteBox := Some(DefaultBox())) else p
  }

  function BoxStep(p: Page, k: nat): Page {
    WithBox(p)
  }

  /** `handleAddWhiteBox`. */
  function BoxesAdded(pages: seq<Page>, sel: seq<nat>): Commit {
    if |sel| == 0 then Refused(NoPageForBox)
    else Each(pages, sel, Itself, BoxStep, Aborted)
  }

  method AddDefaultBoxes(pages: seq<Page>, sel: seq<nat>) returns (c: Commit)
    ensures c == BoxesAdded(pages, sel)
  {
    if |sel| == 0 {
      return Refused(NoPageForBox);
    }
    c := ForEach(pages, sel, Itself, BoxStep, Aborted);
  }

  /** With nothing selected the action is refused; with a selected page that
      does not exist it aborts; otherwise every selected page has a box (its
      own if it had one, the default one otherwise) and every other page is
      unchanged. */
  lemma BoxesAddedSpec(pages: seq<Page>, sel: seq<nat>)
    requires Distinct(sel)
    ensures |sel| == 0 ==> BoxesAdded(pages, sel) == Refused(NoPageForBox)
    ensures |sel| > 0 && (exists k | k in sel :: k >= |pages|) ==> BoxesAdded(pages, sel) == Aborted
    ensures |sel| > 0 && (forall k | k in sel :: k < |pages|) ==>
      && BoxesAdded(pages, sel).Applied?
      && var r := BoxesAdded(pages, sel).pages;
      && |r| == |pages|
      && (forall k | 0 <= k < |pages| :: r[k] == if k in sel then WithBox(pages[k]) else pages[k])
  {
    if |sel| > 0 {
      assert forall m | 0 <= m < |sel| :: Itself(sel[m]) == sel[m] && sel[m] in sel;
      EachStale(pages, sel, Itself, BoxStep, Aborted);
      if forall k | k in sel :: k < |pages| {
        EachApplied(pages, sel, Itself, BoxStep, Aborted);
        var r := BoxesAdded(pages, sel).pages;
        forall k | 0 <= k < |pages|
          ensures r[k] == if k in sel then WithBox(pages[k]) else pages[k]
        {
          if k in sel {
            var m :| 0 <= m < |sel| && sel[m] == k;
            assert Itself(sel[m]) == k;
          }
        }
      }
    }
  }

  /** Adding the boxes a second time changes nothing. */
  lemma BoxesAddedIdempotent(pages: seq<Page>, sel: seq<nat>)
    requires Distinct(sel)
    requires BoxesAdded(pages, sel).Applied?
    ensures BoxesAdded(BoxesAdded(pages, sel).pages, sel) == BoxesAdded(pages, sel)
  {
    var r := BoxesAdded(pages, sel).pages;
    BoxesAddedSpec(pages, sel);
    BoxesAddedSpec(r, sel);
    var r2 := BoxesAdded(r, sel).pages;
    assert forall k | 0 <= k < |r| :: r2[k] == r[k];
  }

  // ---------------------------------------------------------------------
  // Adding a sticker

  /** The sticker the editor places: 40% in from the top-left corner, 20% wide
      and high, so it lies inside the page; it carries the given id and image. */
  function NewSticker(id: string, src: string): (s: Sticker)
    ensures s.id == id && s.src == src
    ensures 0.0 <= s.x && 0.0 < s.width && s.x + s.width <= 100.0
    ensures 0.0 <= s.y && 0.0 < s.height && s.y + s.height <= 100.0
  {
    Sticker(id, src, 40.0, 40.0, 20.0, 20.0)
  }

  /** The page with `s` appended to its stickers (a missing list counts as empty). */
  function WithSticker(p: Page, s: Sticker): (r: Page)
    ensures r.stickers == Some(StickerList(p.stickers) + [s])
    ensures r == p.(stickers := r.stickers)
  {
    p.(stickers := Some(StickerList(p.stickers) + [s]))
  }

  /** A target page together with the fresh id its new sticker receives. */
  datatype Placement = Placement(index: nat, id: string)

  function PlacementIndex(t: Placement): nat {
    t.index
  }

  function StickerStep(src: string): (Page, Placement) -> Page {
    (p: Page, t: Placement) => WithSticker(p, NewSticker(t.id, src))
  }

  /** The targets, in order, paired with the ids the editor generates for them. */
  function Placements(targets: seq<nat>, ids: seq<string>): (ts: seq<Placement>)
    requires |ids| == |targets|
    ensures |ts| == |targets| && forall j | 0 <= j < |targets| :: ts[j] == Placement(targets[j], ids[j])
  {
    seq(|targets|, j requires 0 <= j < |targets| => Placement(targets[j], ids[j]))
  }

  /** The pages a sticker goes to: every page, or the selection. */
  function StickerTargets(n: nat, sel: seq<nat>, applyToAll: bool): seq<nat> {
    if applyToAll then Selection.SelectAll(n) else sel
  }

  /** `handleAddSticker`, the j-th target's sticker getting `ids[j]`. */
  function StickersAdded(pages: seq<Page>, targets: seq<nat>, ids: seq<string>, src: string): Commit
    requires |ids| == |targets|
  {
    if |targets| == 0 then Refused(NoPageForSticker)
    else Each(pages, Placements(targets, ids), PlacementIndex, StickerStep(src), Aborted)
  }

  method AddStickers(pages: seq<Page>, targets: seq<nat>, ids: seq<string>, src: string) returns (c: Commit)
    requires |ids| == |targets|
    ensures c == StickersAdded(pages, targets, ids, src)
  {
    if |targets| == 0 {
      return Refused(NoPageForSticker);
    }
    c := ForEach(pages, Placements(targets, ids), PlacementIndex, StickerStep(src), Aborted);
  }

  /** With no target the action is refused; with a target page that does not
      exist it aborts; otherwise each target page gets exactly one new sticker,
      at the end of its list, with its own fresh id, and nothing else changes. */
  lemma StickersAddedSpec(pages: seq<Page>, targets: seq<nat>, ids: seq<string>, src: string)
    requires Distinct(targets) && |ids| == |targets|
    ensures |targets| == 0 ==> StickersAdded(pages, targets, ids, src) == Refused(NoPageForSticker)
    ensures |targets| > 0 && (exists k | k in targets :: k >= |pages|) ==>
      StickersAdded(pages, targets, ids, src) == Aborted
    ensures |targets| > 0 && (forall k | k in targets :: k < |pages|) ==>
      && StickersAdded(pages, targets, ids, src).Applied?
      && var r := StickersAdded(pages, targets, ids, src).pages;
      && |r| == |pages|
      && (forall j | 0 <= j < |targets| ::
            targets[j] < |r| && r[targets[j]] == WithSticker(pages[targets[j]], NewSticker(ids[j], src)))
      && (forall k | 0 <= k < |pages| && k !in targets :: r[k] == pages[k])
  {
    if |targets| > 0 {
      var ts := Placements(targets, ids);
      assert forall j | 0 <= j < |ts| :: PlacementIndex(ts[j]) == targets[j] && targets[j] in targets;
      EachStale(pages, ts, PlacementIndex, StickerStep(src), Aborted);
      if forall k | k in targets :: k < |pages| {
        EachApplied(pages, ts, PlacementIndex, StickerStep(src), Aborted);
      }
    }
  }

  /** Applied to all, the sticker goes to every page, and only an empty story
      refuses it. */
  lemma StickerOnEveryPage(pages: seq<Page>, sel: seq<nat>, ids: seq<string>, src: string)
    requires |ids| == |pages|
    ensures var targets := StickerTargets(|pages|, sel, true);
      && |targets| == |pages|
      && (|pages| == 0 ==> StickersAdded(pages, targets, ids, src) == Refused(NoPageForSticker))
      && (|pages| > 0 ==>
            && StickersAdded(pages, targets, ids, src).Applied?
            && var r := StickersAdded(pages, targets, ids, src).pages;
            && |r| == |pages|
            && forall k | 0 <= k < |pages| :: r[k] == WithSticker(pages[k], NewSticker(ids[k], src)))
  {
    var targets := StickerTargets(|pages|, sel, true);
    StickersAddedSpec(pages, targets, ids, src);
    if |pages| > 0 {
      assert forall k | 0 <= k < |pages| :: targets[k] == k;
    }
  }

  // ---------------------------------------------------------------------
  // Merging text-extraction results

  /** What one page's extraction reported, with the page index captured when
      the extraction started. */
  datatype ExtractionResult = ExtractionResult(index: nat, success: bool, text: string)

  function ResultIndex(r: ExtractionResult): nat {
    r.index
  }

  /** The result one extraction attempt yields: the text it read, or the
      failure message behind an "error: " prefix. */
  function Attempted(index: nat, outcome: Result<string, string>): (r: ExtractionResult)
    ensures r.index == index && (r.success <==> outcome.Ok?)
    ensures outcome.Ok? ==> r.text == outcome.value
    ensures outcome.Err? ==> r.text == ErrorPrefix + outcome.error
  {
    match outcome
    case Ok(text) => ExtractionResult(index, true, text)
    case Err(message) => ExtractionResult(index, false, ErrorPrefix + message)
  }

  /** The results of the extractions started for the selected pages, in
      selection order, given what each one reported. */
  function Attempts(sel: seq<nat>, outcomes: seq<Result<string, string>>): (rs: seq<ExtractionResult>)
    requires |outcomes| == |sel|
    ensures |rs| == |sel| && forall j | 0 <= j < |sel| :: rs[j] == Attempted(sel[j], outcomes[j]) && rs[j].index == sel[j]
  {
    seq(|sel|, j requires 0 <= j < |sel| => Attempted(sel[j], outcomes[j]))
  }

  /** The Arabic word for "error" followed by a colon and a space. */
  const ErrorPrefix: string := "\U{062E}\U{0637}\U{0623}: "

  /** A success puts the text in the page's box (the default box when it has
      none) and clears the text under the page; a failure shows the message
      under the page and leaves the box alone. */
  function Merged(p: Page, r: ExtractionResult): (q: Page)
    ensures r.success ==> q == p.(whiteBox := q.whiteBox, extractedText := None)
    ensures r.success ==> q.whiteBox == Some(p.whiteBox.GetOr(DefaultBox()).(text := r.text))
    ensures !r.success ==> q == p.(extractedText := Some(r.text))
  {
    if r.success then
      p.(whiteBox := Some(p.whiteBox.GetOr(DefaultBox()).(text := r.text)), extractedText := None)
    else
      p.(extractedText := Some(r.text))
  }

  /** The state updater of `handleExtractTextForAllSelected`. */
  function ResultsMerged(pages: seq<Page>, results: seq<ExtractionResult>): Commit {
    Each(pages, results, ResultIndex, Merged, Corrupted)
  }

  method MergeExtraction(pages: seq<Page>, results: seq<ExtractionResult>) returns (c: Commit)
    ensures c == ResultsMerged(pages, results)
  {
    c := ForEach(pages, results, ResultIndex, Merged, Corrupted);
  }

  /** Results for distinct existing pages are merged each into its own page,
      addressed by the captured index; any result for a page index that no
      longer exists corrupts the list. */
  lemma ResultsMergedSpec(pages: seq<Page>, results: seq<ExtractionResult>)
    requires forall m, n | 0 <= m < n < |results| :: results[m].index != results[n].index
    ensures ResultsMerged(pages, results).Applied? <==> forall m | 0 <= m < |results| :: results[m].index < |pages|
    ensures !ResultsMerged(pages, results).Applied? ==> ResultsMerged(pages, results) == Corrupted
    ensures ResultsMerged(pages, results).Applied? ==>
      var r := ResultsMerged(pages, results).pages;
      && |r| == |pages|
      && (forall m | 0 <= m < |results| :: r[results[m].index] == Merged(pages[results[m].index], results[m]))
      && (forall k | 0 <= k < |pages| && (forall m | 0 <= m < |results| :: results[m].index != k) :: r[k] == pages[k])
  {
    assert forall m | 0 <= m < |results| :: ResultIndex(results[m]) == results[m].index;
    EachStale(pages, results, ResultIndex, Merged, Corrupted);
    if ResultsMerged(pages, results).Applied? {
      EachApplied(pages, results, ResultIndex, Merged, Corrupted);
    }
  }

  // ---------------------------------------------------------------------
  // Copying the source page's box

  /** Every page but the source gets its own copy of `box`. */
  function StyleStep(source: nat, box: WhiteBox): (Page, nat) -> Page {
    (p: Page, k: nat) => if k == source then p else p.(whiteBox := Some(box))
  }

  /** `handleApplyStyles`: the source is the selection's first element in
      insertion order. */
  function StylesApplied(pages: seq<Page>, sel: seq<nat>): Commit {
    if |sel| < 2 then Refused(TooFewForStyles)
    else if sel[0] >= |pages| then Aborted
    else if pages[sel[0]].whiteBox.None? then Refused(SourceWithoutBox(sel[0]))
    else Each(pages, sel, Itself, StyleStep(sel[0], pages[sel[0]].whiteBox.value), Corrupted)
  }

  method ApplyStyles(pages: seq<Page>, sel: seq<nat>) returns (c: Commit)
    ensures c == StylesApplied(pages, sel)
  {
    if |sel| < 2 {
      return Refused(TooFewForStyles);
    }
    var source := sel[0];
    if source >= |pages| {
      return Aborted;
    }
    if pages[source].whiteBox.None? {
      return Refused(SourceWithoutBox(source));
    }
    c := ForEach(pages, sel, Itself, StyleStep(source, pages[source].whiteBox.value), Corrupted);
  }

  /** The copy is refused with fewer than two selected pages or a source
      without a box; a missing source aborts and a missing target corrupts the
      list; otherwise every other selected page's box becomes the source's box,
      text included, and the source and the unselected pages are unchanged. */
  lemma StylesAppliedSpec(pages: seq<Page>, sel: seq<nat>)
    requires Distinct(sel)
    ensures |sel| < 2 ==> StylesApplied(pages, sel) == Refused(TooFewForStyles)
    ensures |sel| >= 2 && sel[0] >= |pages| ==> StylesApplied(pages, sel) == Aborted
    ensures |sel| >= 2 && sel[0] < |pages| && pages[sel[0]].whiteBox.None? ==>
      StylesApplied(pages, sel) == Refused(SourceWithoutBox(sel[0]))
    ensures |sel| >= 2 && sel[0] < |pages| && pages[sel[0]].whiteBox.Some? ==>
      (StylesApplied(pages, sel).Applied? <==> forall k | k in sel :: k < |pages|)
    ensures |sel| >= 2 && sel[0] < |pages| && pages[sel[0]].whiteBox.Some? && !StylesApplied(pages, sel).Applied? ==>
      StylesApplied(pages, sel) == Corrupted
    ensures StylesApplied(pages, sel).Applied? ==>
      var r := StylesApplied(pages, sel).pages;
      && |sel| >= 2 && |r| == |pages|
      && r[sel[0]] == pages[sel[0]]
      && (forall j | 1 <= j < |sel| :: sel[j] < |r| && r[sel[j]] == pages[sel[j]].(whiteBox := pages[sel[0]].whiteBox))
      && (forall k | 0 <= k < |pages| && k !in sel :: r[k] == pages[k])
  {
    if |sel| >= 2 && sel[0] < |pages| && pages[sel[0]].whiteBox.Some? {
      var f := StyleStep(sel[0], pages[sel[0]].whiteBox.value);
      assert forall m | 0 <= m < |sel| :: Itself(sel[m]) == sel[m] && sel[m] in sel;
      EachStale(pages, sel, Itself, f, Corrupted);
      if forall k | k in sel :: k < |pages| {
        EachApplied(pages, sel, Itself, f, Corrupted);
        var r := StylesApplied(pages, sel).pages;
        assert r[sel[0]] == f(pages[sel[0]], sel[0]);
        forall j | 1 <= j < |sel|
          ensures r[sel[j]] == pages[sel[j]].(whiteBox := pages[sel[0]].whiteBox)
        {
          assert sel[j] != sel[0];
          assert r[sel[j]] == f(pages[sel[j]], sel[j]);
        }
      }
    }
  }

  /** None of the bulk edits changes a page's id. */
  lemma BulkEditsKeepIds(pages: seq<Page>, sel: seq<nat>, targets: seq<nat>, ids: seq<string>, src: string,
                         results: seq<ExtractionResult>)
    requires |ids| == |targets|
    ensures BoxesAdded(pages, sel).Applied? ==> Ids(BoxesAdded(pages, sel).pages) == Ids(pages)
    ensures StickersAdded(pages, targets, ids, src).Applied? ==> Ids(StickersAdded(pages, targets, ids, src).pages) == Ids(pages)
    ensures ResultsMerged(pages, results).Applied? ==> Ids(ResultsMerged(pages, results).pages) == Ids(pages)
    ensures StylesApplied(pages, sel).Applied? ==> Ids(StylesApplied(pages, sel).pages) == Ids(pages)
  {
    if BoxesAdded(pages, sel).Applied? {
      EachFromKeepsIds(pages, sel, Itself, BoxStep, Aborted, 0);
    }
    if StickersAdded(pages, targets, ids, src).Applied? {
      EachFromKeepsIds(pages, Placements(targets, ids), PlacementIndex, StickerStep(src), Aborted, 0);
    }
    if ResultsMerged(pages, results).Applied? {
      EachFromKeepsIds(pages, results, ResultIndex, Merged, Corrupted, 0);
    }
    if StylesApplied(pages, sel).Applied? {
      var f := StyleStep(sel[0], pages[sel[0]].whiteBox.value);
      EachFromKeepsIds(pages, sel, Itself, f, Corrupted, 0);
    }
  }
}
