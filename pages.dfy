/** The page records of the story editor (the `StoryPageData`, `WhiteBoxData`
    and `StickerData` interfaces of components/StoryGenerator.tsx), the partial
    update a page applies to itself, and the sticker list edits of
    components/StoryPage.tsx. */
module Pages {
  import opened Base
  import opened Gesture

  /** The white text box laid over a page image; geometry in percent of the page surface. */
  datatype WhiteBox = WhiteBox(x: real, y: real, width: real, height: real, text: string)

  /** A sticker laid over a page image; geometry in percent of the page surface. */
  datatype Sticker = Sticker(id: string, src: string, x: real, y: real, width: real, height: real)

  /** One story page. Optional fields are the ones the record may lack. */
  datatype Page = Page(
    id: string,
    imageUrl: string,
    storyText: string,
    pageTitle: Option<string>,
    pageTitleColor: Option<string>,
    whiteBox: Option<WhiteBox>,
    extractedText: Option<string>,
    stickers: Option<seq<Sticker>>)

  /** The box a page gets when none is present: 10% in, 80% wide, 25% high,
      no text; it lies inside the page. */
  function DefaultBox(): (b: WhiteBox)
    ensures 0.0 <= b.x && 0.0 < b.width && b.x + b.width <= 100.0
    ensures 0.0 <= b.y && 0.0 < b.height && b.y + b.height <= 100.0
    ensures b.text == ""
  {
    WhiteBox(10.0, 10.0, 80.0, 25.0, "")
  }

  /** The messages the editor shows in its error banner, one per guard that
      can refuse an action (the wording itself is not modelled). */
  datatype Failure =
    | TooManyFiles            // more than 100 images in one upload
    | UnsupportedFileType     // an image that is neither JPEG nor PNG
    | MissingStoryText        // saving an edited page whose text is blank
    | NoImages                // adding pages without any image
    | PageLimit(count: nat)   // adding `count` pages would pass 500 pages
    | RuntimeError            // an exception thrown by the runtime while saving
    | NoPageForBox            // adding boxes with nothing selected
    | NoPageForSticker        // adding a sticker with no target page
    | NoPageForExtraction     // extracting text with nothing selected
    | TooFewForStyles         // copying a box with fewer than two pages selected
    | SourceWithoutBox(index: nat)  // the first selected page has no box to copy

  /** A `Partial<StoryPageData>`: the fields it carries overwrite the page's. */
  datatype PageUpdate = PageUpdate(
    id: Option<string>,
    imageUrl: Option<string>,
    storyText: Option<string>,
    pageTitle: Option<string>,
    pageTitleColor: Option<string>,
    whiteBox: Option<WhiteBox>,
    extractedText: Option<string>,
    stickers: Option<seq<Sticker>>)

  /** The update that carries no field. */
  const NoUpdate: PageUpdate := PageUpdate(None, None, None, None, None, None, None, None)

  /** `{ ...page, ...update }`: every field the update carries replaces the
      page's, every other field is kept. */
  function Patched(p: Page, u: PageUpdate): (r: Page)
    ensures r.id == u.id.GetOr(p.id)
    ensures r.imageUrl == u.imageUrl.GetOr(p.imageUrl)
    ensures r.storyText == u.storyText.GetOr(p.storyText)
    ensures u.pageTitle.None? ==> r.pageTitle == p.pageTitle
    ensures u.pageTitleColor.None? ==> r.pageTitleColor == p.pageTitleColor
    ensures u.whiteBox.None? ==> r.whiteBox == p.whiteBox
    ensures u.extractedText.None? ==> r.extractedText == p.extractedText
    ensures u.stickers.None? ==> r.stickers == p.stickers
    ensures u.pageTitle.Some? ==> r.pageTitle == u.pageTitle
    ensures u.pageTitleColor.Some? ==> r.pageTitleColor == u.pageTitleColor
    ensures u.whiteBox.Some? ==> r.whiteBox == u.whiteBox
    ensures u.extractedText.Some? ==> r.extractedText == u.extractedText
    ensures u.stickers.Some? ==> r.stickers == u.stickers
  {
    Page(u.id.GetOr(p.id), u.imageUrl.GetOr(p.imageUrl), u.storyText.GetOr(p.storyText),
         if u.pageTitle.Some? then u.pageTitle else p.pageTitle,
         if u.pageTitleColor.Some? then u.pageTitleColor else p.pageTitleColor,
         if u.whiteBox.Some? then u.whiteBox else p.whiteBox,
         if u.extractedText.Some? then u.extractedText else p.extractedText,
         if u.stickers.Some? then u.stickers else p.stickers)
  }

  /** Spreading an update is idempotent, and an empty update changes nothing. */
  lemma PatchedIdempotent(p: Page, u: PageUpdate)
    ensures Patched(Patched(p, u), u) == Patched(p, u)
    ensures Patched(p, NoUpdate) == p
  {
  }

  /** The ids of the pages, in order. */
  function Ids(pages: seq<Page>): (ids: seq<string>)
    ensures |ids| == |pages| && forall k | 0 <= k < |pages| :: ids[k] == pages[k].id
  {
    seq(|pages|, k requires 0 <= k < |pages| => pages[k].id)
  }

  /** Page ids are React keys: no two pages share one. */
  ghost predicate UniqueIds(pages: seq<Page>) {
    Distinct(Ids(pages))
  }

  /** A sticker list that is missing reads as empty (`stickers?.… || []`). */
  function StickerList(s: Option<seq<Sticker>>): seq<Sticker> {
    s.GetOr([])
  }

  /** `handleStickerUpdate`: every sticker with the updated sticker's id is
      replaced by it; the others stay where they are. */
  function ReplaceSticker(stickers: Option<seq<Sticker>>, updated: Sticker): (r: seq<Sticker>)
    ensures |r| == |StickerList(stickers)|
    ensures forall k | 0 <= k < |r| ::
      r[k] == (if StickerList(stickers)[k].id == updated.id then updated else StickerList(stickers)[k])
  {
    var l := StickerList(stickers);
    seq(|l|, k requires 0 <= k < |l| => if l[k].id == updated.id then updated else l[k])
  }

  /** `handleStickerDelete`: the stickers whose id differs, in their order. */
  function RemoveSticker(stickers: Option<seq<Sticker>>, id: string): (r: seq<Sticker>)
    ensures forall s | s in r :: s.id != id && s in StickerList(stickers)
    ensures forall s | s in StickerList(stickers) && s.id != id :: s in r
  {
    WithoutMembers(StickerList(stickers), id);
    Without(StickerList(stickers), id)
  }

  function Without(l: seq<Sticker>, id: string): seq<Sticker> {
    if l == [] then []
    else if l[0].id == id then Without(l[1..], id)
    else [l[0]] + Without(l[1..], id)
  }

  lemma {:induction false} WithoutMembers(l: seq<Sticker>, id: string)
    ensures forall s | s in Without(l, id) :: s.id != id && s in l
    ensures forall s | s in l && s.id != id :: s in Without(l, id)
  {
    if l != [] {
      WithoutMembers(l[1..], id);
      assert forall s | s in l :: s == l[0] || s in l[1..];
    }
  }

  /** Deleting keeps the remaining stickers in their order: it distributes over
      concatenation. */
  lemma {:induction false} WithoutAppend(a: seq<Sticker>, b: seq<Sticker>, id: string)
    ensures Without(a + b, id) == Without(a, id) + Without(b, id)
  {
    if a == [] {
      assert a + b == b;
    } else {
      assert (a + b)[0] == a[0];
      assert (a + b)[1..] == a[1..] + b;
      WithoutAppend(a[1..], b, id);
      assert Without(a + b, id) == (if a[0].id == id then [] else [a[0]]) + Without(a[1..] + b, id);
      assert Without(a, id) == (if a[0].id == id then [] else [a[0]]) + Without(a[1..], id);
    }
  }

  /** A deletion that matches no sticker leaves the list as it is. */
  lemma {:induction false} WithoutAbsent(l: seq<Sticker>, id: string)
    requires forall k | 0 <= k < |l| :: l[k].id != id
    ensures Without(l, id) == l
  {
    if l != [] {
      WithoutAbsent(l[1..], id);
    }
  }

  /** Deleting a sticker whose id no other sticker shares removes exactly
      that sticker and keeps the others in their order. */
  lemma RemoveStickerAt(pre: seq<Sticker>, s: Sticker, post: seq<Sticker>)
    requires forall k | 0 <= k < |pre| :: pre[k].id != s.id
    requires forall k | 0 <= k < |post| :: post[k].id != s.id
    ensures RemoveSticker(Some(pre + [s] + post), s.id) == pre + post
  {
    assert pre + [s] + post == pre + ([s] + post);
    WithoutAppend(pre, [s] + post, s.id);
    WithoutHead(s, post);
    WithoutAbsent(pre, s.id);
    WithoutAbsent(post, s.id);
  }

  /** Deleting by the first sticker's id drops it. */
  lemma WithoutHead(s: Sticker, post: seq<Sticker>)
    ensures Without([s] + post, s.id) == Without(post, s.id)
  {
    assert ([s] + post)[1..] == post;
  }

  /** Updating the sticker whose id occurs once at position `j` is a point
      update at `j`; an update whose id matches nothing changes nothing. */
  lemma ReplaceStickerAt(l: seq<Sticker>, updated: Sticker)
    ensures forall j | 0 <= j < |l| && updated.id == l[j].id &&
                      (forall k | 0 <= k < |l| && k != j :: l[k].id != l[j].id) ::
      ReplaceSticker(Some(l), updated) == l[j := updated]
    ensures (forall k | 0 <= k < |l| :: l[k].id != updated.id) ==> ReplaceSticker(Some(l), updated) == l
  {
  }

  /** No two stickers of a list share an id. */
  predicate UniqueStickerIds(l: seq<Sticker>) {
    forall i, j | 0 <= i < j < |l| :: l[i].id != l[j].id
  }

  /** Neither sticker edit lets a sticker id appear twice. */
  lemma StickerEditsKeepIdsUnique(l: seq<Sticker>, updated: Sticker, id: string)
    requires UniqueStickerIds(l)
    ensures UniqueStickerIds(ReplaceSticker(Some(l), updated))
    ensures UniqueStickerIds(RemoveSticker(Some(l), id))
  {
    var r := ReplaceSticker(Some(l), updated);
    assert forall k | 0 <= k < |r| :: r[k].id == l[k].id;
    UniqueIdsWithout(l, id);
  }

  lemma {:induction false} UniqueIdsWithout(l: seq<Sticker>, id: string)
    requires UniqueStickerIds(l)
    ensures UniqueStickerIds(Without(l, id))
  {
    if l != [] {
      assert UniqueStickerIds(l[1..]);
      UniqueIdsWithout(l[1..], id);
      var t := Without(l[1..], id);
      if l[0].id != id {
        var r := [l[0]] + t;
        forall i, j | 0 <= i < j < |r|
          ensures r[i].id != r[j].id
        {
          if i == 0 {
            WithoutMembers(l[1..], id);
            assert r[j] == t[j - 1] && r[j] in l[1..];
            var k :| 0 <= k < |l[1..]| && l[1..][k] == r[j];
            assert l[k + 1] == r[j];
          } else {
            assert r[i] == t[i - 1] && r[j] == t[j - 1];
          }
        }
        assert Without(l, id) == r;
      }
    }
  }

  /** The white box after a gesture commits new geometry: its text is kept. */
  function BoxAt(b: WhiteBox, g: Geometry): (r: WhiteBox)
    ensures r.text == b.text
    ensures (r.x, r.y, r.width, r.height) == (g.x, g.y, g.width, g.height)
  {
    b.(x := g.x, y := g.y, width := g.width, height := g.height)
  }

  /** A sticker after a gesture commits new geometry: its id and image are kept. */
  function StickerAt(s: Sticker, g: Geometry): (r: Sticker)
    ensures r.id == s.id && r.src == s.src
    ensures (r.x, r.y, r.width, r.height) == (g.x, g.y, g.width, g.height)
  {
    s.(x := g.x, y := g.y, width := g.width, height := g.height)
  }

  /** A committed sticker gesture replaces that sticker in place: the list keeps
      its length and ids, and only the sticker with that id moves. */
  lemma StickerGestureCommit(l: seq<Sticker>, j: nat, g: Geometry)
    requires j < |l|
    requires forall k | 0 <= k < |l| && k != j :: l[k].id != l[j].id
    ensures ReplaceSticker(Some(l), StickerAt(l[j], g)) == l[j := StickerAt(l[j], g)]
  {
    ReplaceStickerAt(l, StickerAt(l[j], g));
  }
}
