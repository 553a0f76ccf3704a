/** The page-collection editor of components/StoryGenerator.tsx: the state the
    component keeps (the page list, the add/edit form, the cut page, the
    bulk-edit selection and the error banner) and the handlers that change it.

    React state setters become assignments to the fields of `Editor`; each
    handler names in its `modifies` clause exactly the state it may set, so
    every other field is unchanged by construction. */
module StoryEditor {
  import opened Base
  import opened JsText
  import opened Pages
  import opened PageOrder
  import Selection
  import BulkEdit

  /** A file chosen in the upload field: its name, its MIME type and the data
      URL it reads as. */
  datatype ImageFile = ImageFile(name: string, mimeType: string, dataUrl: string)

  /** At most this many images in one upload. */
  const MaxUpload: nat := 100

  /** At most this many story pages. */
  const MaxPages: nat := 500

  /** Only JPEG and PNG images are accepted. */
  predicate Allowed(f: ImageFile) {
    f.mimeType == "image/jpeg" || f.mimeType == "image/png"
  }

  /** The pages created from an upload, in upload order, the j-th with id
      `ids[j]`. Text and title are taken from the form only for a single
      image (the text only when it is not blank); the title colour always. */
  function NewPages(files: seq<ImageFile>, ids: seq<string>, text: string, title: string, color: string): (ps: seq<Page>)
    requires |ids| == |files|
    ensures |ps| == |files| && Ids(ps) == ids
    ensures forall j | 0 <= j < |ps| ::
      && ps[j].imageUrl == files[j].dataUrl
      && ps[j].pageTitleColor == Some(color)
      && ps[j].whiteBox.None? && ps[j].extractedText.None? && ps[j].stickers == Some([])
    ensures |files| == 1 ==> ps[0].storyText == (if Trim(text) != [] then text else "") && ps[0].pageTitle == Some(title)
    ensures |files| != 1 ==> forall j | 0 <= j < |ps| :: ps[j].storyText == "" && ps[j].pageTitle == Some("")
  {
    var single := |files| == 1;
    seq(|files|, j requires 0 <= j < |files| =>
      Page(ids[j], files[j].dataUrl,
           if single && Trim(text) != [] then text else "",
           Some(if single then title else ""),
           Some(color), None, None, Some([])))
  }

  /** Where a batch is spliced in: after the page the insertion was started
      from, or at the end. */
  function InsertionPoint(insertion: Option<nat>, n: nat): int {
    if insertion.Some? then insertion.value + 1 else n
  }

  /** The fields a save in edit mode writes over the edited page. */
  function EditUpdate(url: string, text: string, title: string, color: string): PageUpdate {
    PageUpdate(None, Some(url), Some(text), Some(title), Some(color), None, None, None)
  }

  /** The title the form shows for a page (`pageTitle || ''`). */
  function EditorTitle(p: Page): string {
    p.pageTitle.GetOr("")
  }

  /** The title colour the form shows for a page: its own unless absent or
      empty (`pageTitleColor || theme colour`). */
  function EditorColor(p: Page, theme: string): string {
    if p.pageTitleColor.Some? && p.pageTitleColor.value != "" then p.pageTitleColor.value else theme
  }

  /** Saving an edit changes only the image, text, title and title colour of
      the page; its id, box, stickers and extracted text stay. Saving the form
      as `handleEditPage` filled it, without a new image, gives back the page
      whenever the page had a title and a non-empty title colour. */
  lemma EditKeepsOverlays(p: Page, url: string, text: string, title: string, color: string, theme: string)
    ensures var q := Patched(p, EditUpdate(url, text, title, color));
      && q == p.(imageUrl := url, storyText := text, pageTitle := Some(title), pageTitleColor := Some(color))
      && q.id == p.id && q.whiteBox == p.whiteBox && q.stickers == p.stickers && q.extractedText == p.extractedText
    ensures p.pageTitle.Some? && p.pageTitleColor.Some? && p.pageTitleColor.value != "" ==>
      Patched(p, EditUpdate(p.imageUrl, p.storyText, EditorTitle(p), EditorColor(p, theme))) == p
  {
  }

  /** The page the drag started from, as `splice(parseInt(payload, 10), 1)`
      reads it: a number that is not one counts as 0, a negative one from
      the end. */
  function DragSource(payload: string, n: nat): (from: nat)
    ensures from <= n
  {
    SpliceStart(ParseInt(payload).GetOr(0), n)
  }

  // ---------------------------------------------------------------------
  // Page ids under the list operations

  lemma IdsRemove(pages: seq<Page>, i: nat)
    ensures Ids(Remove(pages, i)) == Remove(Ids(pages), i)
  {
  }

  lemma IdsInsert(pages: seq<Page>, start: int, xs: seq<Page>)
    ensures Ids(InsertAt(pages, start, xs)) == InsertAt(Ids(pages), start, Ids(xs))
  {
    var p := SpliceStart(start, |pages|);
    assert InsertAt(pages, start, xs) == pages[..p] + xs + pages[p..];
    IdsConcat(pages[..p] + xs, pages[p..]);
    IdsConcat(pages[..p], xs);
    assert Ids(pages[..p]) == Ids(pages)[..p];
    assert Ids(pages[p..]) == Ids(pages)[p..];
  }

  lemma IdsConcat(a: seq<Page>, b: seq<Page>)
    ensures Ids(a + b) == Ids(a) + Ids(b)
  {
  }

  lemma IdsMoved(pages: seq<Page>, from: nat, to: int)
    requires from < |pages|
    ensures Ids(Moved(pages, from, to)) == Moved(Ids(pages), from, to)
  {
    IdsRemove(pages, from);
    IdsInsert(Remove(pages, from), to, [pages[from]]);
    assert Ids([pages[from]]) == [Ids(pages)[from]];
  }

  /** Deleting a page keeps the ids unique. */
  lemma DeleteKeepsIdsUnique(pages: seq<Page>, i: nat)
    requires UniqueIds(pages)
    ensures UniqueIds(Remove(pages, i)) && |Remove(pages, i)| <= |pages|
  {
    IdsRemove(pages, i);
    RemoveDistinct(Ids(pages), i);
  }

  /** Moving a page keeps the ids unique and the length. */
  lemma MoveKeepsIdsUnique(pages: seq<Page>, from: nat, to: int)
    requires UniqueIds(pages) && from < |pages|
    ensures UniqueIds(Moved(pages, from, to)) && |Moved(pages, from, to)| == |pages|
  {
    IdsMoved(pages, from, to);
    MovedDistinct(Ids(pages), from, to);
  }

  /** Patching one page with an update that carries no id keeps the ids. */
  lemma PatchKeepsIds(pages: seq<Page>, k: nat, u: PageUpdate)
    requires k < |pages| && u.id.None?
    ensures Ids(pages[k := Patched(pages[k], u)]) == Ids(pages)
  {
  }

  /** Pasting keeps the ids unique and the length. */
  lemma PasteKeepsIdsUnique(pages: seq<Page>, cut: nat, target: nat)
    requires UniqueIds(pages) && cut < |pages|
    ensures UniqueIds(Pasted(pages, cut, target)) && |Pasted(pages, cut, target)| == |pages|
  {
    MoveKeepsIdsUnique(pages, cut, PasteSlot(cut, target));
  }

  /** Inserting pages whose ids are new and pairwise different keeps the
      ids unique. */
  lemma InsertKeepsIdsUnique(pages: seq<Page>, start: int, added: seq<Page>)
    requires Distinct(Ids(pages) + Ids(added))
    ensures UniqueIds(InsertAt(pages, start, added)) && |InsertAt(pages, start, added)| == |pages| + |added|
  {
    IdsInsert(pages, start, added);
    InsertDistinct(Ids(pages), start, Ids(added));
  }

  /** The selection field's own text reads back as the selection it shows. */
  lemma ReadBackSelection(sel: seq<nat>, input: string, n: nat)
    requires Distinct(sel)
    ensures input == Selection.SelectionText(sel) && (forall k | k in sel :: k < n) ==> Selection.Parse(input, n) == sel
  {
    if input == Selection.SelectionText(sel) && (forall k | k in sel :: k < n) {
      Selection.SelectionTextRoundTrip(sel, n);
    }
  }

  // ---------------------------------------------------------------------
  // The component state

  class Editor {
    var pages: seq<Page>
    var uploadedFiles: seq<ImageFile>
    var customText: string
    var pageTitleInput: string
    var pageTitleColorInput: string
    var insertionIndex: Option<nat>
    var editingIndex: Option<nat>
    var cutIndex: Option<nat>
    /** The selected page indices in the order they were added. */
    var selected: seq<nat>
    /** The text of the selection field. */
    var selectionInput: string
    var error: Option<Failure>
    /** Set once an action has stored a list with a hole in it (a page read
        past the end of the list); `pages` then keeps the last sound list. */
    var broken: bool
    /** The story text colour of the theme, the default title colour. */
    const themeTextColor: string

    /** Page ids are unique and there are at most 500 pages; the selection has
        no repetitions; the pending upload passed validation. */
    ghost predicate Valid()
      reads this
    {
      && UniqueIds(pages) && |pages| <= MaxPages
      && Distinct(selected)
      && |uploadedFiles| <= MaxUpload && (forall f | f in uploadedFiles :: Allowed(f))
    }

    /** The add/edit form is empty and neither inserting nor editing. */
    ghost predicate Cleared()
      reads this
    {
      && customText == "" && uploadedFiles == [] && pageTitleInput == ""
      && pageTitleColorInput == themeTextColor
      && insertionIndex.None? && editingIndex.None?
    }

    constructor (themeTextColor: string)
      ensures Valid() && Cleared() && this.themeTextColor == themeTextColor
      ensures pages == [] && cutIndex.None? && selected == [] && selectionInput == ""
      ensures error.None? && !broken
    {
      this.themeTextColor := themeTextColor;
      pages := [];
      uploadedFiles := [];
      customText := "";
      pageTitleInput := "";
      pageTitleColorInput := themeTextColor;
      insertionIndex := None;
      editingIndex := None;
      cutIndex := None;
      selected := [];
      selectionInput := "";
      error := None;
      broken := false;
    }

    /** `handleImageUpload`: a batch of more than 100 files, or one holding a
        file that is neither JPEG nor PNG, is rejected as a whole. */
    method ImageUpload(files: Option<seq<ImageFile>>)
      requires Valid()
      modifies this`uploadedFiles, this`error
      ensures Valid()
      ensures files.None? ==> uploadedFiles == old(uploadedFiles) && error == old(error)
      ensures files.Some? && |files.value| > MaxUpload ==>
        uploadedFiles == [] && error == Some(TooManyFiles)
      ensures files.Some? && |files.value| <= MaxUpload && (exists f | f in files.value :: !Allowed(f)) ==>
        uploadedFiles == [] && error == Some(UnsupportedFileType)
      ensures files.Some? && |files.value| <= MaxUpload && (forall f | f in files.value :: Allowed(f)) ==>
        uploadedFiles == files.value && error.None?
    {
      if files.None? {
        return;
      }
      var fs := files.value;
      if |fs| > MaxUpload {
        error := Some(TooManyFiles);
        uploadedFiles := [];
        return;
      }
      if exists f | f in fs :: !Allowed(f) {
        error := Some(UnsupportedFileType);
        uploadedFiles := [];
        return;
      }
      error := None;
      uploadedFiles := fs;
    }

    /** `clearInputs`. */
    method ClearInputs()
      requires Valid()
      modifies this`customText, this`uploadedFiles, this`pageTitleInput, this`pageTitleColorInput,
               this`insertionIndex, this`editingIndex
      ensures Valid() && Cleared()
    {
      customText := "";
      uploadedFiles := [];
      pageTitleInput := "";
      pageTitleColorInput := themeTextColor;
      insertionIndex := None;
      editingIndex := None;
    }

    /** `handleInitiateInsertion`: an empty form whose pages go after page `index`. */
    method InitiateInsertion(index: nat)
      requires Valid()
      modifies this`customText, this`uploadedFiles, this`pageTitleInput, this`pageTitleColorInput,
               this`insertionIndex, this`editingIndex
      ensures Valid()
      ensures customText == "" && uploadedFiles == [] && pageTitleInput == "" && pageTitleColorInput == themeTextColor
      ensures insertionIndex == Some(index) && editingIndex.None?
    {
      ClearInputs();
      insertionIndex := Some(index);
    }

    /** `handleEditPage`: the form filled from page `index`, with no image. */
    method EditPage(index: nat)
      requires Valid() && index < |pages|
      modifies this`customText, this`uploadedFiles, this`pageTitleInput, this`pageTitleColorInput,
               this`insertionIndex, this`editingIndex
      ensures Valid()
      ensures editingIndex == Some(index) && insertionIndex.None? && uploadedFiles == []
      ensures customText == pages[index].storyText
      ensures pageTitleInput == EditorTitle(pages[index])
      ensures pageTitleColorInput == EditorColor(pages[index], themeTextColor)
    {
      var page := pages[index];
      editingIndex := Some(index);
      insertionIndex := None;
      customText := page.storyText;
      uploadedFiles := [];
      pageTitleInput := page.pageTitle.GetOr("");
      pageTitleColorInput := if page.pageTitleColor.Some? && page.pageTitleColor.value != "" then page.pageTitleColor.value else themeTextColor;
    }

    /** `handleAddOrUpdatePages`. In edit mode: a blank text is refused, an
        edited page that no longer exists makes the save throw, and otherwise
        only the edited page changes. Otherwise: without images or past 500
        pages the batch is refused, and otherwise the new pages are spliced in
        after the insertion page (or at the end) in upload order. A successful
        save clears the form; a refused one keeps it. `ids` are the fresh ids
        of the new pages. */
    method AddOrUpdatePages(ids: seq<string>)
      requires Valid()
      requires editingIndex.None? ==> |ids| == |uploadedFiles| && Distinct(Ids(pages) + ids)
      modifies this`pages, this`error, this`customText, this`uploadedFiles, this`pageTitleInput,
               this`pageTitleColorInput, this`insertionIndex, this`editingIndex
      ensures Valid()
      ensures old(editingIndex).Some? && Trim(old(customText)) == [] ==>
        pages == old(pages) && error == Some(MissingStoryText)
      ensures old(editingIndex).Some? && Trim(old(customText)) != [] && old(editingIndex).value >= |old(pages)| ==>
        pages == old(pages) && error == Some(RuntimeError)
      ensures old(editingIndex).Some? && Trim(old(customText)) != [] && old(editingIndex).value < |old(pages)| ==>
        var k := old(editingIndex).value;
        var url := if |old(uploadedFiles)| > 0 then old(uploadedFiles)[0].dataUrl else old(pages)[k].imageUrl;
        && pages == old(pages)[k := Patched(old(pages)[k], EditUpdate(url, old(customText), old(pageTitleInput), old(pageTitleColorInput)))]
        && error.None? && Cleared()
      ensures old(editingIndex).None? && |old(uploadedFiles)| == 0 ==>
        pages == old(pages) && error == Some(NoImages)
      ensures old(editingIndex).None? && |old(uploadedFiles)| > 0 && |old(pages)| + |old(uploadedFiles)| > MaxPages ==>
        pages == old(pages) && error == Some(PageLimit(|old(uploadedFiles)|))
      ensures old(editingIndex).None? && |old(uploadedFiles)| > 0 && |old(pages)| + |old(uploadedFiles)| <= MaxPages ==>
        && pages == InsertAt(old(pages), InsertionPoint(old(insertionIndex), |old(pages)|),
                             NewPages(old(uploadedFiles), ids, old(customText), old(pageTitleInput), old(pageTitleColorInput)))
        && error.None? && Cleared()
      ensures error.Some? ==>
        && customText == old(customText) && uploadedFiles == old(uploadedFiles) && pageTitleInput == old(pageTitleInput)
        && pageTitleColorInput == old(pageTitleColorInput)
        && insertionIndex == old(insertionIndex) && editingIndex == old(editingIndex)
    {
      if editingIndex.Some? {
        SaveEdit();
      } else {
        AddBatch(ids);
      }
    }

    /** The edit-mode half of `handleAddOrUpdatePages`. */
    method SaveEdit()
      requires Valid() && editingIndex.Some?
      modifies this`pages, this`error, this`customText, this`uploadedFiles, this`pageTitleInput,
               this`pageTitleColorInput, this`insertionIndex, this`editingIndex
      ensures Valid()
      ensures old(editingIndex).Some? && Trim(old(customText)) == [] ==>
        pages == old(pages) && error == Some(MissingStoryText)
      ensures old(editingIndex).Some? && Trim(old(customText)) != [] && old(editingIndex).value >= |old(pages)| ==>
        pages == old(pages) && error == Some(RuntimeError)
      ensures old(editingIndex).Some? && Trim(old(customText)) != [] && old(editingIndex).value < |old(pages)| ==>
        var k := old(editingIndex).value;
        var url := if |old(uploadedFiles)| > 0 then old(uploadedFiles)[0].dataUrl else old(pages)[k].imageUrl;
        && pages == old(pages)[k := Patched(old(pages)[k], EditUpdate(url, old(customText), old(pageTitleInput), old(pageTitleColorInput)))]
        && error.None? && Cleared()
      ensures error.Some? ==>
        && customText == old(customText) && uploadedFiles == old(uploadedFiles) && pageTitleInput == old(pageTitleInput)
        && pageTitleColorInput == old(pageTitleColorInput)
        && insertionIndex == old(insertionIndex) && editingIndex == old(editingIndex)
    {
      if Trim(customText) == [] {
        error := Some(MissingStoryText);
        return;
      }
      var k := editingIndex.value;
      if k >= |pages| {
        error := Some(RuntimeError);
        return;
      }
      var url := pages[k].imageUrl;
      if |uploadedFiles| > 0 {
        url := uploadedFiles[0].dataUrl;
      }
      var u := EditUpdate(url, customText, pageTitleInput, pageTitleColorInput);
      PatchKeepsIds(pages, k, u);
      pages := pages[k := Patched(pages[k], u)];
      error := None;
      ClearInputs();
    }

    /** The insertion half of `handleAddOrUpdatePages`. */
    method AddBatch(ids: seq<string>)
      requires Valid() && editingIndex.None?
      requires |ids| == |uploadedFiles| && Distinct(Ids(pages) + ids)
      modifies this`pages, this`error, this`customText, this`uploadedFiles, this`pageTitleInput,
               this`pageTitleColorInput, this`insertionIndex, this`editingIndex
      ensures Valid()
      ensures old(editingIndex).None? && |old(uploadedFiles)| == 0 ==>
        pages == old(pages) && error == Some(NoImages)
      ensures old(editingIndex).None? && |old(uploadedFiles)| > 0 && |old(pages)| + |old(uploadedFiles)| > MaxPages ==>
        pages == old(pages) && error == Some(PageLimit(|old(uploadedFiles)|))
      ensures old(editingIndex).None? && |old(uploadedFiles)| > 0 && |old(pages)| + |old(uploadedFiles)| <= MaxPages ==>
        && pages == InsertAt(old(pages), InsertionPoint(old(insertionIndex), |old(pages)|),
                             NewPages(old(uploadedFiles), ids, old(customText), old(pageTitleInput), old(pageTitleColorInput)))
        && error.None? && Cleared()
      ensures error.Some? ==>
        && customText == old(customText) && uploadedFiles == old(uploadedFiles) && pageTitleInput == old(pageTitleInput)
        && pageTitleColorInput == old(pageTitleColorInput)
        && insertionIndex == old(insertionIndex) && editingIndex == old(editingIndex)
    {
      if |uploadedFiles| == 0 {
        error := Some(NoImages);
        return;
      }
      if |pages| + |uploadedFiles| > MaxPages {
        error := Some(PageLimit(|uploadedFiles|));
        return;
      }
      var added := NewPages(uploadedFiles, ids, customText, pageTitleInput, pageTitleColorInput);
      var at := if insertionIndex.Some? then insertionIndex.value + 1 else |pages|;
      InsertKeepsIdsUnique(pages, at, added);
      pages := InsertAt(pages, at, added);
      error := None;
      ClearInputs();
    }

    /** `handleDeletePage`: the page at `index` is dropped. The cut page, the
        page being edited and the selection keep their indices. */
    method DeletePage(index: nat)
      requires Valid()
      modifies this`pages
      ensures Valid()
      ensures pages == Remove(old(pages), index)
    {
      DeleteKeepsIdsUnique(pages, index);
      pages := Remove(pages, index);
    }

    /** `handleUpdatePage`: the fields of `u` are written over page `index`;
        no other page changes. The page component never passes an id. */
    method UpdatePage(index: nat, u: PageUpdate)
      requires Valid() && u.id.None?
      modifies this`pages
      ensures Valid()
      ensures |pages| == |old(pages)|
      ensures forall k | 0 <= k < |pages| :: pages[k] == if k == index then Patched(old(pages)[k], u) else old(pages)[k]
    {
      if index < |pages| {
        PatchKeepsIds(pages, index, u);
        pages := pages[index := Patched(pages[index], u)];
      }
    }

    /** `handleCutPage`: cutting the page that is already cut cancels the cut. */
    method CutPage(index: nat)
      modifies this`cutIndex
      ensures cutIndex == if old(cutIndex) == Some(index) then None else Some(index)
    {
      cutIndex := if cutIndex == Some(index) then None else Some(index);
    }

    /** The "cancel cut" button. */
    method CancelCut()
      modifies this`cutIndex
      ensures cutIndex.None?
    {
      cutIndex := None;
    }

    /** `handlePastePage`: with no cut pending nothing happens; otherwise the
        cut page is moved in front of the page at `target` and the cut is
        cleared. A cut page that no longer exists is pasted as a hole. */
    method PastePage(target: nat)
      requires Valid()
      modifies this`pages, this`cutIndex, this`broken
      ensures Valid()
      ensures old(cutIndex).None? ==> pages == old(pages) && cutIndex.None? && broken == old(broken)
      ensures old(cutIndex).Some? && old(cutIndex).value < |old(pages)| ==>
        pages == Pasted(old(pages), old(cutIndex).value, target) && cutIndex.None? && broken == old(broken)
      ensures old(cutIndex).Some? && old(cutIndex).value >= |old(pages)| ==>
        pages == old(pages) && cutIndex.None? && broken
    {
      if cutIndex.None? {
        return;
      }
      var c := cutIndex.value;
      if c < |pages| {
        PasteKeepsIdsUnique(pages, c, target);
        pages := Pasted(pages, c, target);
      } else {
        broken := true;
      }
      cutIndex := None;
    }

    /** `handleDrop`: an empty payload, or one naming the drop target itself,
        does nothing; otherwise the dragged page is taken out and spliced in
        at `dropIndex` of the shortened list. A payload naming no page moves
        a hole in. */
    method Drop(payload: string, dropIndex: nat)
      requires Valid()
      modifies this`pages, this`broken
      ensures Valid()
      ensures payload == [] || ParseInt(payload) == Some(dropIndex as int) ==>
        pages == old(pages) && broken == old(broken)
      ensures payload != [] && ParseInt(payload) != Some(dropIndex as int) && DragSource(payload, |old(pages)|) < |old(pages)| ==>
        pages == Moved(old(pages), DragSource(payload, |old(pages)|), dropIndex) && broken == old(broken)
      ensures payload != [] && ParseInt(payload) != Some(dropIndex as int) && DragSource(payload, |old(pages)|) == |old(pages)| ==>
        pages == old(pages) && broken
    {
      if payload == [] {
        return;
      }
      var parsed := ParseInt(payload);
      if parsed == Some(dropIndex as int) {
        return;
      }
      var from := SpliceStart(parsed.GetOr(0), |pages|);
      if from == |pages| {
        broken := true;
        return;
      }
      MoveKeepsIdsUnique(pages, from, dropIndex);
      pages := Moved(pages, from, dropIndex);
    }

    // -------------------------------------------------------------------
    // Selection. Every change of `selected` rewrites the selection field
    // (the effect on the selection set).

    /** `handleToggleSelectPage`. */
    method ToggleSelectPage(index: nat)
      requires Valid()
      modifies this`selected, this`selectionInput
      ensures Valid()
      ensures selected == Selection.Toggle(old(selected), index)
      ensures selectionInput == Selection.SelectionText(selected)
    {
      Selection.ToggleProperties(selected, index);
      selected := Selection.Toggle(selected, index);
      selectionInput := Selection.SelectionText(selected);
    }

    /** `handleSelectAll`. */
    method SelectAll()
      requires Valid()
      modifies this`selected, this`selectionInput
      ensures Valid()
      ensures selected == Selection.SelectAll(|pages|)
      ensures selectionInput == Selection.SelectionText(selected)
    {
      selected := Selection.SelectAll(|pages|);
      selectionInput := Selection.SelectionText(selected);
    }

    /** The "clear selection" button. */
    method ClearSelection()
      requires Valid()
      modifies this`selected, this`selectionInput
      ensures Valid()
      ensures selected == [] && selectionInput == ""
    {
      selected := [];
      selectionInput := Selection.SelectionText(selected);
    }

    /** Typing in the selection field changes only the field. */
    method EditSelectionInput(text: string)
      modifies this`selectionInput
      ensures selectionInput == text
    {
      selectionInput := text;
    }

    /** `parseAndSetSelection(pageSelectionInput)`, run when the selection
        field loses focus: the selection becomes exactly the existing pages
        the field's text names, and reading back the text a selection of
        existing pages was shown as gives that selection back. */
    method ParseAndSetSelection()
      requires Valid()
      modifies this`selected, this`selectionInput
      ensures Valid()
      ensures selected == Selection.Parse(old(selectionInput), |pages|)
      ensures forall x: nat :: x in selected <==> x < |pages| && Selection.Named(Selection.Tokens(Split(old(selectionInput), ',')), x + 1)
      ensures old(selectionInput) == Selection.SelectionText(old(selected)) && (forall k | k in old(selected) :: k < |pages|) ==>
        selected == old(selected)
      ensures selectionInput == Selection.SelectionText(selected)
    {
      var input := selectionInput;
      Selection.ParseMembers(input, |pages|);
      ReadBackSelection(selected, input, |pages|);
      var sel := Selection.ParseSelection(input, |pages|);
      selected := sel;
      selectionInput := Selection.SelectionText(selected);
    }

    // -------------------------------------------------------------------
    // Bulk edits on the selected pages

    /** What a bulk edit leaves behind: an applied edit stores the list and
        clears the error; a refusal only sets the error; an abort changes
        nothing; a corrupted list is stored and the error cleared. */
    twostate predicate Committed(c: BulkEdit.Commit)
      reads this
    {
      match c
      case Applied(ps) => pages == ps && error.None? && broken == old(broken)
      case Refused(f) => pages == old(pages) && error == Some(f) && broken == old(broken)
      case Aborted => pages == old(pages) && error == old(error) && broken == old(broken)
      case Corrupted => pages == old(pages) && error.None? && broken
    }

    method Commit(c: BulkEdit.Commit)
      requires Valid()
      requires c.Applied? ==> UniqueIds(c.pages) && |c.pages| <= MaxPages
      modifies this`pages, this`error, this`broken
      ensures Valid() && Committed(c)
    {
      match c
      case Applied(ps) =>
        pages := ps;
        error := None;
      case Refused(f) =>
        error := Some(f);
      case Aborted =>
      case Corrupted =>
        error := None;
        broken := true;
    }

    /** `handleAddWhiteBox`. */
    method AddWhiteBox()
      requires Valid()
      modifies this`pages, this`error, this`broken
      ensures Valid() && Committed(BulkEdit.BoxesAdded(old(pages), selected))
    {
      var c := BulkEdit.AddDefaultBoxes(pages, selected);
      BulkEdit.BulkEditsKeepIds(pages, selected, [], [], "", []);
      Commit(c);
    }

    /** `handleAddSticker`: the j-th target page's sticker gets `ids[j]`. */
    method AddSticker(src: string, applyToAll: bool, ids: seq<string>)
      requires Valid()
      requires |ids| == |BulkEdit.StickerTargets(|pages|, selected, applyToAll)|
      modifies this`pages, this`error, this`broken
      ensures Valid()
      ensures Committed(BulkEdit.StickersAdded(old(pages), BulkEdit.StickerTargets(|old(pages)|, selected, applyToAll), ids, src))
    {
      var targets := BulkEdit.StickerTargets(|pages|, selected, applyToAll);
      var c := BulkEdit.AddStickers(pages, targets, ids, src);
      BulkEdit.BulkEditsKeepIds(pages, [], targets, ids, src, []);
      Commit(c);
    }

    /** `handleExtractTextForAllSelected`, given what each selected page's
        extraction reported: with nothing selected it is refused; otherwise
        the error is cleared and the results are merged by captured index. */
    method ExtractTextForAllSelected(outcomes: seq<Result<string, string>>)
      requires Valid() && |outcomes| == |selected|
      modifies this`pages, this`error, this`broken
      ensures Valid()
      ensures |selected| == 0 ==> pages == old(pages) && error == Some(NoPageForExtraction) && broken == old(broken)
      ensures |selected| > 0 ==>
        var c := BulkEdit.ResultsMerged(old(pages), BulkEdit.Attempts(selected, outcomes));
        && error.None?
        && (c.Applied? ==> pages == c.pages && broken == old(broken))
        && (!c.Applied? ==> pages == old(pages) && broken)
    {
      if |selected| == 0 {
        error := Some(NoPageForExtraction);
        return;
      }
      error := None;
      var results := BulkEdit.Attempts(selected, outcomes);
      var c := BulkEdit.MergeExtraction(pages, results);
      BulkEdit.BulkEditsKeepIds(pages, [], [], [], "", results);
      BulkEdit.ResultsMergedSpec(pages, results);
      Commit(c);
    }

    /** `handleApplyStyles`. */
    method ApplyStyles()
      requires Valid()
      modifies this`pages, this`error, this`broken
      ensures Valid() && Committed(BulkEdit.StylesApplied(old(pages), selected))
    {
      var c := BulkEdit.ApplyStyles(pages, selected);
      BulkEdit.BulkEditsKeepIds(pages, selected, [], [], "", []);
      Commit(c);
    }
  }
}
