/**
 * The sidebar: the collection forms (add, rename, delete), the PDF drop zone and file input,
 * and which library item or collection is selected and drawn active.
 */
module Sidebar {
  import opened Wrappers
  import opened Text
  import opened References

  /** The folder a chosen collection is shown in. */
  const AllPapers := "All Papers"

  /** A collection as the sidebar lists it. */
  datatype Collection = Collection(id: string, name: string)

  /** A call to `onRenameCollection(id, name)`. */
  datatype Rename = Rename(id: string, name: string)

  /**
   * The guard of the add and rename forms: `name.trim()` when it is not empty, and nothing
   * for a name of whitespace only.
   */
  function Submitted(name: string): Option<string>
  {
    if Blank(name) then None else Some(Trim(name))
  }

  /** Nothing is submitted exactly for a blank name; otherwise the trimmed name, never empty. */
  lemma SubmittedSpec(name: string)
    ensures Submitted(name).None? <==> Blank(name)
    ensures Submitted(name).Some? ==> Submitted(name).value == Trim(name) && Submitted(name).value != ""
  {
    BlankIsTrimEmpty(name);
  }

  /** A submitted name has no whitespace at either end, and submitting it again gives it back. */
  lemma SubmittedIsTrimmed(name: string)
    requires Submitted(name).Some?
    ensures var n := Submitted(name).value; n != "" && !IsSpace(n[0]) && !IsSpace(n[|n| - 1])
    ensures Submitted(Submitted(name).value) == Submitted(name)
  {
    SubmittedSpec(name);
    var n := Submitted(name).value;
    TrimIdempotent(name);
    BlankIsTrimEmpty(n);
  }

  /** The call to `onRenameCollection` a submitted name makes, if any. */
  function RenameOf(id: string, name: Option<string>): Option<Rename>
  {
    if name.Some? then Some(Rename(id, name.value)) else None
  }

  /** The sidebar's own form state. */
  class SidebarState {
    var isAddingCollection: bool
    var newCollectionName: string
    var editingCollectionId: Option<string>
    var editingName: string
    var deletingCollectionId: Option<string>
    var isDraggingOver: bool

    constructor ()
      ensures !isAddingCollection && newCollectionName == ""
      ensures editingCollectionId == None && editingName == ""
      ensures deletingCollectionId == None && !isDraggingOver
    {
      isAddingCollection := false;
      newCollectionName := "";
      editingCollectionId := None;
      editingName := "";
      deletingCollectionId := None;
      isDraggingOver := false;
    }

    /** The `+` button opens the new-collection form. */
    method StartAdding()
      modifies this
      ensures isAddingCollection
      ensures newCollectionName == old(newCollectionName) && editingCollectionId == old(editingCollectionId)
      ensures editingName == old(editingName) && deletingCollectionId == old(deletingCollectionId)
      ensures isDraggingOver == old(isDraggingOver)
    {
      isAddingCollection := true;
    }

    /** Typing in the new-collection input. */
    method TypeNewName(value: string)
      modifies this
      ensures newCollectionName == value
      ensures isAddingCollection == old(isAddingCollection) && editingCollectionId == old(editingCollectionId)
      ensures editingName == old(editingName) && deletingCollectionId == old(deletingCollectionId)
      ensures isDraggingOver == old(isDraggingOver)
    {
      newCollectionName := value;
    }

    /** Escape or the cancel button closes the form and clears the name. */
    method CancelAdding()
      modifies this
      ensures !isAddingCollection && newCollectionName == ""
      ensures editingCollectionId == old(editingCollectionId) && editingName == old(editingName)
      ensures deletingCollectionId == old(deletingCollectionId) && isDraggingOver == old(isDraggingOver)
    {
      isAddingCollection := false;
      newCollectionName := "";
    }

    /**
     * `handleAddCollection` (Enter or the add button): a name with more than whitespace is
     * passed trimmed to `onAddCollection` (`added`), and the form is cleared and closed; a
     * blank name calls nothing and changes nothing.
     */
    method HandleAddCollection() returns (added: Option<string>)
      modifies this
      ensures added == Submitted(old(newCollectionName))
      ensures added.Some? ==> newCollectionName == "" && !isAddingCollection
      ensures added.None? ==> newCollectionName == old(newCollectionName) && isAddingCollection == old(isAddingCollection)
      ensures editingCollectionId == old(editingCollectionId) && editingName == old(editingName)
      ensures deletingCollectionId == old(deletingCollectionId) && isDraggingOver == old(isDraggingOver)
    {
      added := Submitted(newCollectionName);
      if added.Some? {
        newCollectionName := "";
        isAddingCollection := false;
      }
    }

    /** The edit button on a collection opens its rename form with its current name. */
    method StartEditing(c: Collection)
      modifies this
      ensures editingCollectionId == Some(c.id) && editingName == c.name
      ensures isAddingCollection == old(isAddingCollection) && newCollectionName == old(newCollectionName)
      ensures deletingCollectionId == old(deletingCollectionId) && isDraggingOver == old(isDraggingOver)
    {
      editingCollectionId := Some(c.id);
      editingName := c.name;
    }

    /** Typing in the rename input. */
    method TypeEditingName(value: string)
      modifies this
      ensures editingName == value
      ensures isAddingCollection == old(isAddingCollection) && newCollectionName == old(newCollectionName)
      ensures editingCollectionId == old(editingCollectionId)
      ensures deletingCollectionId == old(deletingCollectionId) && isDraggingOver == old(isDraggingOver)
    {
      editingName := value;
    }

    /** Escape or the cancel button closes the rename form. */
    method CancelEditing()
      modifies this
      ensures editingCollectionId == None && editingName == ""
      ensures isAddingCollection == old(isAddingCollection) && newCollectionName == old(newCollectionName)
      ensures deletingCollectionId == old(deletingCollectionId) && isDraggingOver == old(isDraggingOver)
    {
      editingCollectionId := None;
      editingName := "";
    }

    /**
     * `handleRenameCollection(id)`: a name with more than whitespace is passed trimmed with
     * the id to `onRenameCollection`, and the rename form is closed; a blank name calls nothing
     * and changes nothing.
     */
    method HandleRenameCollection(id: string) returns (renamed: Option<Rename>)
      modifies this
      ensures renamed == RenameOf(id, Submitted(old(editingName)))
      ensures renamed.Some? ==> editingCollectionId == None && editingName == ""
      ensures renamed.None? ==> editingCollectionId == old(editingCollectionId) && editingName == old(editingName)
      ensures isAddingCollection == old(isAddingCollection) && newCollectionName == old(newCollectionName)
      ensures deletingCollectionId == old(deletingCollectionId) && isDraggingOver == old(isDraggingOver)
    {
      renamed := RenameOf(id, Submitted(editingName));
      if renamed.Some? {
        editingCollectionId := None;
        editingName := "";
      }
    }

    /** The delete button asks for confirmation of that collection. */
    method StartDeleting(id: string)
      modifies this
      ensures deletingCollectionId == Some(id)
      ensures isAddingCollection == old(isAddingCollection) && newCollectionName == old(newCollectionName)
      ensures editingCollectionId == old(editingCollectionId) && editingName == old(editingName)
      ensures isDraggingOver == old(isDraggingOver)
    {
      deletingCollectionId := Some(id);
    }

    /** `handleDeleteCollection(id)`: `onDeleteCollection(id)` is called (`deleted`) and the confirmation closes. */
    method HandleDeleteCollection(id: string) returns (deleted: string)
      modifies this
      ensures deleted == id && deletingCollectionId == None
      ensures isAddingCollection == old(isAddingCollection) && newCollectionName == old(newCollectionName)
      ensures editingCollectionId == old(editingCollectionId) && editingName == old(editingName)
      ensures isDraggingOver == old(isDraggingOver)
    {
      deleted := id;
      deletingCollectionId := None;
    }

    /** Dragging over the drop zone highlights it; leaving it removes the highlight. */
    method HandleDrag(over: bool)
      modifies this
      ensures isDraggingOver == over
      ensures isAddingCollection == old(isAddingCollection) && newCollectionName == old(newCollectionName)
      ensures editingCollectionId == old(editingCollectionId) && editingName == old(editingName)
      ensures deletingCollectionId == old(deletingCollectionId)
    {
      isDraggingOver := over;
    }

    /** `handleDrop`: the highlight goes and the dropped PDFs, if any, are passed on (`dropped`). */
    method HandleDrop(files: seq<FileInfo>) returns (dropped: Option<seq<FileInfo>>)
      modifies this
      ensures dropped == FilesDropped(files)
      ensures !isDraggingOver
      ensures isAddingCollection == old(isAddingCollection) && newCollectionName == old(newCollectionName)
      ensures editingCollectionId == old(editingCollectionId) && editingName == old(editingName)
      ensures deletingCollectionId == old(deletingCollectionId)
    {
      isDraggingOver := false;
      dropped := FilesDropped(files);
    }
  }

  /** The chosen files of type `application/pdf`, in their order. */
  function PdfFiles(files: seq<FileInfo>): seq<FileInfo>
  {
    if files == [] then []
    else (if files[0].mimeType == PdfMimeType then [files[0]] else []) + PdfFiles(files[1..])
  }

  /** Exactly the PDFs are kept, each as often as it was chosen, and no more files than were chosen. */
  lemma {:induction false} PdfFilesSpec(files: seq<FileInfo>)
    ensures forall f :: f in PdfFiles(files) <==> f in files && f.mimeType == PdfMimeType
    ensures forall f :: multiset(PdfFiles(files))[f] == if f.mimeType == PdfMimeType then multiset(files)[f] else 0
    ensures |PdfFiles(files)| <= |files|
  {
    if files != [] {
      PdfFilesSpec(files[1..]);
      var head := if files[0].mimeType == PdfMimeType then [files[0]] else [];
      assert PdfFiles(files) == head + PdfFiles(files[1..]);
      assert files == [files[0]] + files[1..];
      assert multiset(files) == multiset{files[0]} + multiset(files[1..]);
      assert multiset(PdfFiles(files)) == multiset(head) + multiset(PdfFiles(files[1..]));
    }
  }

  /** When every file is a PDF, all are passed on unchanged and in order. */
  lemma {:induction false} AllPdfsKept(files: seq<FileInfo>)
    requires forall i :: 0 <= i < |files| ==> files[i].mimeType == PdfMimeType
    ensures PdfFiles(files) == files
  {
    if files != [] {
      AllPdfsKept(files[1..]);
      assert files == [files[0]] + files[1..];
    }
  }

  /** `onFilesDrop(files)` is called only with at least one PDF (`handleFileSelect` and `handleDrop`). */
  function FilesDropped(files: seq<FileInfo>): (r: Option<seq<FileInfo>>)
    ensures r.Some? ==> r.value != [] && forall f :: f in r.value ==> f.mimeType == PdfMimeType
    ensures r.None? <==> forall f :: f in files ==> f.mimeType != PdfMimeType
  {
    PdfFilesSpec(files);
    var pdfs := PdfFiles(files);
    if |pdfs| > 0 then assert pdfs[0] in pdfs; Some(pdfs) else None
  }

  // ---------------------------------------------------------------------------
  // Selection
  // ---------------------------------------------------------------------------

  /** The selected library item (a folder, Search Scholar or the novelty evaluator) and collection. */
  datatype Selection = Selection(folder: string, collection: Option<string>)

  /** A library item is drawn active when it is the selected folder and no collection is selected. */
  predicate ItemActive(s: Selection, item: string)
  {
    s.folder == item && (s.collection.None? || s.collection.value == "")
  }

  /** A collection is drawn active when it is the selected one. */
  predicate CollectionActive(s: Selection, id: string)
  {
    s.collection == Some(id)
  }

  /** Choosing a library item selects it and clears the collection. */
  function ChooseItem(s: Selection, item: string): (s': Selection)
    ensures s'.collection.None? && s'.folder == item
  {
    Selection(item, None)
  }

  /** Choosing a collection selects it and the All Papers folder. */
  function ChooseCollection(s: Selection, id: string): (s': Selection)
    ensures s'.collection == Some(id) && s'.folder == AllPapers
  {
    Selection(AllPapers, Some(id))
  }

  /** After choosing an item, it and nothing else is active. */
  lemma ChosenItemAloneActive(s: Selection, item: string, other: string, id: string)
    ensures ItemActive(ChooseItem(s, item), other) <==> other == item
    ensures !CollectionActive(ChooseItem(s, item), id)
  {
  }

  /** After choosing a collection, it and nothing else is active: not even All Papers. */
  lemma ChosenCollectionAloneActive(s: Selection, id: string, other: string, item: string)
    requires id != ""
    ensures CollectionActive(ChooseCollection(s, id), other) <==> other == id
    ensures !ItemActive(ChooseCollection(s, id), item)
  {
  }

  /** A library item and a collection are never both drawn active. */
  lemma ActiveIsExclusive(s: Selection, item: string, id: string)
    requires id != ""
    ensures !(ItemActive(s, item) && CollectionActive(s, id))
  {
  }
}
