/**
 The drop zone that hands files to the converter
 (`src/components/FileSelector.tsx`): a drop collects the dropped files and
 passes on those whose declared type is exactly one of the accepted types;
 the hidden file input passes on every file it was given, unfiltered; and a
 highlight flag follows the drag events.
 */
module FileSelector {
  import opened Options
  import opened Seqs
  import opened Inputs

  /** One entry of `dataTransfer.items`: its kind and what `getAsFile()` returns. */
  datatype Item = Item(kind: string, asFile: Option<File>)

  /** A drop's `dataTransfer`: its item list (possibly absent) and its file list. */
  datatype DataTransfer = DataTransfer(items: Option<seq<Item>>, files: seq<File>)

  /** The file an item contributes: only a "file" item whose `getAsFile()` is not null. */
  function ItemFile(it: Item): (f: Option<File>)
    ensures f.Some? <==> it.kind == "file" && it.asFile.Some?
    ensures f.Some? ==> f == it.asFile
  {
    if it.kind == "file" then it.asFile else None
  }

  /** The files an item list yields, in item order. */
  function ItemFiles(items: seq<Item>): seq<File>
  {
    FilterMap(ItemFile, items)
  }

  /** `fileTypes.includes(file.type)`, as a selector keeping the file. */
  function OfType(fileTypes: seq<string>): File -> Option<File>
  {
    (f: File) => if f.mimeType in fileTypes then Some(f) else None
  }

  /** The files kept from the item list, in item order. */
  method CollectItems(items: seq<Item>) returns (files: seq<File>)
    ensures files == ItemFiles(items)
    ensures |files| <= |items|
  {
    files := [];
    var i := 0;
    while i < |items|
      invariant 0 <= i <= |items|
      invariant files == FilterMap(ItemFile, items[..i])
    {
      FilterMapSnoc(ItemFile, items[..i], items[i]);
      assert items[..i + 1] == items[..i] + [items[i]];
      var f := items[i].asFile;
      if items[i].kind == "file" {
        if f.Some? {
          files := files + [f.value];
        }
      }
      i := i + 1;
    }
    assert items[..|items|] == items;
  }

  /** Every file of the file list, in order. */
  method CollectFiles(list: seq<File>) returns (files: seq<File>)
    ensures files == list
  {
    files := [];
    var i := 0;
    while i < |list|
      invariant 0 <= i <= |list|
      invariant files == list[..i]
    {
      assert list[..i + 1] == list[..i] + [list[i]];
      files := files + [list[i]];
      i := i + 1;
    }
    assert list[..|list|] == list;
  }

  /** `files.filter((file) => fileTypes.includes(file.type))` */
  method KeepTypes(files: seq<File>, fileTypes: seq<string>) returns (kept: seq<File>)
    ensures kept == FilterMap(OfType(fileTypes), files)
    ensures forall i :: 0 <= i < |kept| ==> kept[i].mimeType in fileTypes
  {
    kept := [];
    var i := 0;
    while i < |files|
      invariant 0 <= i <= |files|
      invariant kept == FilterMap(OfType(fileTypes), files[..i])
      invariant forall j :: 0 <= j < |kept| ==> kept[j].mimeType in fileTypes
    {
      FilterMapSnoc(OfType(fileTypes), files[..i], files[i]);
      assert files[..i + 1] == files[..i] + [files[i]];
      if files[i].mimeType in fileTypes {
        kept := kept + [files[i]];
      }
      i := i + 1;
    }
    assert files[..|files|] == files;
  }

  /** What a handler did: the highlight flag afterwards, and the list handed to `onFiles` if it was called. */
  datatype Handled = Handled(dragging: bool, delivered: Option<seq<File>>)

  /**
   `handleDrop`: clear the highlight; with no `dataTransfer` stop there;
   otherwise collect from a non-empty item list, or else from the file list,
   and hand over the files of an accepted type.
   */
  method HandleDrop(dt: Option<DataTransfer>, fileTypes: seq<string>) returns (h: Handled)
    ensures !h.dragging
    ensures h.delivered.Some? <==> dt.Some?
    ensures dt.Some? && dt.value.items.Some? && |dt.value.items.value| > 0 ==>
      h.delivered == Some(FilterMap(OfType(fileTypes), ItemFiles(dt.value.items.value)))
    ensures dt.Some? && (dt.value.items.None? || |dt.value.items.value| == 0) ==>
      h.delivered == Some(FilterMap(OfType(fileTypes), dt.value.files))
    ensures h.delivered.Some? ==> forall i :: 0 <= i < |h.delivered.value| ==> h.delivered.value[i].mimeType in fileTypes
  {
    if dt.None? {
      return Handled(false, None);
    }
    var files;
    if dt.value.items.Some? && |dt.value.items.value| > 0 {
      files := CollectItems(dt.value.items.value);
    } else {
      files := CollectFiles(dt.value.files);
    }
    var kept := KeepTypes(files, fileTypes);
    h := Handled(false, Some(kept));
  }

  /** `handleFileInputChange`: with a file list, hand over every non-null entry; no type filter. */
  method HandleFileInputChange(list: Option<seq<Option<File>>>) returns (delivered: Option<seq<File>>)
    ensures delivered.Some? <==> list.Some?
    ensures list.Some? ==> delivered.value == FilterMap((f: Option<File>) => f, list.value)
  {
    if list.None? {
      return None;
    }
    var entries := list.value;
    var files: seq<File> := [];
    var i := 0;
    while i < |entries|
      invariant 0 <= i <= |entries|
      invariant files == FilterMap((f: Option<File>) => f, entries[..i])
    {
      FilterMapSnoc((f: Option<File>) => f, entries[..i], entries[i]);
      assert entries[..i + 1] == entries[..i] + [entries[i]];
      if entries[i].Some? {
        files := files + [entries[i].value];
      }
      i := i + 1;
    }
    assert entries[..|entries|] == entries;
    return Some(files);
  }

  /** A file is handed over from a drop exactly when it was dropped and its type is accepted. */
  lemma DroppedFileDelivered(files: seq<File>, fileTypes: seq<string>, f: File)
    ensures f in FilterMap(OfType(fileTypes), files) <==> f in files && f.mimeType in fileTypes
  {
    FilterMapMember(OfType(fileTypes), files, f);
    if f in files && f.mimeType in fileTypes {
      var i :| 0 <= i < |files| && files[i] == f;
      assert OfType(fileTypes)(files[i]) == Some(f);
    }
  }

  /** A file is collected from the items exactly when some "file" item yields it. */
  lemma ItemCollected(items: seq<Item>, f: File)
    ensures f in ItemFiles(items) <==>
      exists i :: 0 <= i < |items| && items[i].kind == "file" && items[i].asFile == Some(f)
  {
    FilterMapMember(ItemFile, items, f);
  }

  /** The type filter keeps order: filtering two drops in sequence is filtering their concatenation. */
  lemma TypeFilterKeepsOrder(xs: seq<File>, ys: seq<File>, fileTypes: seq<string>)
    ensures FilterMap(OfType(fileTypes), xs + ys) == FilterMap(OfType(fileTypes), xs) + FilterMap(OfType(fileTypes), ys)
  {
    FilterMapAppend(OfType(fileTypes), xs, ys);
  }

  /** The input path drops nothing but nulls: it hands over all entries exactly when none is null. */
  lemma InputKeepsEveryFile(list: seq<Option<File>>)
    ensures |FilterMap((f: Option<File>) => f, list)| == |list| <==> forall i :: 0 <= i < |list| ==> list[i].Some?
  {
    FilterMapLength((f: Option<File>) => f, list);
  }

  /** The drag events the zone listens to. */
  datatype DragEvent = DragOver | DragEnter | DragLeave | Drop

  /** `isDraggingOver` after one event: over and enter set it, leave and drop clear it. */
  function AfterEvent(ev: DragEvent): (dragging: bool)
    ensures dragging <==> ev != DragLeave && ev != Drop
  {
    ev.DragOver? || ev.DragEnter?
  }

  /**
   The flag after a sequence of events, starting from `flag`. Only the most
   recent event matters: the zone is highlighted exactly after an over or enter.
   */
  function AfterEvents(flag: bool, events: seq<DragEvent>): (dragging: bool)
    ensures events == [] ==> dragging == flag
    ensures events != [] ==> (dragging <==> events[|events| - 1] in {DragOver, DragEnter})
    decreases |events|
  {
    if events == [] then flag else AfterEvents(AfterEvent(events[0]), events[1..])
  }
}
