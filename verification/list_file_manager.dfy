/**
  Saved lists on disk: one JSON file per list in the "All Lists" folder,
  the same folder the alarm scheduler scans.  A folder is a sequence of
  entries; file contents are already decoded (`None` for a file that is
  not a valid list).
 */
module ListFileManager {
  import opened Wrappers
  import opened Inventory
  import opened Platform
  import Text
  import Sorting
  import Sequences

  const JsonSuffix: string := ".json"

  /** The file name `getListFile` resolves: ".json" is added unless the name already ends with it, in any case. */
  function ListFileName(filename: string): (r: string)
    ensures Text.EndsWithIgnoreCase(r, JsonSuffix)
    ensures r == filename || r == filename + JsonSuffix
  {
    if Text.EndsWithIgnoreCase(filename, JsonSuffix) then filename
    else
      var r := filename + JsonSuffix;
      assert r[|r| - |JsonSuffix|..] == JsonSuffix;
      assert Text.Lower(JsonSuffix) == JsonSuffix;
      r
  }

  /** A name ending in the lower-case extension ends in it in any case too. */
  lemma EndsWithJsonSuffix(name: string)
    requires Text.EndsWith(name, JsonSuffix)
    ensures Text.EndsWithIgnoreCase(name, JsonSuffix)
  {
    assert Text.Lower(JsonSuffix) == JsonSuffix;
  }

  /** A name ending in the upper-case extension is used as is. */
  lemma EndsWithUpperJson(name: string)
    requires Text.EndsWith(name, ".JSON")
    ensures ListFileName(name) == name
  {
    var t := Text.Lower(".JSON");
    assert t[0] == '.' && t[1] == 'j' && t[2] == 's' && t[3] == 'o' && t[4] == 'n';
    assert t == JsonSuffix;
  }

  /** A name that already carries the extension, in any case, is used as is. */
  lemma ListFileNameKeepsExtension(filename: string)
    ensures Text.EndsWithIgnoreCase(filename, JsonSuffix) <==> ListFileName(filename) == filename
  {
  }

  /** Resolving a resolved name changes nothing. */
  lemma ListFileNameIdempotent(filename: string)
    ensures ListFileName(ListFileName(filename)) == ListFileName(filename)
  {
  }

  function NameIs(name: string): FileEntry -> bool {
    (e: FileEntry) => e.name == name
  }

  /** `loadList`: the decoded list, or `None` when the file is missing, is a directory or does not decode. */
  function LoadList(folder: seq<FileEntry>, filename: string): (r: Option<InventoryList>)
    ensures (forall i :: 0 <= i < |folder| ==> folder[i].name != ListFileName(filename)) ==> r.None?
    ensures r.Some? ==> exists i :: 0 <= i < |folder| && folder[i].name == ListFileName(filename)
                                   && folder[i].isFile && folder[i].content == r
  {
    LoadFile(folder, ListFileName(filename))
  }

  /** Reads the first entry called `name`. */
  function LoadFile(folder: seq<FileEntry>, name: string): (r: Option<InventoryList>)
    ensures (forall i :: 0 <= i < |folder| ==> folder[i].name != name) ==> r.None?
    ensures r.Some? ==> exists i :: 0 <= i < |folder| && folder[i].name == name
                                   && folder[i].isFile && folder[i].content == r
  {
    var i := Sequences.FirstIndex(folder, NameIs(name));
    if i < 0 || !folder[i].isFile then None else folder[i].content
  }

  /**
    `saveList`: writes the list under the resolved name, replacing the
    first entry of that name or adding one.  Writing over a directory
    fails, and the folder is then left as it was.
   */
  function SaveList(folder: seq<FileEntry>, filename: string, list: InventoryList): (r: seq<FileEntry>)
    ensures |r| == |folder| || |r| == |folder| + 1
  {
    SaveFile(folder, ListFileName(filename), list)
  }

  /** Writes the first entry called `name`, or adds one. */
  function SaveFile(folder: seq<FileEntry>, name: string, list: InventoryList): (r: seq<FileEntry>)
    ensures |r| == |folder| || |r| == |folder| + 1
  {
    var i := Sequences.FirstIndex(folder, NameIs(name));
    if i < 0 then folder + [FileEntry(name, true, Some(list))]
    else if !folder[i].isFile then folder
    else folder[i := FileEntry(name, true, Some(list))]
  }

  /** The resolved name is not taken by a directory. */
  predicate Writable(folder: seq<FileEntry>, filename: string) {
    forall i :: 0 <= i < |folder| && folder[i].name == ListFileName(filename) ==> folder[i].isFile
  }

  /** Loading what was just saved gives it back; every other list reads as before. */
  lemma SaveThenLoad(folder: seq<FileEntry>, filename: string, list: InventoryList, other: string)
    requires Writable(folder, filename)
    ensures LoadList(SaveList(folder, filename, list), filename) == Some(list)
    ensures ListFileName(other) != ListFileName(filename) ==>
      LoadList(SaveList(folder, filename, list), other) == LoadList(folder, other)
  {
    var name := ListFileName(filename);
    SaveLoadsSaved(folder, name, list);
    if ListFileName(other) != name {
      SaveKeepsOthers(folder, name, list, ListFileName(other));
    }
  }

  lemma SaveLoadsSaved(folder: seq<FileEntry>, name: string, list: InventoryList)
    requires forall i :: 0 <= i < |folder| && folder[i].name == name ==> folder[i].isFile
    ensures LoadFile(SaveFile(folder, name, list), name) == Some(list)
  {
    var e := FileEntry(name, true, Some(list));
    var i := Sequences.FirstIndex(folder, NameIs(name));
    if i < 0 {
      Sequences.FirstIndexAppend(folder, e, NameIs(name));
      assert (folder + [e])[|folder|] == e;
    } else {
      assert NameIs(name)(folder[i]) && folder[i].isFile;
      Sequences.FirstIndexSame(folder, folder[i := e], NameIs(name));
    }
  }

  lemma SaveKeepsOthers(folder: seq<FileEntry>, name: string, list: InventoryList, o: string)
    requires o != name
    ensures LoadFile(SaveFile(folder, name, list), o) == LoadFile(folder, o)
  {
    var e := FileEntry(name, true, Some(list));
    var r := SaveFile(folder, name, list);
    var i := Sequences.FirstIndex(folder, NameIs(name));
    var b := Sequences.FirstIndex(folder, NameIs(o));
    if i < 0 {
      assert r == folder + [e];
      Sequences.FirstIndexAppend(folder, e, NameIs(o));
      assert !NameIs(o)(e);
      assert b >= 0 ==> r[b] == folder[b];
    } else if folder[i].isFile {
      assert r == folder[i := e];
      assert NameIs(name)(folder[i]);
      Sequences.FirstIndexSame(folder, r, NameIs(o));
      if b >= 0 {
        assert NameIs(o)(folder[b]);
        assert r[b] == folder[b];
      }
    }
  }

  /**
    `deleteList`: `File.delete()` on the resolved name, which reports
    failure for a missing file.  Whether the platform manages to delete an
    existing entry is `deleted`.
   */
  function DeleteList(folder: seq<FileEntry>, filename: string, deleted: bool): (r: (seq<FileEntry>, bool))
    ensures r.1 <==> deleted && exists i :: 0 <= i < |folder| && folder[i].name == ListFileName(filename)
    ensures !r.1 ==> r.0 == folder
    ensures r.1 ==> LoadList(r.0, filename).None? || |r.0| < |folder|
    ensures r.1 ==> RemovedFirstNamed(folder, ListFileName(filename), r.0)
    ensures forall e :: e in r.0 ==> e in folder
    ensures forall e :: e in folder && e.name != ListFileName(filename) ==> e in r.0
  {
    var i := Sequences.FirstIndex(folder, NameIs(ListFileName(filename)));
    if i < 0 || !deleted then (folder, false)
    else
      RemoveFirstIndex(folder, ListFileName(filename), i);
      (folder[..i] + folder[i + 1..], true)
  }

  lemma RemoveFirstIndex(folder: seq<FileEntry>, name: string, i: int)
    requires 0 <= i && i == Sequences.FirstIndex(folder, NameIs(name))
    ensures var rest := folder[..i] + folder[i + 1..];
      && RemovedFirstNamed(folder, name, rest)
      && |rest| < |folder|
      && (forall e :: e in rest ==> e in folder)
      && (forall e :: e in folder && e.name != name ==> e in rest)
  {
    assert NameIs(name)(folder[i]);
    assert forall j :: 0 <= j < i ==> !NameIs(name)(folder[j]);
    RemoveFirstNamed(folder, name, i);
  }

  /**
    After a successful delete the list no longer loads (the folder holding
    one entry per name), and every list with another resolved name loads
    as before.
   */
  lemma DeleteThenLoad(folder: seq<FileEntry>, filename: string, deleted: bool, other: string)
    requires DistinctNames(folder)
    ensures var r := DeleteList(folder, filename, deleted);
      && (r.1 ==> LoadList(r.0, filename).None?)
      && (ListFileName(other) != ListFileName(filename) ==> LoadList(r.0, other) == LoadList(folder, other))
  {
    var name := ListFileName(filename);
    var i := Sequences.FirstIndex(folder, NameIs(name));
    if i >= 0 && deleted {
      assert DeleteList(folder, filename, deleted).0 == folder[..i] + folder[i + 1..];
      assert NameIs(name)(folder[i]);
      DeleteRemovesName(folder, i);
      if ListFileName(other) != name {
        DeleteKeepsOthers(folder, i, ListFileName(other));
      }
    }
  }

  lemma DeleteRemovesName(folder: seq<FileEntry>, i: int)
    requires DistinctNames(folder) && 0 <= i < |folder|
    ensures LoadFile(folder[..i] + folder[i + 1..], folder[i].name).None?
  {
    RemoveEntry(folder, i);
  }

  lemma DeleteKeepsOthers(folder: seq<FileEntry>, i: int, o: string)
    requires 0 <= i < |folder| && folder[i].name != o
    ensures LoadFile(folder[..i] + folder[i + 1..], o) == LoadFile(folder, o)
  {
    assert folder == folder[..i] + [folder[i]] + folder[i + 1..];
    Sequences.FirstIndexRemove(folder[..i], folder[i], folder[i + 1..], NameIs(o));
  }

  /** The index of the last '.' in `name`, or -1. */
  function LastDot(name: string): (r: int)
    ensures -1 <= r < |name|
    ensures r >= 0 ==> name[r] == '.'
    ensures forall k :: r < k < |name| ==> name[k] != '.'
  {
    if name == [] then -1
    else if name[|name| - 1] == '.' then |name| - 1
    else LastDot(name[..|name| - 1])
  }

  /** `File.extension`: the text after the last '.', or "" without one. */
  function Extension(name: string): string {
    var d := LastDot(name);
    if d < 0 then "" else name[d + 1..]
  }

  /** `File.nameWithoutExtension`: the text before the last '.', or the whole name without one. */
  function NameWithoutExtension(name: string): (r: string)
    ensures r <= name
  {
    var d := LastDot(name);
    if d < 0 then name else name[..d]
  }

  /** A regular file whose extension is "json" in any case. */
  predicate IsSavedList(e: FileEntry) {
    e.isFile && Text.EqualsIgnoreCase(Extension(e.name), "json")
  }

  /** The names of the saved lists, in folder order. */
  function SavedNames(folder: seq<FileEntry>): (r: seq<string>)
    ensures forall n :: n in r <==> exists i :: 0 <= i < |folder| && IsSavedList(folder[i]) && NameWithoutExtension(folder[i].name) == n
  {
    if folder == [] then []
    else
      var rest := SavedNames(folder[1..]);
      assert forall i :: 1 <= i < |folder| ==> folder[i] == folder[1..][i - 1];
      if IsSavedList(folder[0]) then [NameWithoutExtension(folder[0].name)] + rest else rest
  }

  /** `listSavedLists`: an unreadable folder lists nothing. */
  function ListSavedLists(folder: Option<seq<FileEntry>>): seq<string> {
    match folder
    case None => []
    case Some(entries) => Sorting.Sort(SavedNames(entries), Text.LexLe)
  }

  lemma LexLeIsPreorder()
    ensures Sorting.TotalPreorder(Text.LexLe)
  {
    forall a, b ensures Text.LexLe(a, b) || Text.LexLe(b, a) {
      Text.LexLeTotal(a, b);
    }
    forall a, b, c | Text.LexLe(a, b) && Text.LexLe(b, c) ensures Text.LexLe(a, c) {
      Text.LexLeTransitive(a, b, c);
    }
  }

  /**
    The listing holds the base name of every regular file with a "json"
    extension in any case, as often as such files occur, and nothing else,
    in ascending order.
   */
  lemma ListSavedListsContents(entries: seq<FileEntry>)
    ensures var r := ListSavedLists(Some(entries));
      && multiset(r) == multiset(SavedNames(entries))
      && (forall n :: n in r <==> exists i :: 0 <= i < |entries| && IsSavedList(entries[i]) && NameWithoutExtension(entries[i].name) == n)
      && Sorting.Sorted(r, Text.LexLe)
  {
    var r := ListSavedLists(Some(entries));
    LexLeIsPreorder();
    Sorting.SortSorted(SavedNames(entries), Text.LexLe);
    forall n ensures n in r <==> n in SavedNames(entries) {
      assert n in r <==> n in multiset(r);
      assert n in SavedNames(entries) <==> n in multiset(SavedNames(entries));
    }
  }
}
