/** Work-item enumeration: which directory entries become image tasks
    (`process_folders_fast`, the collection loop) and how many images the
    progress counter expects (`count_images_in_folders`). The filesystem is
    a map from folder name, relative to the main folder, to what
    `os.listdir` gives for it; a name missing from the map is a folder that
    does not exist, and the empty name stands for the main folder itself. */
module Tasks {
  import opened PyText
  import opened PyPath

  /** One result of `os.listdir`, with what `os.path.isfile` says of it. */
  datatype Entry = Entry(name: string, isFile: bool)

  /** A folder that exists: either `os.listdir` raised, or it listed entries. */
  datatype Listing = Unlistable | Listed(entries: seq<Entry>)

  type FolderMap = map<string, Listing>

  /** The tuple `(file_path, folder_name, filename)` queued for checking. */
  datatype ImageTask = ImageTask(path: string, folder: string, filename: string)

  const ImageExtensions: set<string> := {".jpg", ".jpeg", ".png", ".gif", ".bmp", ".tiff", ".webp", ".ico"}

  /** A directory entry is checked when it is a regular file whose lower-cased
      `splitext` extension is one of the image extensions. */
  predicate Qualifies(e: Entry) {
    e.isFile && Lower(SplitExt(e.name).1) in ImageExtensions
  }

  function TaskFor(folderPath: string, folder: string, e: Entry): ImageTask {
    ImageTask(Join(folderPath, e.name), folder, e.name)
  }

  /** How many entries of a listing qualify (the inner loop of the count). */
  function CountQualifying(entries: seq<Entry>): nat {
    if entries == [] then 0
    else CountQualifying(entries[..|entries| - 1]) + (if Qualifies(entries[|entries| - 1]) then 1 else 0)
  }

  /** The tasks one listed folder contributes, in listing order, as many as
      the count expects. */
  function FolderTasks(folderPath: string, folder: string, entries: seq<Entry>): (r: seq<ImageTask>)
    ensures |r| == CountQualifying(entries)
  {
    if entries == [] then []
    else
      var last := entries[|entries| - 1];
      FolderTasks(folderPath, folder, entries[..|entries| - 1]) + (if Qualifies(last) then [TaskFor(folderPath, folder, last)] else [])
  }

  /** A listing yields a task for exactly its qualifying entries. */
  lemma {:induction false} FolderTasksMembership(folderPath: string, folder: string, entries: seq<Entry>, t: ImageTask)
    ensures t in FolderTasks(folderPath, folder, entries) <==>
      exists e :: e in entries && Qualifies(e) && t == TaskFor(folderPath, folder, e)
  {
    if entries != [] {
      var init := entries[..|entries| - 1];
      var last := entries[|entries| - 1];
      assert entries == init + [last];
      FolderTasksMembership(folderPath, folder, init, t);
    }
  }

  /** `name` is an existing folder whose listing holds `e`. */
  predicate FolderEntry(fs: FolderMap, name: string, e: Entry) {
    name in fs && fs[name].Listed? && e in fs[name].entries
  }

  /** The tasks of one folder name, already stripped: none for a blank name,
      a missing folder or a folder that cannot be listed; otherwise one per
      qualifying entry of its listing. */
  function TasksOfFolder(root: string, name: string, fs: FolderMap): seq<ImageTask> {
    if name == [] || name !in fs || fs[name].Unlistable? then []
    else FolderTasks(Join(root, name), name, fs[name].entries)
  }

  lemma TasksOfFolderMembership(root: string, name: string, fs: FolderMap, t: ImageTask)
    ensures t in TasksOfFolder(root, name, fs) <==>
      name != [] && exists e :: FolderEntry(fs, name, e) && Qualifies(e) && t == TaskFor(Join(root, name), name, e)
  {
    if name != [] && name in fs && fs[name].Listed? {
      FolderTasksMembership(Join(root, name), name, fs[name].entries, t);
    }
  }

  /** The tasks of each name of the list, in list order. */
  function PerFolder(root: string, names: seq<string>, fs: FolderMap): (r: seq<seq<ImageTask>>)
    ensures |r| == |names|
  {
    seq(|names|, k requires 0 <= k < |names| => TasksOfFolder(root, Strip(names[k]), fs))
  }

  /** The concatenation of a list of lists. */
  function Flatten<T>(ss: seq<seq<T>>): seq<T> {
    if ss == [] then [] else Flatten(ss[..|ss| - 1]) + ss[|ss| - 1]
  }

  /** Concatenating one more list at the end. */
  lemma FlattenSnoc<T>(ss: seq<seq<T>>, x: seq<T>)
    ensures Flatten(ss + [x]) == Flatten(ss) + x
  {
    assert (ss + [x])[..|ss|] == ss;
  }

  /** An element is in the concatenation exactly when it is in one of the
      lists. */
  lemma {:induction false} FlattenMembership<T>(ss: seq<seq<T>>, t: T)
    ensures t in Flatten(ss) <==> exists k :: 0 <= k < |ss| && t in ss[k]
  {
    if ss != [] {
      var init := ss[..|ss| - 1];
      FlattenMembership(init, t);
      assert forall k :: 0 <= k < |init| ==> init[k] == ss[k];
    }
  }

  /** The task list the collection loop builds, folder by folder. */
  function CollectTasks(root: string, names: seq<string>, fs: FolderMap): seq<ImageTask> {
    Flatten(PerFolder(root, names, fs))
  }

  /** The images the count finds under one (stripped) name. Unlike the
      collection loop, the count does not skip a blank name: it counts the
      main folder itself. */
  function ImagesIn(fs: FolderMap, name: string): nat {
    if name in fs && fs[name].Listed? then CountQualifying(fs[name].entries) else 0
  }

  function CountedImages(names: seq<string>, fs: FolderMap): nat {
    if names == [] then 0
    else CountedImages(names[..|names| - 1], fs) + ImagesIn(fs, Strip(names[|names| - 1]))
  }

  /** The number of names that are not blank once stripped. */
  function NonBlankCount(names: seq<string>): nat {
    if names == [] then 0
    else NonBlankCount(names[..|names| - 1]) + (if Strip(names[|names| - 1]) != [] then 1 else 0)
  }

  /** The inner loop of `count_images_in_folders`: the qualifying entries
      of one listing. */
  method CountInListing(entries: seq<Entry>) returns (n: nat)
    ensures n == CountQualifying(entries)
  {
    n := 0;
    for j := 0 to |entries|
      invariant n == CountQualifying(entries[..j])
    {
      assert entries[..j + 1][..j] == entries[..j];
      if Qualifies(entries[j]) {
        n := n + 1;
      }
    }
    assert entries[..|entries|] == entries;
  }

  /** `count_images_in_folders`: the number of qualifying entries over all
      named folders that exist and can be listed. */
  method CountImagesInFolders(names: seq<string>, fs: FolderMap) returns (total: nat)
    ensures total == CountedImages(names, fs)
  {
    total := 0;
    for i := 0 to |names|
      invariant total == CountedImages(names[..i], fs)
    {
      assert names[..i + 1][..i] == names[..i];
      var name := Strip(names[i]);
      if name in fs && fs[name].Listed? {
        var n := CountInListing(fs[name].entries);
        total := total + n;
      }
    }
    assert names[..|names|] == names;
  }

  /** The collection of a list is that of all but its last name, followed
      by the tasks of the last name. */
  lemma CollectTasksSnoc(root: string, names: seq<string>, fs: FolderMap)
    requires names != []
    ensures CollectTasks(root, names, fs) ==
      CollectTasks(root, names[..|names| - 1], fs) + TasksOfFolder(root, Strip(names[|names| - 1]), fs)
  {
    var per := PerFolder(root, names, fs);
    assert per == PerFolder(root, names[..|names| - 1], fs) + [per[|per| - 1]];
    FlattenSnoc(PerFolder(root, names[..|names| - 1], fs), per[|per| - 1]);
  }

  /** When no name is blank (as `start_processing` guarantees) the count and
      the task list agree: the progress denominator is the number of tasks. */
  lemma {:induction false} CountMatchesCollected(root: string, names: seq<string>, fs: FolderMap)
    requires forall k :: 0 <= k < |names| ==> Strip(names[k]) != []
    ensures CountedImages(names, fs) == |CollectTasks(root, names, fs)|
  {
    if names != [] {
      var init := names[..|names| - 1];
      CountMatchesCollected(root, init, fs);
      CollectTasksSnoc(root, names, fs);
    }
  }

  /** A task is collected exactly when it is one of the tasks of some
      folder name in the list (and, by `TasksOfFolder`, exactly for a
      qualifying entry of a listed folder named by a non-blank name). */
  lemma CollectTasksMembership(root: string, names: seq<string>, fs: FolderMap, t: ImageTask)
    ensures t in CollectTasks(root, names, fs) <==>
      exists k :: 0 <= k < |names| && t in TasksOfFolder(root, Strip(names[k]), fs)
  {
    var per := PerFolder(root, names, fs);
    FlattenMembership(per, t);
    assert forall k :: 0 <= k < |names| ==> per[k] == TasksOfFolder(root, Strip(names[k]), fs);
  }

  /** The extension is compared lower-cased: `X.JPG` is checked. */
  lemma UpperCaseExtensionQualifies()
    ensures Qualifies(Entry("X.JPG", true))
  {
    ExtensionOfPlainName();
    assert Lower(".JPG") == ".jpg";
  }

  /** Only the last suffix counts: `a.jpg.zip` is not checked. */
  lemma LastSuffixDecides()
    ensures !Qualifies(Entry("a.jpg.zip", true))
  {
    ExtensionIsLastSuffix();
    assert Lower(".zip") == ".zip";
    assert ".zip"[1] == 'z';
  }

  /** `.png` has no extension and `b.png` is not a regular file: neither is
      checked. */
  lemma HiddenFileAndDirectoryAreSkipped()
    ensures !Qualifies(Entry(".png", true))
    ensures !Qualifies(Entry("b.png", false))
  {
    NoExtensionExamples();
    assert Lower("") == "";
  }
}
