/** `process_folders_fast` and the status record it updates: task
    collection, the completion loop over the worker results (which arrive in
    any order, and any of which may have raised), and `save_results`. The
    request handler `start_processing` that launches it is here as well,
    with the scan run to completion in place of the background thread. */
module Scan {
  import opened Outcome
  import opened PyText
  import opened PyPath
  import opened Detector
  import opened Tasks
  import opened Report
  import opened Requests

  /** The file a path names: `Absent` unless the map describes it. */
  function FileAt(files: map<string, FileFacts>, path: string): FileFacts {
    if path in files then files[path] else Absent
  }

  /** `process_single_image`: a finding for the task's folder and file name
      exactly when the file is judged corrupt. */
  function ProcessSingleImage(task: ImageTask, facts: FileFacts): (r: Option<Finding>)
    ensures r.Some? <==> IsCorrupt(facts)
    ensures r.Some? ==> r.value == Finding(task.folder, task.filename)
  {
    if IsCorrupt(facts) then Some(Finding(task.folder, task.filename)) else None
  }

  /** What the completion of task `i` adds to the findings: nothing when its
      future raised (a worker fault) or the image is sound, otherwise its
      finding. */
  function Verdict(tasks: seq<ImageTask>, files: map<string, FileFacts>, faults: set<nat>, i: nat): seq<Finding>
    requires i < |tasks|
  {
    if i in faults then []
    else match ProcessSingleImage(tasks[i], FileAt(files, tasks[i].path))
      case Some(f) => [f]
      case None => []
  }

  predicate InRange(order: seq<nat>, n: nat) {
    forall k :: 0 <= k < |order| ==> order[k] < n
  }

  /** The verdicts of all tasks, by task index. */
  function Verdicts(tasks: seq<ImageTask>, files: map<string, FileFacts>, faults: set<nat>): (r: seq<seq<Finding>>)
    ensures |r| == |tasks| && forall i :: 0 <= i < |tasks| ==> r[i] == Verdict(tasks, files, faults, i)
  {
    seq(|tasks|, i requires 0 <= i < |tasks| => Verdict(tasks, files, faults, i))
  }

  /** The findings list after the tasks complete in the order `order`, each
      completion appending its verdict. */
  function Gather(verdicts: seq<seq<Finding>>, order: seq<nat>): seq<Finding>
    requires InRange(order, |verdicts|)
  {
    if order == [] then []
    else Gather(verdicts, order[..|order| - 1]) + verdicts[order[|order| - 1]]
  }

  /** The task indices `0 .. n-1` in order. */
  function Indices(n: nat): (r: seq<nat>)
    ensures |r| == n && forall k :: 0 <= k < n ==> r[k] == k
  {
    seq(n, k requires 0 <= k < n => k)
  }

  /** The findings of a scan whose tasks complete in list order. */
  function JudgedCorrupt(tasks: seq<ImageTask>, files: map<string, FileFacts>, faults: set<nat>): seq<Finding> {
    Gather(Verdicts(tasks, files, faults), Indices(|tasks|))
  }

  lemma GatherAppend(verdicts: seq<seq<Finding>>, order: seq<nat>, i: nat)
    requires InRange(order, |verdicts|) && i < |verdicts|
    ensures Gather(verdicts, order + [i]) == Gather(verdicts, order) + verdicts[i]
  {
    assert (order + [i])[..|order|] == order;
  }

  lemma RemoveBeforeLast(order: seq<nat>, j: nat)
    requires j < |order| - 1
    ensures var init := order[..|order| - 1];
      order[..j] + order[j + 1..] == (init[..j] + init[j + 1..]) + [order[|order| - 1]]
  {
    var init := order[..|order| - 1];
    assert order[..j] == init[..j];
    assert order[j + 1..] == init[j + 1..] + [order[|order| - 1]];
  }

  /** Taking one index out of a completion order removes exactly its
      verdict from the findings. */
  lemma {:induction false} GatherRemove(verdicts: seq<seq<Finding>>, order: seq<nat>, j: nat)
    requires InRange(order, |verdicts|) && j < |order|
    ensures multiset(Gather(verdicts, order)) ==
      multiset(Gather(verdicts, order[..j] + order[j + 1..])) + multiset(verdicts[order[j]])
  {
    var n := |order|;
    var init := order[..n - 1];
    if j < n - 1 {
      var last := order[n - 1];
      var shorter := init[..j] + init[j + 1..];
      GatherRemove(verdicts, init, j);
      assert init[j] == order[j];
      RemoveBeforeLast(order, j);
      GatherAppend(verdicts, shorter, last);
    } else {
      assert order[..j] + order[j + 1..] == init;
    }
  }

  /** Dropping the last element of `a` and a matching element of `b` keeps
      the two orders permutations of each other, within range. */
  lemma RemoveMatching(a: seq<nat>, b: seq<nat>, j: nat)
    requires a != [] && multiset(a) == multiset(b) && j < |b| && b[j] == a[|a| - 1]
    ensures multiset(a[..|a| - 1]) == multiset(b[..j] + b[j + 1..])
    ensures forall k :: 0 <= k < |a| - 1 ==> a[..|a| - 1][k] == a[k]
    ensures forall k :: 0 <= k < |b| - 1 ==> (b[..j] + b[j + 1..])[k] == if k < j then b[k] else b[k + 1]
  {
    var n := |a|;
    var x := a[n - 1];
    assert a == a[..n - 1] + [x];
    assert b == b[..j] + [x] + b[j + 1..];
    assert multiset(a[..n - 1]) == multiset(a) - multiset{x};
    assert multiset(b) == multiset(b[..j]) + multiset{x} + multiset(b[j + 1..]);
    assert multiset(b[..j] + b[j + 1..]) == multiset(b) - multiset{x};
  }

  /** The order in which tasks complete does not change which findings are
      collected, only their order. */
  lemma {:induction false} GatherPermutation(verdicts: seq<seq<Finding>>, a: seq<nat>, b: seq<nat>)
    requires InRange(a, |verdicts|) && InRange(b, |verdicts|)
    requires multiset(a) == multiset(b)
    ensures multiset(Gather(verdicts, a)) == multiset(Gather(verdicts, b))
    decreases |a|
  {
    if a != [] {
      var n := |a|;
      var x := a[n - 1];
      assert x in multiset(b);
      var j :| 0 <= j < |b| && b[j] == x;
      var rest := b[..j] + b[j + 1..];
      RemoveMatching(a, b, j);
      GatherPermutation(verdicts, a[..n - 1], rest);
      GatherRemove(verdicts, b, j);
    } else {
      assert multiset(b) == multiset{};
      assert |multiset(b)| == |b|;
    }
  }

  /** A finding is collected exactly when it is the verdict of one of the
      completed tasks. */
  lemma {:induction false} GatherMembership(verdicts: seq<seq<Finding>>, order: seq<nat>, f: Finding)
    requires InRange(order, |verdicts|)
    ensures f in Gather(verdicts, order) <==> exists k :: 0 <= k < |order| && f in verdicts[order[k]]
  {
    if order != [] {
      var n := |order|;
      var init := order[..n - 1];
      GatherMembership(verdicts, init, f);
      assert forall k :: 0 <= k < n - 1 ==> init[k] == order[k];
    }
  }

  /** A finding of a scan is collected exactly for a task whose future did
      not raise and whose file is judged corrupt, and it names that task's
      folder and file. */
  lemma JudgedCorruptMembership(tasks: seq<ImageTask>, files: map<string, FileFacts>, faults: set<nat>, f: Finding)
    ensures f in JudgedCorrupt(tasks, files, faults) <==>
      exists i :: 0 <= i < |tasks| && i !in faults && IsCorrupt(FileAt(files, tasks[i].path))
        && f == Finding(tasks[i].folder, tasks[i].filename)
  {
    var vs := Verdicts(tasks, files, faults);
    var order := Indices(|tasks|);
    GatherMembership(vs, order, f);
    forall i | 0 <= i < |tasks|
      ensures f in vs[order[i]] <==>
        (i !in faults && IsCorrupt(FileAt(files, tasks[i].path)) && f == Finding(tasks[i].folder, tasks[i].filename))
    {
      assert order[i] == i;
    }
  }

  /** The collection loop's inner loop: the tasks of one listed folder. */
  method CollectFromListing(folderPath: string, folder: string, entries: seq<Entry>) returns (found: seq<ImageTask>)
    ensures found == FolderTasks(folderPath, folder, entries)
  {
    found := [];
    for j := 0 to |entries|
      invariant found == FolderTasks(folderPath, folder, entries[..j])
    {
      assert entries[..j + 1][..j] == entries[..j];
      var e := entries[j];
      if e.isFile && Lower(SplitExt(e.name).1) in ImageExtensions {
        found := found + [ImageTask(Join(folderPath, e.name), folder, e.name)];
      }
    }
    assert entries[..|entries|] == entries;
  }

  /** One named folder of the collection loop: nothing when it does not
      exist or `os.listdir` raises, otherwise the tasks of its listing. */
  method ScanFolder(root: string, name: string, fs: FolderMap) returns (found: seq<ImageTask>)
    requires name != []
    ensures found == TasksOfFolder(root, name, fs)
  {
    found := [];
    if name in fs {
      match fs[name]
      case Listed(entries) =>
        found := CollectFromListing(Join(root, name), name, entries);
      case Unlistable =>
    }
  }

  /** The last name of the list that is not blank once stripped (stripped),
      or `current` when there is none: what `current_folder` holds after the
      collection loop. */
  function LastNonBlank(names: seq<string>, current: string): string {
    if names == [] then current
    else if Strip(names[|names| - 1]) != [] then Strip(names[|names| - 1])
    else LastNonBlank(names[..|names| - 1], current)
  }

  /** How `start_processing` answers: a rejection (status 400) or the
      confirmation that the scan started. */
  datatype Reply = Refused(error: string) | Started(message: string)

  /** The name of the folder on the desktop and the base name of the
      report files in it. */
  const ReportName: string := "Corrupt Image"

  /** The global `processing_status` dictionary. `resultFile` is `None` while
      the `result_file` key is absent, which it is until a report has been
      written. */
  class ProcessingStatus {
    var isProcessing: bool
    var currentFolder: string
    var totalFolders: nat
    var processedFolders: nat
    var totalImages: nat
    var processedImages: nat
    var corruptImages: seq<Finding>
    var message: string
    var resultFile: Option<string>

    constructor()
      ensures !isProcessing && currentFolder == "" && totalFolders == 0 && processedFolders == 0
      ensures totalImages == 0 && processedImages == 0 && corruptImages == [] && message == ""
      ensures resultFile == None
    {
      isProcessing := false;
      currentFolder := "";
      totalFolders := 0;
      processedFolders := 0;
      totalImages := 0;
      processedImages := 0;
      corruptImages := [];
      message := "";
      resultFile := None;
    }

    /** The collection loop of `process_folders_fast`: every name is
        stripped and blank ones are skipped; each remaining name becomes the
        current folder and counts as processed, whether it exists, can be
        listed, or neither; the tasks are those of `CollectTasks`. */
    method CollectImageTasks(root: string, names: seq<string>, fs: FolderMap) returns (tasks: seq<ImageTask>)
      modifies this`currentFolder, this`processedFolders
      ensures tasks == CollectTasks(root, names, fs)
      ensures processedFolders == old(processedFolders) + NonBlankCount(names)
      ensures currentFolder == LastNonBlank(names, old(currentFolder))
    {
      tasks := [];
      ghost var start, first := processedFolders, currentFolder;
      for i := 0 to |names|
        invariant tasks == CollectTasks(root, names[..i], fs)
        invariant processedFolders == start + NonBlankCount(names[..i])
        invariant currentFolder == LastNonBlank(names[..i], first)
      {
        var name := Strip(names[i]);
        CollectStep(root, names, fs, i, first);
        if name != [] {
          currentFolder := name;
          var found := ScanFolder(root, name, fs);
          tasks := tasks + found;
          processedFolders := processedFolders + 1;
        }
      }
      assert names[..|names|] == names;
    }

    /** The completion loop of `process_folders_fast`. The tasks finish in an
        order chosen by the executor; each completion bumps the processed
        count and, unless its future raised, appends its finding if the
        image is corrupt. Whatever the order, the findings are those of
        `JudgedCorrupt`, each as often. */
    method CompleteTasks(tasks: seq<ImageTask>, files: map<string, FileFacts>, faults: set<nat>)
      modifies this`processedImages, this`corruptImages
      ensures processedImages == old(processedImages) + |tasks|
      ensures exists order: seq<nat> :: (InRange(order, |tasks|) && multiset(order) == multiset(Indices(|tasks|))
        && corruptImages == old(corruptImages) + Gather(Verdicts(tasks, files, faults), order))
      ensures multiset(corruptImages) == multiset(old(corruptImages)) + multiset(JudgedCorrupt(tasks, files, faults))
    {
      var pending := Indices(|tasks|);
      ghost var done: seq<nat> := [];
      ghost var verdicts := Verdicts(tasks, files, faults);
      ghost var count, found := processedImages, corruptImages;
      while pending != []
        invariant Completing(done, pending, |tasks|)
        invariant processedImages == count + |done|
        invariant corruptImages == found + Gather(verdicts, done)
        decreases |pending|
      {
        var j :| 0 <= j < |pending|;
        var i := pending[j];
        CompletionStep(verdicts, done, pending, j);
        VerdictOf(tasks, files, faults, i);
        pending := pending[..j] + pending[j + 1..];
        var outcome: seq<Finding> := [];
        if i !in faults {
          var result := ProcessSingleImage(tasks[i], FileAt(files, tasks[i].path));
          if result.Some? {
            outcome := [result.value];
          }
        }
        corruptImages := corruptImages + outcome;
        processedImages := processedImages + 1;
        done := done + [i];
      }
      CompletionEnd(verdicts, done, pending);
    }

    /** `save_results`: unless creating the folder or writing the file
        raises, the report goes to the first free name in the
        "Corrupt Image" folder on the desktop, and the status records its
        path and the success message; otherwise only the message changes. */
    method SaveResults(desktop: string, existing: set<string>, failure: Option<string>) returns (written: Option<(string, string)>)
      modifies this`message, this`resultFile
      ensures failure.Some? ==> written == None && message == SaveErrorMessage(failure.value) && resultFile == old(resultFile)
      ensures failure.None? ==> (written.Some?
        && LeastFree(Join(desktop, ReportName), ReportName, ".txt", existing, written.value.0)
        && written.value.1 == ReportText(corruptImages)
        && resultFile == Some(written.value.0)
        && message == SuccessMessage(|corruptImages|, written.value.0))
    {
      if failure.Some? {
        message := SaveErrorMessage(failure.value);
        written := None;
      } else {
        var folder := Join(desktop, ReportName);
        var path := GetUniqueFilename(folder, ReportName, ".txt", existing);
        var text := WriteReport(corruptImages);
        written := Some((path, text));
        resultFile := Some(path);
        message := SuccessMessage(|corruptImages|, path);
      }
    }

    /** `process_folders_fast` up to the report: mark the scan as running,
        reset the counters and the findings, count the images, collect the
        tasks and complete them. */
    method ScanFolders(root: string, names: seq<string>, fs: FolderMap, files: map<string, FileFacts>, faults: set<nat>)
      modifies this`isProcessing, this`totalFolders, this`totalImages, this`currentFolder, this`processedFolders, this`processedImages, this`corruptImages
      ensures isProcessing && totalFolders == |names|
      ensures totalImages == CountedImages(names, fs)
      ensures processedFolders == NonBlankCount(names)
      ensures currentFolder == LastNonBlank(names, old(currentFolder))
      ensures processedImages == |CollectTasks(root, names, fs)|
      ensures multiset(corruptImages) == multiset(JudgedCorrupt(CollectTasks(root, names, fs), files, faults))
    {
      isProcessing := true;
      corruptImages := [];
      totalFolders := |names|;
      processedFolders := 0;
      processedImages := 0;
      totalImages := CountImagesInFolders(names, fs);
      var tasks := CollectImageTasks(root, names, fs);
      CompleteTasks(tasks, files, faults);
    }

    /** `process_folders_fast`: scan, save the report and clear the busy
        flag. */
    method ProcessFolders(root: string, names: seq<string>, fs: FolderMap, files: map<string, FileFacts>,
                          faults: set<nat>, desktop: string, existing: set<string>, saveFailure: Option<string>)
      returns (written: Option<(string, string)>)
      modifies this
      ensures !isProcessing
      ensures totalFolders == |names| && processedFolders == NonBlankCount(names)
      ensures currentFolder == LastNonBlank(names, old(currentFolder))
      ensures totalImages == CountedImages(names, fs)
      ensures processedImages == |CollectTasks(root, names, fs)|
      ensures multiset(corruptImages) == multiset(JudgedCorrupt(CollectTasks(root, names, fs), files, faults))
      ensures saveFailure.Some? ==> written == None && message == SaveErrorMessage(saveFailure.value) && resultFile == old(resultFile)
      ensures saveFailure.None? ==> (written.Some?
        && LeastFree(Join(desktop, ReportName), ReportName, ".txt", existing, written.value.0)
        && written.value.1 == ReportText(corruptImages)
        && resultFile == Some(written.value.0)
        && message == SuccessMessage(|corruptImages|, written.value.0))
    {
      ScanFolders(root, names, fs, files, faults);
      written := SaveResults(desktop, existing, saveFailure);
      isProcessing := false;
    }

    /** `start_processing`: reject the request, changing nothing, or run the
        scan over the accepted names. A scan that was started always ends
        with every counted image processed and every named folder
        processed. `written` is the report file the scan wrote, as a path and
        its text, if saving succeeded. */
    method StartProcessing(folderPath: Option<string>, folderNames: Option<string>, existingPaths: set<string>,
                           fs: FolderMap, files: map<string, FileFacts>, faults: set<nat>,
                           desktop: string, saveFailure: Option<string>)
      returns (reply: Reply, written: Option<(string, string)>)
      modifies this
      ensures var v := ValidateStart(folderPath, folderNames, existingPaths, old(isProcessing));
        && (v.Rejected? ==> reply == Refused(ErrorText(v.error)) && written == None && unchanged(this))
        && (v.Accepted? ==> (reply == Started(StartedText) && !isProcessing
              && processedImages == totalImages && processedFolders == totalFolders
              && totalFolders == |v.names| && totalImages == |CollectTasks(v.root, v.names, fs)|
              && currentFolder == v.names[|v.names| - 1]
              && multiset(corruptImages) == multiset(JudgedCorrupt(CollectTasks(v.root, v.names, fs), files, faults))
              && (saveFailure.Some? ==> written == None && message == SaveErrorMessage(saveFailure.value) && resultFile == old(resultFile))
              && (saveFailure.None? ==> (written.Some?
                    && LeastFree(Join(desktop, ReportName), ReportName, ".txt", existingPaths, written.value.0)
                    && written.value.1 == ReportText(corruptImages)
                    && resultFile == Some(written.value.0)
                    && message == SuccessMessage(|corruptImages|, written.value.0)))))
    {
      var v := ValidateStart(folderPath, folderNames, existingPaths, isProcessing);
      if v.Rejected? {
        reply := Refused(ErrorText(v.error));
        written := None;
      } else {
        FolderNamesShape(Strip(FieldOrEmpty(folderNames)));
        AllNamed(v.names);
        StripStripped(v.names[|v.names| - 1]);
        CountMatchesCollected(v.root, v.names, fs);
        written := ProcessFolders(v.root, v.names, fs, files, faults, desktop, existingPaths, saveFailure);
        reply := Started(StartedText);
      }
    }
  }

  /** What one more name adds to the collected tasks, the processed-folder
      count and the current folder. */
  lemma CollectStep(root: string, names: seq<string>, fs: FolderMap, i: nat, current: string)
    requires i < |names|
    ensures CollectTasks(root, names[..i + 1], fs) == CollectTasks(root, names[..i], fs) + TasksOfFolder(root, Strip(names[i]), fs)
    ensures NonBlankCount(names[..i + 1]) == NonBlankCount(names[..i]) + if Strip(names[i]) != [] then 1 else 0
    ensures LastNonBlank(names[..i + 1], current) == if Strip(names[i]) != [] then Strip(names[i]) else LastNonBlank(names[..i], current)
  {
    assert names[..i + 1][..i] == names[..i];
    CollectTasksSnoc(root, names[..i + 1], fs);
  }

  /** The verdict of task `i`, spelled out: nothing when its future raised,
      otherwise the finding `process_single_image` returns, if any. */
  lemma VerdictOf(tasks: seq<ImageTask>, files: map<string, FileFacts>, faults: set<nat>, i: nat)
    requires i < |tasks|
    ensures Verdicts(tasks, files, faults)[i] ==
      if i in faults then []
      else var r := ProcessSingleImage(tasks[i], FileAt(files, tasks[i].path)); if r.Some? then [r.value] else []
  {
  }

  /** The completion loop's bookkeeping: `done` lists the tasks completed
      so far, in completion order, and `pending` the others. */
  ghost predicate Completing(done: seq<nat>, pending: seq<nat>, n: nat) {
    InRange(pending, n) && InRange(done, n) && multiset(done) + multiset(pending) == multiset(Indices(n))
  }

  /** Completing the `j`-th pending task keeps the bookkeeping and appends
      that task's verdict. */
  lemma CompletionStep(verdicts: seq<seq<Finding>>, done: seq<nat>, pending: seq<nat>, j: nat)
    requires Completing(done, pending, |verdicts|) && j < |pending|
    ensures Completing(done + [pending[j]], pending[..j] + pending[j + 1..], |verdicts|)
    ensures Gather(verdicts, done + [pending[j]]) == Gather(verdicts, done) + verdicts[pending[j]]
  {
    TakeOut(pending, j, |verdicts|);
    GatherAppend(verdicts, done, pending[j]);
  }

  /** Once nothing is pending, every task completed exactly once, so the
      findings are those of the tasks in list order, rearranged. */
  lemma CompletionEnd(verdicts: seq<seq<Finding>>, done: seq<nat>, pending: seq<nat>)
    requires Completing(done, pending, |verdicts|) && pending == []
    ensures multiset(done) == multiset(Indices(|verdicts|))
    ensures multiset(Gather(verdicts, done)) == multiset(Gather(verdicts, Indices(|verdicts|)))
  {
    GatherPermutation(verdicts, done, Indices(|verdicts|));
  }

  /** Taking the `j`-th index out of the pending list. */
  lemma TakeOut(pending: seq<nat>, j: nat, n: nat)
    requires j < |pending| && InRange(pending, n)
    ensures multiset(pending) == multiset(pending[..j] + pending[j + 1..]) + multiset{pending[j]}
    ensures InRange(pending[..j] + pending[j + 1..], n)
  {
    var rest := pending[..j] + pending[j + 1..];
    assert pending == pending[..j] + [pending[j]] + pending[j + 1..];
    forall k | 0 <= k < |rest|
      ensures rest[k] < n
    {
      if k < j {
        assert rest[k] == pending[k];
      } else {
        assert rest[k] == pending[k + 1];
      }
    }
  }

  /** Names that are all stripped and non-blank are each processed, and
      none is skipped by the collection loop. */
  lemma {:induction false} AllNamed(names: seq<string>)
    requires forall k :: 0 <= k < |names| ==> names[k] != [] && IsStripped(names[k])
    ensures forall k :: 0 <= k < |names| ==> Strip(names[k]) != []
    ensures NonBlankCount(names) == |names|
  {
    forall k | 0 <= k < |names|
      ensures Strip(names[k]) != []
    {
      StripStripped(names[k]);
    }
    if names != [] {
      AllNamed(names[..|names| - 1]);
    }
  }
}
