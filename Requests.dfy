/** The checks `start_processing` makes on a request before it starts a
    scan, and how it turns the folder-names text into the list of names. */
module Requests {
  import opened Outcome
  import opened PyText

  /** The four rejections, in the order they are tested. */
  datatype StartError = MissingFields | RootMissing | AlreadyProcessing | NoFolderNames

  /** The `error` text of each rejection (all answered with status 400). */
  function ErrorText(e: StartError): string {
    match e
    case MissingFields => "Please provide both folder path and folder names"
    case RootMissing => "Main folder path does not exist"
    case AlreadyProcessing => "Processing is already in progress"
    case NoFolderNames => "Please provide at least one folder name"
  }

  const StartedText: string := "Processing started successfully"

  datatype StartOutcome = Rejected(error: StartError) | Accepted(root: string, names: seq<string>)

  /** `data.get(key, '')`: a missing key reads as the empty string. */
  function FieldOrEmpty(v: Option<string>): string {
    if v.Some? then v.value else ""
  }

  /** `[l.strip() for l in lines if l.strip()]`: the stripped lines that are
      not blank, in order. */
  function KeepNonBlank(lines: seq<string>): (r: seq<string>)
    ensures |r| <= |lines|
    ensures forall k :: 0 <= k < |r| ==> r[k] != [] && IsStripped(r[k])
  {
    if lines == [] then []
    else
      var rest := KeepNonBlank(lines[1..]);
      if Strip(lines[0]) != [] then [Strip(lines[0])] + rest else rest
  }

  /** The names keep the order of their lines, and a line given twice is
      kept twice: filtering a concatenation filters each part in turn. */
  lemma {:induction false} KeepNonBlankAppend(a: seq<string>, b: seq<string>)
    ensures KeepNonBlank(a + b) == KeepNonBlank(a) + KeepNonBlank(b)
  {
    if a == [] {
      assert a + b == b;
    } else {
      assert (a + b)[0] == a[0] && (a + b)[1..] == a[1..] + b;
      KeepNonBlankAppend(a[1..], b);
    }
  }

  /** Every kept name is the non-blank stripped form of one of the lines. */
  lemma {:induction false} KeptComesFromLine(lines: seq<string>, x: string)
    requires x in KeepNonBlank(lines)
    ensures exists k :: 0 <= k < |lines| && x == Strip(lines[k])
  {
    var rest := KeepNonBlank(lines[1..]);
    if x in rest {
      KeptComesFromLine(lines[1..], x);
      var k :| 0 <= k < |lines[1..]| && x == Strip(lines[1..][k]);
      assert x == Strip(lines[k + 1]);
    } else {
      assert x == Strip(lines[0]);
    }
  }

  /** Every line that is not blank once stripped is kept, stripped. */
  lemma {:induction false} LineIsKept(lines: seq<string>, k: nat)
    requires k < |lines| && Strip(lines[k]) != []
    ensures Strip(lines[k]) in KeepNonBlank(lines)
  {
    var name, rest := Strip(lines[k]), KeepNonBlank(lines[1..]);
    if k > 0 {
      assert lines[1..][k - 1] == lines[k];
      LineIsKept(lines[1..], k - 1);
      assert name in rest;
      var first := Strip(lines[0]);
      assert KeepNonBlank(lines) == (if first != [] then [first] + rest else rest);
    }
  }

  /** The folder names a request carries: its text split at newlines, each
      line stripped, blank lines dropped. */
  function FolderNames(input: string): seq<string> {
    KeepNonBlank(Split(input, '\n'))
  }

  /** No name holds a newline, and each is stripped and non-empty. */
  lemma FolderNamesShape(input: string)
    ensures forall k :: 0 <= k < |FolderNames(input)| ==>
      var n := FolderNames(input)[k];
      n != [] && IsStripped(n) && '\n' !in n
  {
    var lines := Split(input, '\n');
    var names := FolderNames(input);
    forall k | 0 <= k < |names|
      ensures '\n' !in names[k]
    {
      assert names[k] in names;
      KeptComesFromLine(lines, names[k]);
      var j :| 0 <= j < |lines| && names[k] == Strip(lines[j]);
      StripAddsNothing(lines[j], '\n');
    }
  }

  /** A text that is not blank once stripped holds at least one folder
      name: its first line starts with a non-space character. */
  lemma NonBlankInputHasNames(input: string)
    requires Strip(input) != []
    ensures FolderNames(Strip(input)) != []
  {
    var t := Strip(input);
    var lines := Split(t, '\n');
    JoinWithStartsWithFirst(lines, '\n');
    assert IsSpace('\n');
    assert lines[0] != [];
    assert lines[0][0] == t[0] && !IsSpace(lines[0][0]);
    assert Strip(lines[0]) != [];
    LineIsKept(lines, 0);
  }

  /** `start_processing`, up to the point where it starts the scan. The
      fields are stripped first; then, in order: both must be non-blank, the
      main folder must exist, no scan may be running, and at least one
      folder name must remain. */
  function ValidateStart(folderPath: Option<string>, folderNames: Option<string>, existing: set<string>, isProcessing: bool): (r: StartOutcome)
    ensures var root, text := Strip(FieldOrEmpty(folderPath)), Strip(FieldOrEmpty(folderNames));
      && (r == Rejected(MissingFields) <==> root == [] || text == [])
      && (r == Rejected(RootMissing) <==> root != [] && text != [] && root !in existing)
      && (r == Rejected(AlreadyProcessing) <==> root != [] && text != [] && root in existing && isProcessing)
      && (r.Accepted? <==> root != [] && text != [] && root in existing && !isProcessing)
      && (r.Accepted? ==> r.root == root && r.names == FolderNames(text) && r.names != [])
  {
    var root := Strip(FieldOrEmpty(folderPath));
    var text := Strip(FieldOrEmpty(folderNames));
    if root == [] || text == [] then Rejected(MissingFields)
    else if root !in existing then Rejected(RootMissing)
    else if isProcessing then Rejected(AlreadyProcessing)
    else
      var names := FolderNames(text);
      if names == [] then Rejected(NoFolderNames)
      else Accepted(root, names)
  }

  /** The last check can never fire: a names field that passed the first
      check always yields a folder name. */
  lemma NoFolderNamesUnreachable(folderPath: Option<string>, folderNames: Option<string>, existing: set<string>, isProcessing: bool)
    ensures ValidateStart(folderPath, folderNames, existing, isProcessing) != Rejected(NoFolderNames)
  {
    var text := FieldOrEmpty(folderNames);
    if Strip(text) != [] {
      NonBlankInputHasNames(text);
    }
  }
}
