/** The result file: how `get_unique_filename` picks a path that does not
    exist yet, the tab-separated text `save_results` writes into it, and the
    message that reports it. */
module Report {
  import opened PyText
  import opened PyPath
  import opened Outcome

  /** One corrupt image, the dictionary `{'folder': ..., 'image': ...}`. */
  datatype Finding = Finding(folder: string, image: string)

  /** The `n`-th name `get_unique_filename` tries: `base + ext` first, then
      `base + " 2" + ext`, `base + " 3" + ext`, and so on. */
  function Candidate(folder: string, base: string, ext: string, n: nat): string {
    if n <= 1 then Join(folder, base + ext)
    else Join(folder, base + " " + NatToString(n) + ext)
  }

  /** From the second try on, different counters give different paths. */
  lemma CandidateInjective(folder: string, base: string, ext: string, n: nat, m: nat)
    requires n >= 2 && m >= 2
    requires Candidate(folder, base, ext, n) == Candidate(folder, base, ext, m)
    ensures n == m
  {
    var dn, dm := NatToString(n), NatToString(m);
    var an, am := base + " " + dn + ext, base + " " + dm + ext;
    assert an[0] == am[0] by {
      if base == [] {
        assert an[0] == ' ' == am[0];
      } else {
        assert an[0] == base[0] == am[0];
      }
    }
    JoinInjective(folder, an, am);
    assert an[|base| + 1..] == dn + ext;
    assert am[|base| + 1..] == dm + ext;
    assert |dn| == |dm|;
    assert dn == (dn + ext)[..|dn|] == (dm + ext)[..|dm|] == dm;
    NatToStringInjective(n, m);
  }

  /** Every candidate before the `n`-th exists. */
  ghost predicate AllTaken(folder: string, base: string, ext: string, existing: set<string>, n: nat) {
    forall m :: 1 <= m < n ==> Candidate(folder, base, ext, m) in existing
  }

  lemma TakenExtend(folder: string, base: string, ext: string, existing: set<string>, n: nat)
    requires AllTaken(folder, base, ext, existing, n) && Candidate(folder, base, ext, n) in existing
    ensures AllTaken(folder, base, ext, existing, n + 1)
  {
  }

  /** Every path in `tried` is a numbered candidate below `counter`. */
  ghost predicate TriedBefore(folder: string, base: string, ext: string, tried: set<string>, counter: nat) {
    forall p :: p in tried ==> exists m :: 2 <= m < counter && p == Candidate(folder, base, ext, m)
  }

  lemma CandidateNotTried(folder: string, base: string, ext: string, tried: set<string>, counter: nat)
    requires counter >= 2 && TriedBefore(folder, base, ext, tried, counter)
    ensures Candidate(folder, base, ext, counter) !in tried
  {
    var path := Candidate(folder, base, ext, counter);
    if path in tried {
      var m :| 2 <= m < counter && path == Candidate(folder, base, ext, m);
      CandidateInjective(folder, base, ext, m, counter);
    }
  }

  /** One turn of the loop: the path just found taken is new to `tried`. */
  lemma TriedStep(folder: string, base: string, ext: string, tried: set<string>, counter: nat)
    requires counter >= 1 && TriedBefore(folder, base, ext, tried, counter)
    ensures counter >= 2 ==> Candidate(folder, base, ext, counter) !in tried
    ensures TriedBefore(folder, base, ext, if counter >= 2 then tried + {Candidate(folder, base, ext, counter)} else tried, counter + 1)
  {
    if counter >= 2 {
      CandidateNotTried(folder, base, ext, tried, counter);
    }
  }

  /** `path` does not exist and is the first candidate that does not: every
      candidate tried before it exists. */
  ghost predicate LeastFree(folder: string, base: string, ext: string, existing: set<string>, path: string) {
    && path !in existing
    && exists n :: n >= 1 && path == Candidate(folder, base, ext, n) &&
         forall m :: 1 <= m < n ==> Candidate(folder, base, ext, m) in existing
  }

  /** `get_unique_filename(folder, base, ext)`, given the set of paths that
      exist: the first candidate path that does not exist. Every earlier
      candidate exists, so the result is the least free one. */
  method GetUniqueFilename(folder: string, base: string, ext: string, existing: set<string>) returns (path: string)
    ensures LeastFree(folder, base, ext, existing, path)
  {
    var counter: nat := 1;
    path := Join(folder, base + ext);
    ghost var tried: set<string> := {};
    while path in existing
      invariant counter >= 1
      invariant path == Candidate(folder, base, ext, counter)
      invariant AllTaken(folder, base, ext, existing, counter)
      invariant tried <= existing
      invariant TriedBefore(folder, base, ext, tried, counter)
      decreases |existing - tried|, if counter == 1 then 1 else 0
    {
      ghost var next := if counter >= 2 then tried + {path} else tried;
      TriedStep(folder, base, ext, tried, counter);
      assert counter >= 2 ==> existing - next < existing - tried;
      tried := next;
      TakenExtend(folder, base, ext, existing, counter);
      counter := counter + 1;
      path := Join(folder, base + " " + NatToString(counter) + ext);
    }
  }

  /** The first line of the report. */
  const HeaderLine: string := "Folder\tImages"

  /** The two fields of one finding, separated by a tab. */
  function RowLine(f: Finding): string {
    f.folder + "\t" + f.image
  }

  /** The lines after the header, one per finding, each ended by a newline. */
  function Rows(findings: seq<Finding>): string {
    if findings == [] then "" else RowLine(findings[0]) + "\n" + Rows(findings[1..])
  }

  /** The whole file `save_results` writes. */
  function ReportText(findings: seq<Finding>): string {
    HeaderLine + "\n" + Rows(findings)
  }

  lemma {:induction false} RowsAppend(findings: seq<Finding>, f: Finding)
    ensures Rows(findings + [f]) == Rows(findings) + RowLine(f) + "\n"
  {
    if findings != [] {
      assert (findings + [f])[1..] == findings[1..] + [f];
      RowsAppend(findings[1..], f);
    }
  }

  /** The writing loop of `save_results`: the header line, then one line per
      finding in the order of the list. */
  method WriteReport(findings: seq<Finding>) returns (text: string)
    ensures text == ReportText(findings)
  {
    text := "Folder\tImages\n";
    for i := 0 to |findings|
      invariant text == ReportText(findings[..i])
    {
      RowsAppend(findings[..i], findings[i]);
      assert findings[..i + 1] == findings[..i] + [findings[i]];
      text := text + findings[i].folder + "\t" + findings[i].image + "\n";
    }
    assert findings[..|findings|] == findings;
  }

  /** A report line read back: exactly two tab-separated fields. */
  function ParseRow(line: string): Option<Finding> {
    var fields := Split(line, '\t');
    if |fields| == 2 then Some(Finding(fields[0], fields[1])) else None
  }

  function ParseRows(lines: seq<string>): Option<seq<Finding>> {
    if lines == [] then Some([])
    else match (ParseRow(lines[0]), ParseRows(lines[1..]))
      case (Some(f), Some(rest)) => Some([f] + rest)
      case _ => None
  }

  /** Reading a report: the header line, then one line per finding, and
      nothing after the final newline. */
  function ParseReport(text: string): Option<seq<Finding>> {
    var lines := Split(text, '\n');
    if |lines| < 2 || lines[0] != HeaderLine || lines[|lines| - 1] != "" then None
    else ParseRows(lines[1..|lines| - 1])
  }

  /** A field the report can carry unambiguously. */
  predicate PlainField(s: string) {
    '\t' !in s && '\n' !in s
  }

  predicate PlainFinding(f: Finding) {
    PlainField(f.folder) && PlainField(f.image)
  }

  /** The report lines of the findings, one each, without line ends. */
  function RowLines(findings: seq<Finding>): (r: seq<string>)
    ensures |r| == |findings| && forall k :: 0 <= k < |r| ==> r[k] == RowLine(findings[k])
  {
    seq(|findings|, k requires 0 <= k < |findings| => RowLine(findings[k]))
  }

  lemma {:induction false} RowsAsJoin(findings: seq<Finding>)
    ensures JoinWith(RowLines(findings) + [""], '\n') == Rows(findings)
  {
    if findings != [] {
      var tail := RowLines(findings[1..]) + [""];
      assert RowLines(findings) + [""] == [RowLine(findings[0])] + tail;
      assert (RowLines(findings) + [""])[1..] == tail;
      RowsAsJoin(findings[1..]);
    }
  }

  lemma ParseRowOfRowLine(f: Finding)
    requires PlainFinding(f)
    ensures ParseRow(RowLine(f)) == Some(f)
  {
    SplitAtSeparator(f.folder, '\t', f.image);
  }

  lemma {:induction false} ParseRowsOfRowLines(findings: seq<Finding>)
    requires forall k :: 0 <= k < |findings| ==> PlainFinding(findings[k])
    ensures ParseRows(RowLines(findings)) == Some(findings)
  {
    if findings != [] {
      var lines := RowLines(findings);
      var tail := findings[1..];
      ParseRowOfRowLine(findings[0]);
      assert lines[1..] == RowLines(tail);
      ParseRowsOfRowLines(tail);
      assert findings == [findings[0]] + tail;
    }
  }

  /** The report is a faithful record: when no folder or image name holds a
      tab or a newline, reading the file back gives the findings in order,
      and the file has exactly one line per finding after the header. */
  lemma ReportRoundTrip(findings: seq<Finding>)
    requires forall k :: 0 <= k < |findings| ==> PlainFinding(findings[k])
    ensures |Split(ReportText(findings), '\n')| == |findings| + 2
    ensures ParseReport(ReportText(findings)) == Some(findings)
  {
    var rows := RowLines(findings);
    var lines := [HeaderLine] + rows + [""];
    RowsAsJoin(findings);
    assert lines[1..] == rows + [""];
    assert JoinWith(lines, '\n') == ReportText(findings);
    forall k | 0 <= k < |lines|
      ensures '\n' !in lines[k]
    {
      if 1 <= k < |lines| - 1 {
        assert lines[k] == RowLine(findings[k - 1]);
      }
    }
    SplitJoinWith(lines, '\n');
    assert lines[1..|lines| - 1] == rows;
    ParseRowsOfRowLines(findings);
  }

  /** The status message after the report was written. */
  function SuccessMessage(count: nat, path: string): string {
    "Found " + NatToString(count) + " corrupt images. Results saved to: " + path
  }

  /** The status message when creating the folder or writing the file raised. */
  function SaveErrorMessage(error: string): string {
    "Error saving file: " + error
  }

  /** The message states the number of findings in decimal and the path. */
  lemma SuccessMessageReadsBack(count: nat, path: string)
    ensures exists digits :: (SuccessMessage(count, path) == "Found " + digits + " corrupt images. Results saved to: " + path
      && (forall k :: 0 <= k < |digits| ==> '0' <= digits[k] <= '9') && DecimalValue(digits) == count)
  {
    DecimalRoundTrip(count);
  }
}
