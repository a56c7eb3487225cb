/** `check_image_corruption_fast`: the decision whether one image file is
    corrupt. The filesystem and the imaging library are abstract: a file is
    described by what each step of the procedure observes (its size, the
    header the first open reports, and for every later step whether it
    raised and with what exception). */
module Detector {
  import opened Outcome
  import opened PyText

  /** What `Image.open` reports before any pixel data is decoded. The image
      mode only chooses the target of `convert`, which is observed through
      `convert`'s outcome, so it is not recorded. */
  datatype Header = Header(format: Option<string>, width: int, height: int)

  /** One file as the procedure sees it. `Absent` is a path for which
      `os.path.exists` is false. `probe` is the exception raised by the first
      `getpixel` call that raised, if one did. */
  datatype FileFacts =
    | Absent
    | Present(
        size: Attempt<nat>,        // os.path.getsize
        open: Attempt<Header>,     // the first Image.open
        load: Option<PyError>,     // img.load()
        convert: Option<PyError>,  // img.convert(...)
        probe: Option<PyError>,    // the getpixel probes
        reopen: Option<PyError>,   // the second Image.open
        verify: Option<PyError>)   // img.verify()

  /** The keyword lists of the three `except` clauses, in source order. */
  const OSErrorKeywords: seq<string> := ["truncated", "corrupt", "invalid", "broken", "damaged"]
  const ValueOrTypeErrorKeywords: seq<string> := ["corrupt", "invalid", "truncated", "broken"]
  const OtherErrorKeywords: seq<string> := ["corrupt", "truncated", "invalid", "broken", "damaged"]

  /** The list the clause catching an exception of family `cls` searches. */
  function HandlerKeywords(cls: ExcClass): seq<string> {
    match cls
    case OSErrorClass => OSErrorKeywords
    case ValueErrorClass => ValueOrTypeErrorKeywords
    case TypeErrorClass => ValueOrTypeErrorKeywords
    case IndexErrorClass => OtherErrorKeywords
    case OtherClass => OtherErrorKeywords
  }

  /** The corruption words, as a set: every handler looks for "truncated",
      "corrupt", "invalid" and "broken"; all but the ValueError/TypeError
      handler also look for "damaged". */
  function CorruptionWords(cls: ExcClass): set<string> {
    var common := {"truncated", "corrupt", "invalid", "broken"};
    if cls == ValueErrorClass || cls == TypeErrorClass then common else common + {"damaged"}
  }

  /** The verdict of the `except` clause that catches `e`: whether the
      lower-cased message contains one of that clause's words. */
  function IsCorruptionError(e: PyError): bool {
    ContainsAny(Lower(e.msg), HandlerKeywords(e.cls))
  }

  /** An exception counts as corruption exactly when its lower-cased
      message contains one of the corruption words of its handler. */
  lemma IsCorruptionErrorSpec(e: PyError)
    ensures IsCorruptionError(e) <==> exists w :: w in CorruptionWords(e.cls) && Contains(Lower(e.msg), w)
  {
    var words := HandlerKeywords(e.cls);
    assert forall w :: w in words <==> w in CorruptionWords(e.cls);
  }

  /** The handler around the pixel probes catches these families. */
  predicate CaughtAtProbe(cls: ExcClass) {
    cls == IndexErrorClass || cls == ValueErrorClass || cls == OSErrorClass
  }

  /** How the body of the outer `try` ends: by returning a verdict, or by
      letting an exception reach the outer handlers. */
  datatype BodyOutcome = Returns(corrupt: bool) | Raises(error: PyError)

  /** The stages of the procedure, each reached only when the one before
      it passed. */
  predicate Opened(f: FileFacts) {
    f.Present? && f.size.Done? && f.size.value > 0 && f.open.Done?
  }

  predicate Decodable(f: FileFacts) {
    Opened(f) && f.open.value.format.Some? && f.open.value.width > 0 && f.open.value.height > 0
  }

  predicate Materialised(f: FileFacts) {
    Decodable(f) && f.load.None? && f.convert.None?
  }

  /** Every step succeeded, `verify()` included. */
  predicate Intact(f: FileFacts) {
    Materialised(f) && f.probe.None? && f.reopen.None? && f.verify.None?
  }

  /** The conditions under which the procedure declares the file corrupt
      without consulting any error message: missing, empty, no format,
      non-positive dimension, or a probe failure of a family the probe
      handler catches. */
  predicate StructurallyCorrupt(f: FileFacts) {
    || f.Absent?
    || (f.Present? && f.size == Done(0))
    || (Opened(f) && !Decodable(f))
    || (Materialised(f) && f.probe.Some? && CaughtAtProbe(f.probe.value.cls))
  }

  /** The exceptions the file's steps raise, whichever step raised them. */
  function RecordedErrors(f: FileFacts): set<PyError> {
    if f.Absent? then {}
    else
      (if f.size.Raised? then {f.size.err} else {})
      + (if f.open.Raised? then {f.open.err} else {})
      + (if f.load.Some? then {f.load.value} else {})
      + (if f.convert.Some? then {f.convert.value} else {})
      + (if f.probe.Some? then {f.probe.value} else {})
      + (if f.reopen.Some? then {f.reopen.value} else {})
      + (if f.verify.Some? then {f.verify.value} else {})
  }

  /** The body of the outer `try`: the first failing step decides. It returns
      "not corrupt" exactly when every step succeeded, returns "corrupt"
      exactly on the structural conditions, and otherwise lets one of the
      file's own exceptions escape. */
  function TryBody(f: FileFacts): BodyOutcome {
    match f
    case Absent => Returns(true)
    case Present(size, open, load, convert, probe, reopen, verify) =>
      match size
      case Raised(e) => Raises(e)
      case Done(n) =>
        if n == 0 then Returns(true)
        else match open
          case Raised(e) => Raises(e)
          case Done(h) =>
            if h.format.None? then Returns(true)
            else if h.width <= 0 || h.height <= 0 then Returns(true)
            else if load.Some? then Raises(load.value)
            else if convert.Some? then Raises(convert.value)
            else if probe.Some? then
              if CaughtAtProbe(probe.value.cls) then Returns(true) else Raises(probe.value)
            else if reopen.Some? then Raises(reopen.value)
            else if verify.Some? then Raises(verify.value)
            else Returns(false)
  }

  lemma TryBodySpec(f: FileFacts)
    ensures TryBody(f) == Returns(false) <==> Intact(f)
    ensures TryBody(f) == Returns(true) <==> StructurallyCorrupt(f)
    ensures TryBody(f).Raises? ==> TryBody(f).error in RecordedErrors(f)
  {
  }

  /** `check_image_corruption_fast`: the body's verdict, or the verdict of the
      handler that catches its exception. The structural conditions always
      mean corrupt, a file every step accepts is never corrupt, any other
      corrupt verdict comes from a corruption word in one of the file's own
      error messages, and when no message holds such a word the structural
      conditions are the whole story. */
  function IsCorrupt(f: FileFacts): bool {
    match TryBody(f)
    case Returns(b) => b
    case Raises(e) => IsCorruptionError(e)
  }

  lemma IsCorruptSpec(f: FileFacts)
    ensures StructurallyCorrupt(f) ==> IsCorrupt(f)
    ensures Intact(f) ==> !IsCorrupt(f)
    ensures IsCorrupt(f) ==> StructurallyCorrupt(f) || exists e :: e in RecordedErrors(f) && IsCorruptionError(e)
    ensures (forall e :: e in RecordedErrors(f) ==> !IsCorruptionError(e)) ==> (IsCorrupt(f) <==> StructurallyCorrupt(f))
  {
    TryBodySpec(f);
  }

  /** Only the first step that raised matters: once a step is reached and
      raises, its exception alone reaches the outer handlers and decides the
      verdict, whatever the later steps would have raised. An exception of a
      family the probe handler does not catch escapes from the probes in the
      same way. */
  lemma FirstFailureDecides(f: FileFacts)
    ensures f.Present? && f.size.Raised? ==> IsCorrupt(f) == IsCorruptionError(f.size.err)
    ensures f.Present? && f.size.Done? && f.size.value > 0 && f.open.Raised? ==> IsCorrupt(f) == IsCorruptionError(f.open.err)
    ensures Decodable(f) && f.load.Some? ==> IsCorrupt(f) == IsCorruptionError(f.load.value)
    ensures Decodable(f) && f.load.None? && f.convert.Some? ==> IsCorrupt(f) == IsCorruptionError(f.convert.value)
    ensures Materialised(f) && f.probe.Some? && !CaughtAtProbe(f.probe.value.cls) ==> IsCorrupt(f) == IsCorruptionError(f.probe.value)
    ensures Materialised(f) && f.probe.None? && f.reopen.Some? ==> IsCorrupt(f) == IsCorruptionError(f.reopen.value)
    ensures Materialised(f) && f.probe.None? && f.reopen.None? && f.verify.Some? ==> IsCorrupt(f) == IsCorruptionError(f.verify.value)
  {
  }

  /** A benign `load` failure is not overridden by a later `verify` failure
      whose message names corruption: the file is judged intact. */
  lemma LaterFailureIgnored(f: FileFacts)
    requires Decodable(f) && f.load == Some(PyError(OSErrorClass, "x"))
    requires f.verify == Some(PyError(OtherClass, "broken"))
    ensures !IsCorrupt(f)
  {
    assert Lower("x") == "x";
    IsCorruptionErrorSpec(PyError(OSErrorClass, "x"));
    forall w | w in CorruptionWords(OSErrorClass)
      ensures !Contains("x", w)
    {
      assert |w| > 1;
    }
  }

  /** The handlers differ: a message reading "damaged" in any case marks an
      OSError as corruption but not a ValueError. */
  lemma DamagedDependsOnHandler(msg: string)
    requires Lower(msg) == "damaged"
    ensures IsCorruptionError(PyError(OSErrorClass, msg))
    ensures !IsCorruptionError(PyError(ValueErrorClass, msg))
  {
    IsCorruptionErrorSpec(PyError(OSErrorClass, msg));
    IsCorruptionErrorSpec(PyError(ValueErrorClass, msg));
    assert OccursAt(Lower(msg), "damaged", 0);
    DamagedHasNoCommonWord(Lower(msg));
  }

  /** "damaged" holds none of the four words every handler searches: it
      lacks the first letter of each. */
  lemma DamagedHasNoCommonWord(m: string)
    requires m == "damaged"
    ensures forall w :: w in CorruptionWords(ValueErrorClass) ==> !Contains(m, w)
  {
    assert 't' !in m && 'c' !in m && 'i' !in m && 'b' !in m;
    FirstCharAbsent(m, "truncated");
    FirstCharAbsent(m, "corrupt");
    FirstCharAbsent(m, "invalid");
    FirstCharAbsent(m, "broken");
  }

  /** The image a probe reads: `(x, y)` with `0 <= x < width`, `0 <= y < height`. */
  predicate InBounds(p: (int, int), width: int, height: int) {
    0 <= p.0 < width && 0 <= p.1 < height
  }

  /** The coordinates the pixel probes read, once the size check has passed:
      the four corners, the centre and five points drawn by
      `random.randint(0, width-1)`, `random.randint(0, height-1)`. Every one
      of them lies inside the image. */
  method ProbePoints(width: int, height: int) returns (points: seq<(int, int)>)
    requires width > 0 && height > 0
    ensures |points| == 10
    ensures points[..5] == [(0, 0), (width - 1, 0), (0, height - 1), (width - 1, height - 1), (width / 2, height / 2)]
    ensures forall k :: 0 <= k < |points| ==> InBounds(points[k], width, height)
  {
    points := [(0, 0), (width - 1, 0), (0, height - 1), (width - 1, height - 1), (width / 2, height / 2)];
    for i := 0 to 5
      invariant |points| == 5 + i
      invariant points[..5] == [(0, 0), (width - 1, 0), (0, height - 1), (width - 1, height - 1), (width / 2, height / 2)]
      invariant forall k :: 0 <= k < |points| ==> InBounds(points[k], width, height)
    {
      var x :| 0 <= x <= width - 1;
      var y :| 0 <= y <= height - 1;
      points := points + [(x, y)];
    }
  }
}
