/** The field cutter of `hcut.py`: comment pass-through, positional field
    selection with Python list indexing, header keys resolved to positions,
    the check that index and key selection are not mixed, and the dispatch
    that ties them together for one input stream. */
module HCut {
  import opened Wrappers
  import opened PyStr

  /** Why a run stops early. `MixedSelection` is the usage error of
      lines 55-57 (its message and exit status are not modelled);
      `KeyNotFound` is the `ValueError` of `list.index`, naming the key;
      `IndexError` is Python's list index error; `EmptySeparator` is the
      `ValueError` that `str.split("")` raises. */
  datatype CutError = MixedSelection | KeyNotFound(key: string) | IndexError | EmptySeparator

  /** What a run writes to standard output, one record per `print` call,
      and whether it stopped with an error after the last record. */
  datatype Run = Completed(emitted: seq<string>) | Aborted(emitted: seq<string>, error: CutError)

  /** How fields are selected, once the arguments are checked. */
  datatype Selection = ByIndex(fields: seq<int>) | ByKey(keys: seq<string>)

  // ---------------------------------------------------------------------
  // One line (hcut.py:35-40)

  /** Whether Python's `xs[i]` on a list of `n` elements reads an element
      rather than raising `IndexError`. */
  predicate InPyRange(n: nat, i: int) {
    -(n as int) <= i < n
  }

  /** The element Python's `xs[i]` reads in a list of `n` elements:
      non-negative positions count from the front, negative ones from the
      back. */
  function PyIndex(n: nat, i: int): (k: nat)
    requires InPyRange(n, i)
    ensures k < n
  {
    if i >= 0 then i else n + i
  }

  /** `[parts[field - 1] for field in fields]`: the picks, in the order of
      `fields` and with repeats, or `None` where some `field - 1` is out of
      range and Python raises `IndexError`. */
  function Select(parts: seq<string>, fields: seq<int>): Option<seq<string>> {
    if forall j :: 0 <= j < |fields| ==> InPyRange(|parts|, fields[j] - 1) then
      Some(seq(|fields|, j requires 0 <= j < |fields| && InPyRange(|parts|, fields[j] - 1) => parts[PyIndex(|parts|, fields[j] - 1)]))
    else None
  }

  /** Whether `line` is passed through as a comment: only when the prefix
      is non-empty (the truthiness guard of line 35) and begins the line. */
  predicate IsComment(line: string, prefix: string) {
    prefix != [] && StartsWith(line, prefix)
  }

  /** The fields of a data line: the line stripped and split on the
      delimiter. */
  function Parts(line: string, delimiter: string): (parts: seq<string>)
    requires delimiter != []
    ensures |parts| >= 1 && Join(delimiter, parts) == Strip(line)
  {
    JoinSplit(Strip(line), delimiter);
    Split(Strip(line), delimiter)
  }

  /** The record one `print` call of `cut_fields` writes for `line`: a
      comment line as it is, terminator included and nothing added; a data
      line as its picked fields, re-joined with the delimiter and followed by
      a newline. */
  function CutLine(line: string, delimiter: string, fields: seq<int>, prefix: string): (r: Result<string, CutError>)
    ensures IsComment(line, prefix) ==> r == Success(line)
    ensures !IsComment(line, prefix) && r.Success? ==> |r.value| >= 1 && r.value[|r.value| - 1] == '\n'
    ensures r.Failure? ==> !IsComment(line, prefix)
    ensures r.Failure? ==> (r.error == EmptySeparator <==> delimiter == [])
    ensures r.Failure? ==> r.error == EmptySeparator || r.error == IndexError
  {
    if IsComment(line, prefix) then Success(line)
    else if delimiter == [] then Failure(EmptySeparator)
    else match Select(Parts(line, delimiter), fields)
      case None => Failure(IndexError)
      case Some(picked) => Success(Join(delimiter, picked) + "\n")
  }

  // ---------------------------------------------------------------------
  // The whole stream (hcut.py:33-40)

  /** `r` with `out` written before everything it wrote. */
  function PrependAll(out: seq<string>, r: Run): (q: Run)
    ensures q.emitted == out + r.emitted
    ensures q.Completed? == r.Completed?
    ensures q.Aborted? ==> q.error == r.error
  {
    match r
    case Completed(e) => Completed(out + e)
    case Aborted(e, err) => Aborted(out + e, err)
  }

  /** What `cut_fields` does with a stream: the lines are taken in order,
      each writes its record, and the first line that fails stops the run
      with nothing written for it. */
  function CutSpec(lines: seq<string>, delimiter: string, fields: seq<int>, prefix: string): Run
    decreases |lines|
  {
    if lines == [] then Completed([])
    else match CutLine(lines[0], delimiter, fields, prefix)
      case Failure(e) => Aborted([], e)
      case Success(rec) => PrependAll([rec], CutSpec(lines[1..], delimiter, fields, prefix))
  }

  /** Line `i` decides whether the run from there stops at once or writes
      its record ahead of what the lines after it write. */
  lemma CutSpecAt(lines: seq<string>, delimiter: string, fields: seq<int>, prefix: string, i: nat)
    requires i < |lines|
    ensures CutLine(lines[i], delimiter, fields, prefix).Failure? ==>
      CutSpec(lines[i..], delimiter, fields, prefix) == Aborted([], CutLine(lines[i], delimiter, fields, prefix).error)
    ensures CutLine(lines[i], delimiter, fields, prefix).Success? ==>
      CutSpec(lines[i..], delimiter, fields, prefix) ==
      PrependAll([CutLine(lines[i], delimiter, fields, prefix).value], CutSpec(lines[i + 1..], delimiter, fields, prefix))
  {
    assert lines[i..][0] == lines[i] && lines[i..][1..] == lines[i + 1..];
  }

  /** Writing `out` and then `rec` ahead of a run is writing `out + [rec]`. */
  lemma PrependAllTwice(out: seq<string>, rec: string, r: Run)
    ensures PrependAll(out, PrependAll([rec], r)) == PrependAll(out + [rec], r)
  {
    assert out + ([rec] + r.emitted) == (out + [rec]) + r.emitted;
  }

  /** `cut_fields(input_stream, delimiter, fields, ignore_comments_prefix)`
      over the lines of the stream, each with its own terminator. */
  method CutFields(lines: seq<string>, delimiter: string, fields: seq<int>, prefix: string) returns (r: Run)
    ensures r == CutSpec(lines, delimiter, fields, prefix)
  {
    var out: seq<string> := [];
    var i := 0;
    while i < |lines|
      invariant 0 <= i <= |lines|
      invariant CutSpec(lines, delimiter, fields, prefix) == PrependAll(out, CutSpec(lines[i..], delimiter, fields, prefix))
    {
      var rec := CutLine(lines[i], delimiter, fields, prefix);
      CutSpecAt(lines, delimiter, fields, prefix, i);
      if rec.Failure? {
        return Aborted(out, rec.error);
      }
      PrependAllTwice(out, rec.value, CutSpec(lines[i + 1..], delimiter, fields, prefix));
      out := out + [rec.value];
      i := i + 1;
    }
    assert out + [] == out;
    r := Completed(out);
  }

  // ---------------------------------------------------------------------
  // Header keys (hcut.py:42-44)

  /** `s.split(',')`, as lines 43 and 51 use it: at least one piece, no
      piece holding a comma, and the pieces joined with "," give `s` back.
      `CommaSplitUnique` shows that these facts fix the pieces. */
  function CommaSplit(s: string): (keys: seq<string>)
    ensures |keys| >= 1 && Join(",", keys) == s
    ensures forall j :: 0 <= j < |keys| ==> ',' !in keys[j]
  {
    var keys := Split(s, ",");
    JoinSplit(s, ",");
    SplitPiecesFree(s, ",");
    forall j | 0 <= j < |keys| ensures ',' !in keys[j] {
      FreeOfChar(keys[j], ",");
    }
    keys
  }

  /** Any comma-free list of keys that joins to `s` is `CommaSplit(s)`. */
  lemma CommaSplitUnique(s: string, keys: seq<string>)
    requires |keys| >= 1 && Join(",", keys) == s
    requires forall j :: 0 <= j < |keys| ==> ',' !in keys[j]
    ensures keys == CommaSplit(s)
  {
    SplitJoin(keys, ",");
  }

  /** The keys of a header line: stripped and split on a fixed ",", whatever
      delimiter the data uses. */
  function HeaderKeys(header: string): (keys: seq<string>)
    ensures |keys| >= 1 && Join(",", keys) == Strip(header)
    ensures forall j :: 0 <= j < |keys| ==> ',' !in keys[j]
  {
    CommaSplit(Strip(header))
  }

  /** The position of the first of `fieldKeys` that `keys` lacks. */
  function FirstMissing(keys: seq<string>, fieldKeys: seq<string>): (j: nat)
    requires exists k :: 0 <= k < |fieldKeys| && fieldKeys[k] !in keys
    ensures j < |fieldKeys| && fieldKeys[j] !in keys
    ensures forall i :: 0 <= i < j ==> fieldKeys[i] in keys
  {
    if fieldKeys[0] !in keys then 0
    else
      var k :| 0 <= k < |fieldKeys| && fieldKeys[k] !in keys;
      assert fieldKeys[1..][k - 1] == fieldKeys[k];
      1 + FirstMissing(keys, fieldKeys[1..])
  }

  /** `field_keys_to_indices(header, field_keys)`: for each requested key,
      in the requested order, the 1-based position of its first occurrence
      among the header keys (`keys.index(key) + 1`); the comprehension
      raises `ValueError` at the first key the header lacks. */
  function FieldKeysToIndices(header: string, fieldKeys: seq<string>): (r: Result<seq<int>, string>)
    ensures r.Success? <==> forall j :: 0 <= j < |fieldKeys| ==> fieldKeys[j] in HeaderKeys(header)
    ensures r.Success? ==> |r.value| == |fieldKeys|
    ensures r.Success? ==> forall j :: 0 <= j < |fieldKeys| ==>
      1 <= r.value[j] <= |HeaderKeys(header)| && HeaderKeys(header)[r.value[j] - 1] == fieldKeys[j] &&
      forall p :: 0 <= p < r.value[j] - 1 ==> HeaderKeys(header)[p] != fieldKeys[j]
    ensures r.Failure? ==> r.error !in HeaderKeys(header)
    ensures r.Failure? ==> exists j ::
      0 <= j < |fieldKeys| && fieldKeys[j] == r.error && forall i :: 0 <= i < j ==> fieldKeys[i] in HeaderKeys(header)
  {
    var keys := HeaderKeys(header);
    if forall j :: 0 <= j < |fieldKeys| ==> fieldKeys[j] in keys then
      Success(seq(|fieldKeys|, j requires 0 <= j < |fieldKeys| && fieldKeys[j] in keys => IndexOf(keys, fieldKeys[j]).value + 1))
    else
      var j := FirstMissing(keys, fieldKeys);
      Failure(fieldKeys[j])
  }

  // ---------------------------------------------------------------------
  // Arguments and dispatch (hcut.py:49-57, 71-76, 82-87)

  /** `args['--keys'].split(',')` when the option is given and non-empty,
      otherwise no key list (lines 50-53). */
  function KeyList(keysArg: Option<string>): (r: Option<seq<string>>)
    ensures r.Some? <==> keysArg.Some? && keysArg.value != ""
    ensures r.Some? ==> |r.value| >= 1 && Join(",", r.value) == keysArg.value
    ensures r.Some? ==> forall j :: 0 <= j < |r.value| ==> ',' !in r.value[j]
  {
    if keysArg.Some? && keysArg.value != "" then Some(CommaSplit(keysArg.value)) else None
  }

  /** The selection mode from the positional FIELD values and the `-f`
      option; giving both is refused (lines 55-57). A split key list is
      never empty, so it is truthy whenever it exists. */
  function ChooseSelection(fieldArgs: seq<int>, keysArg: Option<string>): (r: Result<Selection, CutError>)
    ensures r.Failure? <==> |fieldArgs| > 0 && keysArg.Some? && keysArg.value != ""
    ensures r.Failure? ==> r.error == MixedSelection
    ensures r.Success? && r.value.ByKey? ==>
      |fieldArgs| == 0 && keysArg.Some? && keysArg.value != "" && r.value.keys == CommaSplit(keysArg.value)
    ensures r.Success? && r.value.ByIndex? ==>
      r.value.fields == fieldArgs && (keysArg.None? || keysArg.value == "")
  {
    match KeyList(keysArg)
    case Some(keys) => if |fieldArgs| > 0 then Failure(MixedSelection) else Success(ByKey(keys))
    case None => Success(ByIndex(fieldArgs))
  }

  /** The line `readline()` returns first: "" on an empty stream. */
  function Header(lines: seq<string>): string {
    if lines == [] then "" else lines[0]
  }

  /** The lines left after `readline()`. */
  function Body(lines: seq<string>): seq<string> {
    if lines == [] then [] else lines[1..]
  }

  /** The main block for one input stream when `-m` is not given (the
      prefix passed to `cut_fields` is then falsy): the modes are checked
      before any line is read; in key mode the first line is consumed as the
      header and the rest is cut with the resolved positions; in index mode
      every line is cut. */
  function RunSpec(lines: seq<string>, delimiter: string, fieldArgs: seq<int>, keysArg: Option<string>): Run {
    match ChooseSelection(fieldArgs, keysArg)
    case Failure(e) => Aborted([], e)
    case Success(ByIndex(fields)) => CutSpec(lines, delimiter, fields, "")
    case Success(ByKey(keys)) =>
      match FieldKeysToIndices(Header(lines), keys)
      case Failure(k) => Aborted([], KeyNotFound(k))
      case Success(idx) => CutSpec(Body(lines), delimiter, idx, "")
  }

  /** Lines 49-57 and 71-76 (82-87 for standard input) over the lines of
      the stream. */
  method RunCut(lines: seq<string>, delimiter: string, fieldArgs: seq<int>, keysArg: Option<string>) returns (r: Run)
    ensures r == RunSpec(lines, delimiter, fieldArgs, keysArg)
  {
    var sel := ChooseSelection(fieldArgs, keysArg);
    if sel.Failure? {
      return Aborted([], sel.error);
    }
    match sel.value
    case ByKey(keys) =>
      var idx := FieldKeysToIndices(Header(lines), keys);
      if idx.Failure? {
        return Aborted([], KeyNotFound(idx.error));
      }
      r := CutFields(Body(lines), delimiter, idx.value, "");
    case ByIndex(fields) =>
      r := CutFields(lines, delimiter, fields, "");
  }
}
