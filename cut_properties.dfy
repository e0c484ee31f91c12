/** What the field cutter promises, stated over the model of `hcut.py`. */
module CutProperties {
  import opened Wrappers
  import opened PyStr
  import opened HCut

  /** The positions 1, 2, ..., n. */
  function Positions(n: nat): (fs: seq<int>)
    ensures |fs| == n && forall j :: 0 <= j < n ==> fs[j] == j + 1
  {
    seq(n, j => j + 1)
  }

  // ---------------------------------------------------------------------
  // Selection on one line

  /** A data line is cut exactly when its picks exist, into the picks
      joined by the delimiter plus a newline; an empty delimiter fails. */
  lemma CutLineDataPath(line: string, delimiter: string, fields: seq<int>, prefix: string)
    requires !IsComment(line, prefix)
    ensures delimiter == [] ==> CutLine(line, delimiter, fields, prefix) == Failure(EmptySeparator)
    ensures delimiter != [] ==> match Select(Parts(line, delimiter), fields)
      case None => CutLine(line, delimiter, fields, prefix) == Failure(IndexError)
      case Some(picked) => CutLine(line, delimiter, fields, prefix) == Success(Join(delimiter, picked) + "\n")
  {
  }

  /** The picks are the parts Python's indexing reads at `field - 1`, one
      per requested field, in the requested order; they exist exactly when
      every `field - 1` is in range. */
  lemma SelectMeaning(parts: seq<string>, fields: seq<int>)
    ensures Select(parts, fields).Some? <==> forall j :: 0 <= j < |fields| ==> InPyRange(|parts|, fields[j] - 1)
    ensures Select(parts, fields).Some? ==>
      |Select(parts, fields).value| == |fields| &&
      forall j :: 0 <= j < |fields| ==>
        Select(parts, fields).value[j] == if fields[j] >= 1 then parts[fields[j] - 1] else parts[|parts| + fields[j] - 1]
  {
  }

  /** In-range 1-based positions pick `parts[f - 1]`, in the order asked
      for, repeats included. */
  lemma SelectPositional(parts: seq<string>, fields: seq<int>)
    requires forall j :: 0 <= j < |fields| ==> 1 <= fields[j] <= |parts|
    ensures Select(parts, fields) == Some(seq(|fields|, j requires 0 <= j < |fields| => parts[fields[j] - 1]))
  {
    var want := seq(|fields|, j requires 0 <= j < |fields| => parts[fields[j] - 1]);
    var got := Select(parts, fields).value;
    assert got == want;
  }

  /** Field 0 and negative fields count from the end, as Python indexing
      of `field - 1` does: 0 is the last part, -1 the one before it. */
  lemma SelectNonPositive(parts: seq<string>, f: int)
    requires 1 - |parts| <= f <= 0
    ensures Select(parts, [f]) == Some([parts[|parts| + f - 1]])
  {
    var v := Select(parts, [f]).value;
    assert v == [v[0]];
  }

  /** A position outside the range Python accepts makes the selection fail. */
  lemma SelectOutOfRange(parts: seq<string>, fields: seq<int>, j: nat)
    requires j < |fields| && (fields[j] > |parts| || fields[j] < 1 - |parts|)
    ensures Select(parts, fields) == None
  {
    assert !InPyRange(|parts|, fields[j] - 1);
  }

  /** Asking for every position in order gives all the parts back. */
  lemma SelectAll(parts: seq<string>)
    ensures Select(parts, Positions(|parts|)) == Some(parts)
  {
    SelectPositional(parts, Positions(|parts|));
    assert seq(|parts|, j requires 0 <= j < |parts| => parts[Positions(|parts|)[j] - 1]) == parts;
  }

  /** A data line cut at every one of its positions, in order, is the line
      stripped of surrounding whitespace, with a newline. */
  lemma CutLineAll(line: string, delimiter: string, prefix: string)
    requires delimiter != [] && !IsComment(line, prefix)
    ensures CutLine(line, delimiter, Positions(|Parts(line, delimiter)|), prefix) == Success(Strip(line) + "\n")
  {
    SelectAll(Parts(line, delimiter));
    CutLineDataPath(line, delimiter, Positions(|Parts(line, delimiter)|), prefix);
  }

  /** A data line is the join of the picked fields followed by a newline,
      with `parts = strip(line).split(delimiter)`. */
  lemma CutLineData(line: string, delimiter: string, fields: seq<int>, prefix: string)
    requires delimiter != [] && !IsComment(line, prefix)
    requires forall j :: 0 <= j < |fields| ==> 1 <= fields[j] <= |Split(Strip(line), delimiter)|
    ensures CutLine(line, delimiter, fields, prefix) ==
      Success(Join(delimiter, seq(|fields|, j requires 0 <= j < |fields| => Split(Strip(line), delimiter)[fields[j] - 1])) + "\n")
  {
    SelectPositional(Parts(line, delimiter), fields);
    CutLineDataPath(line, delimiter, fields, prefix);
  }

  /** A data line fails, and writes nothing, when one field is outside the
      range Python indexing accepts on its parts. */
  lemma CutLineOutOfRange(line: string, delimiter: string, fields: seq<int>, prefix: string, j: nat)
    requires delimiter != [] && !IsComment(line, prefix)
    requires j < |fields|
    requires fields[j] > |Split(Strip(line), delimiter)| || fields[j] < 1 - |Split(Strip(line), delimiter)|
    ensures CutLine(line, delimiter, fields, prefix) == Failure(IndexError)
  {
    SelectOutOfRange(Parts(line, delimiter), fields, j);
    CutLineDataPath(line, delimiter, fields, prefix);
  }

  /** An empty prefix turns comment detection off: the line is cut as it
      would be under any prefix the line does not begin with; so a line
      beginning with "#" is cut too. */
  lemma EmptyPrefixCutsEveryLine(line: string, delimiter: string, fields: seq<int>, prefix: string)
    requires !StartsWith(line, prefix)
    ensures !IsComment(line, "")
    ensures CutLine(line, delimiter, fields, "") == CutLine(line, delimiter, fields, prefix)
  {
  }

  // ---------------------------------------------------------------------
  // The stream

  /** `cut_fields` writes exactly one record per line, in input order,
      each line's own record; it finishes exactly when every line can be
      cut, and otherwise stops at the first line that cannot, with nothing
      written for it or after it. */
  lemma {:induction false} CutSpecRecords(lines: seq<string>, delimiter: string, fields: seq<int>, prefix: string)
    ensures var r := CutSpec(lines, delimiter, fields, prefix);
      && |r.emitted| <= |lines|
      && (forall i :: 0 <= i < |r.emitted| ==> CutLine(lines[i], delimiter, fields, prefix) == Success(r.emitted[i]))
      && (r.Completed? <==> forall i :: 0 <= i < |lines| ==> CutLine(lines[i], delimiter, fields, prefix).Success?)
      && (r.Completed? ==> |r.emitted| == |lines|)
      && (r.Aborted? ==> |r.emitted| < |lines| && CutLine(lines[|r.emitted|], delimiter, fields, prefix) == Failure(r.error))
    decreases |lines|
  {
    if lines != [] {
      CutSpecRecords(lines[1..], delimiter, fields, prefix);
      var tail := CutSpec(lines[1..], delimiter, fields, prefix);
      match CutLine(lines[0], delimiter, fields, prefix)
      case Failure(e) =>
      case Success(rec) =>
        var r := CutSpec(lines, delimiter, fields, prefix);
        assert r == PrependAll([rec], tail);
        forall i | 0 <= i < |r.emitted|
          ensures CutLine(lines[i], delimiter, fields, prefix) == Success(r.emitted[i])
        {
          if i > 0 { assert lines[i] == lines[1..][i - 1]; }
        }
        if tail.Completed? {
          forall i | 0 <= i < |lines| ensures CutLine(lines[i], delimiter, fields, prefix).Success? {
            if i > 0 { assert lines[i] == lines[1..][i - 1]; }
          }
        } else {
          assert lines[|r.emitted|] == lines[1..][|tail.emitted|];
        }
    }
  }

  /** Comment lines reach the output byte for byte, terminator included
      and nothing added. */
  lemma CommentsPassThrough(lines: seq<string>, delimiter: string, fields: seq<int>, prefix: string, i: nat)
    requires i < |lines| && i < |CutSpec(lines, delimiter, fields, prefix).emitted|
    requires IsComment(lines[i], prefix)
    ensures CutSpec(lines, delimiter, fields, prefix).emitted[i] == lines[i]
  {
    CutSpecRecords(lines, delimiter, fields, prefix);
  }

  /** Data records are newline-terminated. */
  lemma DataRecordsEndInNewline(lines: seq<string>, delimiter: string, fields: seq<int>, prefix: string, i: nat)
    requires i < |lines| && i < |CutSpec(lines, delimiter, fields, prefix).emitted|
    requires !IsComment(lines[i], prefix)
    ensures var rec := CutSpec(lines, delimiter, fields, prefix).emitted[i];
      |rec| >= 1 && rec[|rec| - 1] == '\n'
  {
    CutSpecRecords(lines, delimiter, fields, prefix);
    var rec := CutSpec(lines, delimiter, fields, prefix).emitted[i];
    assert CutLine(lines[i], delimiter, fields, prefix) == Success(rec);
  }

  // ---------------------------------------------------------------------
  // Keys and the dispatch

  /** On a line with as many fields as the header has keys, the positions
      resolved from the header never fail, and each pick is the field under
      the first header column carrying the requested key. */
  lemma KeyedCutLine(header: string, keys: seq<string>, line: string, delimiter: string, prefix: string)
    requires FieldKeysToIndices(header, keys).Success?
    requires delimiter != [] && !IsComment(line, prefix)
    requires |Split(Strip(line), delimiter)| == |HeaderKeys(header)|
    ensures var idx := FieldKeysToIndices(header, keys).value;
      var parts := Split(Strip(line), delimiter);
      CutLine(line, delimiter, idx, prefix) ==
        Success(Join(delimiter, seq(|keys|, j requires 0 <= j < |keys| => parts[IndexOf(HeaderKeys(header), keys[j]).value])) + "\n")
  {
    var idx := FieldKeysToIndices(header, keys).value;
    var parts := Parts(line, delimiter);
    SelectPositional(parts, idx);
    CutLineDataPath(line, delimiter, idx, prefix);
    assert seq(|idx|, j requires 0 <= j < |idx| => parts[idx[j] - 1])
        == seq(|keys|, j requires 0 <= j < |keys| => parts[IndexOf(HeaderKeys(header), keys[j]).value]);
  }

  /** Giving both positional fields and a non-empty key list is refused
      before any line is read: no record is written, whatever the input
      (the usage message printed instead is not modelled). */
  lemma MixedSelectionRefused(lines: seq<string>, delimiter: string, fieldArgs: seq<int>, keysArg: Option<string>)
    requires |fieldArgs| > 0 && keysArg.Some? && keysArg.value != ""
    ensures RunSpec(lines, delimiter, fieldArgs, keysArg) == Aborted([], MixedSelection)
  {
  }

  /** In key mode the first line is consumed as the header and never cut:
      the records are those of the remaining lines, one each, in order; the
      run completes exactly when every remaining line can be cut, and
      otherwise stops at the first one that cannot, with its error. */
  lemma KeyModeSkipsHeader(lines: seq<string>, delimiter: string, keysArg: Option<string>)
    requires keysArg.Some? && keysArg.value != ""
    requires FieldKeysToIndices(Header(lines), KeyList(keysArg).value).Success?
    ensures var r := RunSpec(lines, delimiter, [], keysArg);
      var idx := FieldKeysToIndices(Header(lines), KeyList(keysArg).value).value;
      (lines == [] ==> r.emitted == []) &&
      (lines != [] ==> |r.emitted| <= |lines| - 1) &&
      (forall i :: 0 <= i < |r.emitted| ==> CutLine(lines[i + 1], delimiter, idx, "") == Success(r.emitted[i])) &&
      (r.Completed? <==> forall i :: 1 <= i < |lines| ==> CutLine(lines[i], delimiter, idx, "").Success?) &&
      (r.Completed? ==> |r.emitted| == |Body(lines)|) &&
      (r.Aborted? ==> |r.emitted| + 1 < |lines| && CutLine(lines[|r.emitted| + 1], delimiter, idx, "") == Failure(r.error))
  {
    var keys := KeyList(keysArg).value;
    var idx := FieldKeysToIndices(Header(lines), keys).value;
    assert ChooseSelection([], keysArg) == Success(ByKey(keys));
    var r := RunSpec(lines, delimiter, [], keysArg);
    assert r == CutSpec(Body(lines), delimiter, idx, "");
    CutSpecRecords(Body(lines), delimiter, idx, "");
    forall i | 0 <= i < |r.emitted| ensures CutLine(lines[i + 1], delimiter, idx, "") == Success(r.emitted[i]) {
      assert lines[i + 1] == Body(lines)[i];
    }
    if lines != [] {
      forall i | 1 <= i < |lines| ensures lines[i] == Body(lines)[i - 1] { }
    }
  }

  /** A key list missing from the header stops the run before any record
      is written, naming the first missing key. */
  lemma MissingKeyStopsRun(lines: seq<string>, delimiter: string, keysArg: Option<string>)
    requires keysArg.Some? && keysArg.value != ""
    requires FieldKeysToIndices(Header(lines), KeyList(keysArg).value).Failure?
    ensures var r := RunSpec(lines, delimiter, [], keysArg);
      r.Aborted? && r.emitted == [] && r.error.KeyNotFound? &&
      r.error.key in KeyList(keysArg).value && r.error.key !in HeaderKeys(Header(lines)) &&
      exists j :: 0 <= j < |KeyList(keysArg).value| && KeyList(keysArg).value[j] == r.error.key &&
        forall i :: 0 <= i < j ==> KeyList(keysArg).value[i] in HeaderKeys(Header(lines))
  {
  }

  // ---------------------------------------------------------------------
  // Worked examples

  /** A multi-character delimiter is matched from the left: "aaa" split on
      "aa" is "" and "a". */
  lemma ExampleOverlapSplit()
    ensures Split("aaa", "aa") == ["", "a"]
  {
    var s := "aaa";
    assert s[..2] == "aa";
    assert s[2..] == "a";
    assert Split("a", "aa") == ["a"];
  }

  /** A line ending in a newline and otherwise without surrounding
      whitespace strips to the line without its newline. */
  lemma StripTerminated(t: string)
    requires t != [] && !IsSpace(t[0]) && !IsSpace(t[|t| - 1])
    ensures Strip(t + "\n") == t
  {
    var s := t + "\n";
    assert TrimStart(s) == s;
    assert s[..|s| - 1] == t;
    assert TrimEnd(s) == TrimEnd(t);
  }

  /** The fields of a comma-joined line of comma-free pieces. */
  lemma CommaFields(pieces: seq<string>, t: string)
    requires |pieces| >= 1 && forall j :: 0 <= j < |pieces| ==> ',' !in pieces[j]
    requires Join(",", pieces) == t && t != [] && !IsSpace(t[0]) && !IsSpace(t[|t| - 1])
    ensures Parts(t + "\n", ",") == pieces && HeaderKeys(t + "\n") == pieces
  {
    StripTerminated(t);
    SplitJoin(pieces, ",");
  }

  /** A header is split on commas into its keys. */
  lemma ExampleHeader()
    ensures HeaderKeys("name,age,city\n") == ["name", "age", "city"]
  {
    assert Join(",", ["name", "age", "city"]) == "name,age,city";
    assert "name,age,city" + "\n" == "name,age,city\n";
    CommaFields(["name", "age", "city"], "name,age,city");
  }

  /** Header "name,age,city" with keys "city,name" resolves to [3, 1]. */
  lemma ExampleResolve(header: string)
    requires header == "name,age,city\n"
    ensures FieldKeysToIndices(header, ["city", "name"]) == Success([3, 1])
  {
    var keys := HeaderKeys(header);
    assert keys == ["name", "age", "city"] by {
      ExampleHeader();
    }
    assert keys[0] != "city" && keys[1] != "city";
    ResolveTwo(header, "city", "name", 2, 0);
  }

  /** Two keys whose first occurrences in the header are known resolve to
      those positions, counted from 1. */
  lemma ResolveTwo(header: string, a: string, b: string, pa: nat, pb: nat)
    requires pa < |HeaderKeys(header)| && HeaderKeys(header)[pa] == a
    requires forall p :: 0 <= p < pa ==> HeaderKeys(header)[p] != a
    requires pb < |HeaderKeys(header)| && HeaderKeys(header)[pb] == b
    requires forall p :: 0 <= p < pb ==> HeaderKeys(header)[p] != b
    ensures FieldKeysToIndices(header, [a, b]) == Success([pa + 1, pb + 1])
  {
    var keys := HeaderKeys(header);
    var wanted := [a, b];
    assert wanted[0] in keys && wanted[1] in keys;
    var r := FieldKeysToIndices(header, wanted);
    assert r.Success? && |r.value| == 2;
    assert r.value[0] == pa + 1;
    assert r.value[1] == pb + 1;
    assert r.value == [pa + 1, pb + 1];
  }

  /** The data line "Ann,30,Paris" has the fields "Ann", "30", "Paris". */
  lemma ExampleDataParts()
    ensures Parts("Ann,30,Paris\n", ",") == ["Ann", "30", "Paris"]
  {
    assert Join(",", ["Ann", "30", "Paris"]) == "Ann,30,Paris";
    assert "Ann,30,Paris" + "\n" == "Ann,30,Paris\n";
    CommaFields(["Ann", "30", "Paris"], "Ann,30,Paris");
  }

  /** A data line whose parts, picks and their join are known. */
  lemma CutLineFrom(line: string, delimiter: string, fields: seq<int>, prefix: string,
                    parts: seq<string>, picked: seq<string>, joined: string)
    requires delimiter != [] && !IsComment(line, prefix)
    requires Parts(line, delimiter) == parts && Select(parts, fields) == Some(picked)
    requires Join(delimiter, picked) == joined
    ensures CutLine(line, delimiter, fields, prefix) == Success(joined + "\n")
  {
    CutLineDataPath(line, delimiter, fields, prefix);
  }

  /** Cutting "Ann,30,Paris" at the resolved positions [3, 1] gives
      "Paris,Ann". */
  lemma ExampleKeyedCut()
    ensures CutLine("Ann,30,Paris\n", ",", [3, 1], "") == Success("Paris,Ann\n")
  {
    var parts := ["Ann", "30", "Paris"];
    SelectTwo(parts, 3, 1);
    assert [parts[2], parts[0]] == ["Paris", "Ann"];
    assert Join(",", ["Paris", "Ann"]) == "Paris,Ann" by {
      JoinExample("Paris", "Ann", "Paris,Ann");
    }
    ExampleDataParts();
    CutLineFrom("Ann,30,Paris\n", ",", [3, 1], "", parts, ["Paris", "Ann"], "Paris,Ann");
    assert "Paris,Ann" + "\n" == "Paris,Ann\n";
  }

  /** Picking two positional fields. */
  lemma SelectTwo(parts: seq<string>, a: int, b: int)
    requires 1 <= a <= |parts| && 1 <= b <= |parts|
    ensures Select(parts, [a, b]) == Some([parts[a - 1], parts[b - 1]])
  {
    var fields := [a, b];
    SelectPositional(parts, fields);
    assert seq(2, j requires 0 <= j < 2 => parts[fields[j] - 1]) == [parts[a - 1], parts[b - 1]];
  }

  /** Two pieces joined with a comma. */
  lemma JoinExample(a: string, b: string, ab: string)
    requires ab == a + "," + b
    ensures Join(",", [a, b]) == ab
  {
    assert [a, b][1..] == [b];
  }

  /** The data line "a,b,c" has the fields "a", "b", "c". */
  lemma ExampleAbcParts()
    ensures Parts("a,b,c\n", ",") == ["a", "b", "c"]
  {
    assert Join(",", ["a", "b", "c"]) == "a,b,c";
    assert "a,b,c" + "\n" == "a,b,c\n";
    CommaFields(["a", "b", "c"], "a,b,c");
  }

  /** Field 1 of "a,b,c" is "a". */
  lemma ExampleFirstField(prefix: string)
    requires !IsComment("a,b,c\n", prefix)
    ensures CutLine("a,b,c\n", ",", [1], prefix) == Success("a\n")
  {
    var parts := ["a", "b", "c"];
    assert Select(parts, [1]) == Some(["a"]) by {
      SelectPositional(parts, [1]);
      assert seq(1, j requires 0 <= j < 1 => parts[[1][j] - 1]) == ["a"];
    }
    ExampleAbcParts();
    CutLineFrom("a,b,c\n", ",", [1], prefix, parts, ["a"], "a");
    assert "a" + "\n" == "a\n";
  }

  /** Field 0 of "a,b,c" is its last field, "c". */
  lemma ExampleFieldZero(prefix: string)
    requires !IsComment("a,b,c\n", prefix)
    ensures CutLine("a,b,c\n", ",", [0], prefix) == Success("c\n")
  {
    var parts := ["a", "b", "c"];
    SelectNonPositive(parts, 0);
    ExampleAbcParts();
    CutLineFrom("a,b,c\n", ",", [0], prefix, parts, ["c"], "c");
    assert "c" + "\n" == "c\n";
  }

  /** Field 5 of "a,b,c" is out of range. */
  lemma ExampleFieldFive(prefix: string)
    requires !IsComment("a,b,c\n", prefix)
    ensures CutLine("a,b,c\n", ",", [5], prefix) == Failure(IndexError)
  {
    var parts := ["a", "b", "c"];
    SelectOutOfRange(parts, [5], 0);
    ExampleAbcParts();
    CutLineDataPath("a,b,c\n", ",", [5], prefix);
  }

  /** With prefix "#", "#hdr" is a comment, passed through unchanged. */
  lemma ExampleCommentLine()
    ensures CutLine("#hdr\n", ",", [1], "#") == Success("#hdr\n")
  {
    assert IsComment("#hdr\n", "#") by {
      assert "#hdr\n"[..1] == "#";
    }
  }

  /** With prefix "#", "a,b,c" is a data line. */
  lemma ExampleDataLine()
    ensures CutLine("a,b,c\n", ",", [1], "#") == Success("a\n")
  {
    assert !IsComment("a,b,c\n", "#") by {
      assert "a,b,c\n"[..1][0] == 'a';
    }
    ExampleFirstField("#");
  }

  /** With prefix "#", the one-line stream "a,b,c" cut at field 1 writes
      "a". */
  lemma ExampleDataStream(lines: seq<string>)
    requires lines == ["a,b,c\n"]
    ensures CutSpec(lines, ",", [1], "#") == Completed(["a\n"])
  {
    ExampleDataLine();
    assert lines[1..] == [];
    CutSpecAt(lines, ",", [1], "#", 0);
  }

  /** With prefix "#", the line "#hdr" passes through unchanged and "a,b,c"
      cut at field 1 gives "a". */
  lemma ExampleCommentStream(lines: seq<string>)
    requires lines == ["#hdr\n", "a,b,c\n"]
    ensures CutSpec(lines, ",", [1], "#") == Completed(["#hdr\n", "a\n"])
  {
    ExampleDataStream(lines[1..]);
    ExampleCommentLine();
    CutSpecAt(lines, ",", [1], "#", 0);
    assert ["#hdr\n"] + ["a\n"] == ["#hdr\n", "a\n"];
  }

  /** Field 5 fails on "a,b,c", with no record for it. */
  lemma ExampleAbortStream()
    ensures CutSpec(["a,b,c\n"], ",", [5], "") == Aborted([], IndexError)
  {
    ExampleFieldFive("");
    var lines := ["a,b,c\n"];
    CutSpecRecords(lines, ",", [5], "");
    assert CutLine(lines[0], ",", [5], "") == Failure(IndexError);
  }
}
