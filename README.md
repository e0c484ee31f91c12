# hcut field cutter, modelled in Dafny

This is a model of the field-selection core of `hcut.py`, a small `cut`-like tool.
The tool reads lines from a file or from standard input.
Each line is one of two kinds:

- A comment line starts with a non-empty comment prefix. It is copied through unchanged.
- Any other line is a data line. It is stripped of surrounding whitespace and split on a literal delimiter. Then 1-based fields are picked from it in the requested order and re-joined with the same delimiter.

Fields are chosen in one of two ways:

- By position, with the positional `FIELD` arguments.
- By name, with `-f KEYS`. The keys are looked up in the first line, which is read as a comma-separated header.

Giving both positions and keys is refused before any input is read.

The project has four modules:

- `Wrappers` is `Option` and `Result`.
- `PyStr` models the Python string operations the tool relies on:
  - `str.strip()` over the ASCII whitespace set;
  - `str.startswith`;
  - `str.split(sep)`, left to right and non-overlapping;
  - `sep.join`;
  - `list.index`.
- `HCut` holds the tool itself:
  - `CutLine` handles one line.
  - `CutFields` is the `cut_fields` loop, written as a method. It is proved equal to the specification function `CutSpec`.
  - `FieldKeysToIndices` is `field_keys_to_indices`.
  - `KeyList` and `ChooseSelection` are the argument checks.
  - `RunCut` is the dispatch, written as a method. Its specification function is `RunSpec`.
- `CutProperties` states what the tool promises as lemmas over those functions, plus worked examples.

The input stream is a sequence of lines. Each line keeps its own terminator, as Python's line iteration yields them.
A run's output is the sequence of strings the `print` calls write, one per line.
A run either completes, or aborts with the error Python would raise. The records written before the failing line are kept.

The model follows the code as written:

- `line.strip()` removes whitespace at both ends of a data line, not only the trailing newline.
- The usage text (line 6) calls fields 1-based, but a field of 0 or below does not fail. Python negative indexing on `field - 1` makes 0 pick the last part, -1 the one before it, and so on. Only a field outside `[1 - n, n]` fails, where `n` is the line's part count.
- The header is always split on `","`, whatever `-d` says.
- An empty delimiter is handled as the error `str.split("")` raises (`EmptySeparator`). It is not excluded by a precondition.

## Model

| member | source | states |
|---|---|---|
| PyStr.TrimStart | htk/src/htk_cut/hcut.py:38 | The result is a suffix of the input, everything removed is whitespace, and the result does not begin with whitespace (the leading half of `strip()`). |
| PyStr.TrimEnd | htk/src/htk_cut/hcut.py:38 | The result is a prefix of the input, everything removed is whitespace, and the result does not end with whitespace (the trailing half of `strip()`). |
| PyStr.Strip | htk/src/htk_cut/hcut.py:38 | The stripped line is no longer than the line and neither begins nor ends with whitespace. |
| PyStr.StripInfix | htk/src/htk_cut/hcut.py:38 | The stripped line is a contiguous piece of the line, with nothing but whitespace before it and after it. |
| PyStr.StripIdempotent | htk/src/htk_cut/hcut.py:38 | Stripping twice gives the same as stripping once. |
| PyStr.StripUnchanged | htk/src/htk_cut/hcut.py:38 | A string with no whitespace at either end is left as it is. |
| PyStr.Split | htk/src/htk_cut/hcut.py:38 | A split on a non-empty separator has at least one piece, the first a prefix of the string. `JoinSplit`, `SplitPiecesFree` and `SplitLeftmost` state what its pieces are, and `SplitUnique` that those facts fix them. |
| PyStr.JoinSplit | htk/src/htk_cut/hcut.py:38-40 | Joining the pieces of a split with the same non-empty separator gives the string back. |
| PyStr.SplitPiecesFree | htk/src/htk_cut/hcut.py:38 | No piece of a split contains the separator. |
| PyStr.SplitLeftmost | htk/src/htk_cut/hcut.py:38 | Occurrences are taken from the left: no occurrence of the separator begins inside any piece but the last, even one that runs on into the separator after it. So "aaa" split on "aa" can only be "" and "a". |
| PyStr.SplitUnique | htk/src/htk_cut/hcut.py:38 | Any list of at least one piece that joins with the separator to the string, holds no separator, and in which no occurrence begins inside a piece but the last, is the split of that string: Python's split is the only list meeting those facts. |
| PyStr.SplitJoin | htk/src/htk_cut/hcut.py:43 | Splitting on a one-character separator undoes a join of at least one piece when no piece holds that character. |
| PyStr.SplitFree | htk/src/htk_cut/hcut.py:43 | A string without the one-character separator splits into itself alone. |
| PyStr.SplitAfterFree | htk/src/htk_cut/hcut.py:43 | A separator-free piece followed by the one-character separator is the first piece, and the rest is split on its own. |
| PyStr.JoinConsHead | htk/src/htk_cut/hcut.py:40 | Gluing a string onto the first piece glues it onto the front of the join. |
| PyStr.Join | htk/src/htk_cut/hcut.py:40 | `sep.join(parts)`. It has no contract of its own; `JoinSplit` and `SplitJoin` state that it undoes and is undone by `Split`, and `JoinConsHead` how it treats the first piece. |
| PyStr.StartsWith | htk/src/htk_cut/hcut.py:35 | `line.startswith(prefix)`. It has no contract of its own; `CommentsPassThrough` and `EmptyPrefixCutsEveryLine` state its effect through `IsComment`. |
| PyStr.FreeOfChar | htk/src/htk_cut/hcut.py:43 | A string that does not contain a one-character separator holds no occurrence of that character. |
| PyStr.IndexOf | htk/src/htk_cut/hcut.py:44 | `list.index`: no result exactly when the item is absent; otherwise the result is an in-range position holding the item, and no earlier position holds it. |
| HCut.PyIndex | htk/src/htk_cut/hcut.py:39 | An index Python accepts on a list of `n` elements reads a position below `n`. |
| HCut.Select | htk/src/htk_cut/hcut.py:39 | `[parts[field - 1] for field in fields]`. It has no contract of its own; `SelectMeaning` states when it succeeds and what each pick is, and `SelectAll`, `SelectPositional`, `SelectNonPositive` and `SelectOutOfRange` give its cases. |
| HCut.IsComment | htk/src/htk_cut/hcut.py:35 | The guard `ignore_comments_prefix and line.startswith(...)`. It has no contract of its own; `CommentsPassThrough` states that such a line passes through unchanged and `EmptyPrefixCutsEveryLine` that an empty prefix matches no line. |
| HCut.Parts | htk/src/htk_cut/hcut.py:38 | A data line has at least one part, and its parts re-joined with the delimiter are the stripped line. |
| HCut.CutLine | htk/src/htk_cut/hcut.py:35-40 | A comment line comes out unchanged. A data line that can be cut ends in a newline. A failure happens only on a data line. It is `EmptySeparator` exactly when the delimiter is empty, and `IndexError` otherwise. |
| HCut.PrependAll | htk/src/htk_cut/hcut.py:34-40 | Records written before a run's rest come before its records, and the ending (completed, or aborted with its error) is the rest's. |
| HCut.CutSpec | htk/src/htk_cut/hcut.py:34-40 | What `cut_fields` writes for a stream. It has no contract of its own; `CutSpecRecords` states one record per line in input order and the stop at the first failing line, and `CutFields` is proved equal to it. |
| HCut.CutFields | htk/src/htk_cut/hcut.py:33-40 | The loop over the lines writes exactly what the specification `CutSpec` does, stopping at the first failing line. |
| HCut.CommaSplit | htk/src/htk_cut/hcut.py:43 | `s.split(',')`, as lines 43 and 51 use it: at least one piece, no piece holding ",", and the pieces joined with "," give `s` back. |
| HCut.CommaSplitUnique | htk/src/htk_cut/hcut.py:43 | Any list of at least one comma-free key that joins with "," to `s` is `CommaSplit(s)`: the facts above pin the split. |
| HCut.HeaderKeys | htk/src/htk_cut/hcut.py:43 | The header has at least one key. Its keys joined with "," are the stripped header, and no key contains ","; by `CommaSplitUnique` these facts fix the keys. |
| HCut.FirstMissing | htk/src/htk_cut/hcut.py:44 | The position of a requested key the header lacks, with every earlier requested key present. |
| HCut.FieldKeysToIndices | htk/src/htk_cut/hcut.py:42-44 | Succeeds exactly when every requested key is in the header. On success the result has the same length and order as the keys: each result `i` lies in `1..len(keys)`, the header key at `i - 1` is the requested one, and no earlier header key is. On failure the error is the first missing key. |
| HCut.KeyList | htk/src/htk_cut/hcut.py:50-53 | A key list exists exactly when `-f` is given and non-empty. It then has at least one key, no key holds ",", and the keys joined with "," are the option's value; by `CommaSplitUnique` this is `-f` split at its commas. |
| HCut.ChooseSelection | htk/src/htk_cut/hcut.py:50-57 | Fails with `MixedSelection` exactly when positional fields and a non-empty `-f` are both given. Key mode comes only with no positional fields and with the keys `CommaSplit` gives for `-f`. Index mode keeps the positional fields unchanged, and `-f` is then absent or empty. |
| HCut.Header | htk/src/htk_cut/hcut.py:72 | The line the first `readline()` returns, "" on an empty stream. It has no contract of its own; `KeyModeSkipsHeader` and `MissingKeyStopsRun` state how key mode uses it. |
| HCut.Body | htk/src/htk_cut/hcut.py:74 | The lines `cut_fields` still sees after `readline()`. It has no contract of its own; `KeyModeSkipsHeader` states that record `i` is then the record of line `i + 1`. |
| HCut.RunSpec | htk/src/htk_cut/hcut.py:71-76 | The main block for one stream without `-m`. It has no contract of its own; `MixedSelectionRefused`, `KeyModeSkipsHeader` and `MissingKeyStopsRun` state what it does, and `RunCut` is proved equal to it. |
| HCut.RunCut | htk/src/htk_cut/hcut.py:71-76 | The dispatch writes exactly what the specification `RunSpec` does. The argument check comes first. In index mode every line is cut. In key mode the first line is the header and the rest are cut at the resolved positions. |
| CutProperties.SelectMeaning | htk/src/htk_cut/hcut.py:39 | The picks exist exactly when every `field - 1` is in Python's index range. There is one pick per field, in the order of the fields: `parts[field - 1]` for a positive field, `parts[len + field - 1]` otherwise. |
| CutProperties.SelectPositional | htk/src/htk_cut/hcut.py:39 | In-range 1-based fields pick `parts[field - 1]` in the requested order, repeats included. |
| CutProperties.SelectNonPositive | htk/src/htk_cut/hcut.py:39 | Field 0 picks the last part, and a negative field counts further back from the end. |
| CutProperties.SelectOutOfRange | htk/src/htk_cut/hcut.py:39 | One field outside Python's index range makes the whole selection fail. |
| CutProperties.SelectAll | htk/src/htk_cut/hcut.py:39 | Selecting every position in order gives all the parts back. |
| CutProperties.SelectTwo | htk/src/htk_cut/hcut.py:39 | Two in-range fields pick their two parts, in that order. |
| CutProperties.CutLineAll | htk/src/htk_cut/hcut.py:38-40 | A data line cut at all its positions, in order, is the stripped line plus "\n". |
| CutProperties.CutLineData | htk/src/htk_cut/hcut.py:38-40 | A data line with in-range fields is `join(d, [parts[f - 1] for f in fields]) + "\n"`, where `parts = split(strip(line), d)`. |
| CutProperties.CutLineOutOfRange | htk/src/htk_cut/hcut.py:39 | A data line with one field outside the range of its parts fails with `IndexError`. |
| CutProperties.EmptyPrefixCutsEveryLine | htk/src/htk_cut/hcut.py:35 | An empty prefix detects no comments. A line is cut under it exactly as under any prefix the line does not start with. |
| CutProperties.CutSpecRecords | htk/src/htk_cut/hcut.py:34-40 | Record `i` is line `i`'s own record, in input order, and there are no more records than lines. The stream completes exactly when every line can be cut, and then there is one record per line. Otherwise it stops at the first failing line, with that line's error and no record for it or after it. |
| CutProperties.CommentsPassThrough | htk/src/htk_cut/hcut.py:35-36 | A comment line's record is the line byte for byte, terminator included, with nothing added. |
| CutProperties.DataRecordsEndInNewline | htk/src/htk_cut/hcut.py:37-40 | A data line's record ends in "\n". |
| CutProperties.KeyedCutLine | htk/src/htk_cut/hcut.py:42-44 | On a line with as many fields as the header has keys, the resolved positions never fail. Each pick is the field under the first header column that carries the requested key. |
| CutProperties.MixedSelectionRefused | htk/src/htk_cut/hcut.py:55-57 | Positions together with a non-empty key list abort the run with `MixedSelection`, with no line read and no record written (the message printed then is not modelled). |
| CutProperties.KeyModeSkipsHeader | htk/src/htk_cut/hcut.py:71-74 | In key mode the first line is never cut. The records are those of the following lines, one each and in order. The run completes exactly when every following line can be cut, with one record per following line; otherwise it stops at the first following line that cannot be cut, with that line's error. |
| CutProperties.MissingKeyStopsRun | htk/src/htk_cut/hcut.py:72-73 | A requested key that the header lacks aborts the run before any record, naming the first requested key the header does not have. |
| CutProperties.ResolveTwo | htk/src/htk_cut/hcut.py:44 | Two keys whose first header positions are known resolve to those positions, counted from 1. |
| CutProperties.ExampleResolve | htk/src/htk_cut/hcut.py:42-44 | Header "name,age,city" with keys "city,name" gives `[3, 1]`. |
| CutProperties.ExampleHeader | htk/src/htk_cut/hcut.py:43 | Header "name,age,city" has the keys "name", "age", "city". |
| CutProperties.ExampleOverlapSplit | htk/src/htk_cut/hcut.py:38 | "aaa" split on the delimiter "aa" is "" and "a", matched from the left. |
| CutProperties.ExampleDataParts | htk/src/htk_cut/hcut.py:38 | "Ann,30,Paris" splits into "Ann", "30", "Paris". |
| CutProperties.ExampleKeyedCut | htk/src/htk_cut/hcut.py:38-40 | "Ann,30,Paris" cut at `[3, 1]` is "Paris,Ann". |
| CutProperties.ExampleAbcParts | htk/src/htk_cut/hcut.py:38 | "a,b,c" splits into "a", "b", "c". |
| CutProperties.ExampleFirstField | htk/src/htk_cut/hcut.py:38-40 | Field 1 of "a,b,c" is "a". |
| CutProperties.ExampleFieldZero | htk/src/htk_cut/hcut.py:39 | Field 0 of "a,b,c" is "c", through negative indexing. |
| CutProperties.ExampleFieldFive | htk/src/htk_cut/hcut.py:39 | Field 5 of "a,b,c" fails with `IndexError`. |
| CutProperties.ExampleCommentLine | htk/src/htk_cut/hcut.py:35-36 | With prefix "#", the line "#hdr" is copied through unchanged. |
| CutProperties.ExampleDataLine | htk/src/htk_cut/hcut.py:37-40 | With prefix "#", "a,b,c" is a data line, and field 1 gives "a". |
| CutProperties.ExampleDataStream | htk/src/htk_cut/hcut.py:34-40 | The one-line stream "a,b,c" cut at field 1 writes "a". |
| CutProperties.ExampleCommentStream | htk/src/htk_cut/hcut.py:34-40 | With prefix "#", the stream "#hdr", "a,b,c" writes "#hdr" unchanged, then "a". |
| CutProperties.ExampleAbortStream | htk/src/htk_cut/hcut.py:39 | Field 5 on "a,b,c" aborts with `IndexError` and no record. |
| CutProperties.StripTerminated | htk/src/htk_cut/hcut.py:38 | A newline-terminated line with no other surrounding whitespace strips to the line without its newline. |
| CutProperties.CommaFields | htk/src/htk_cut/hcut.py:38 | A newline-terminated, comma-joined line of comma-free pieces has those pieces as its parts and as its header keys. |

## Left out

- The command line is not parsed. docopt (line 47) is a foreign library. The model takes the already parsed values: the delimiter, the positional fields as integers, and the `-f` value as an optional string.
- `int(field)` conversion of the positional arguments (lines 76 and 87) is left out. Fields are integers from the start.
- Input selection is left out: `isatty`, `sys.argv[1]`, `open`/`with` (lines 61-66). These are I/O, so the stream is a given sequence of lines. The model therefore covers the file branch (71-76) and the standard-input branch (82-87) alike.
- The usage message for a terminal with no file argument (lines 62-64) is I/O and is left out.
- `print`, and the flush and close of the standard streams (lines 89-92), are left out. Output is the sequence of records the `print` calls would write.
- The message printed to standard output on a mixed selection (line 56), and the exit status 1, are reduced to the error value `MixedSelection`.
- The `SIGPIPE` disposition (line 31) is process-level signal state.
- The comment pre-pass loops (lines 67-70 and 78-81) are left out, for two reasons:
  - `-m` is a boolean flag, so `line.startswith(True)` raises `TypeError` on the first line it meets.
  - The loops also exhaust the stream before `readline` and `cut_fields` run.
- Because of that, `RunCut` models the dispatch without `-m`. There the prefix is falsy and every line is cut.
- `CutFields` still takes the comment prefix as the string parameter that `cut_fields` declares.
- `PyStr.Strip` treats only the ASCII characters for which `str.isspace()` holds as whitespace: 9-13, 28-31 and space. Python's other Unicode whitespace is not modelled.
- `HCut.CutLine` abstracts Python's exceptions (`IndexError`, and the `ValueError` of an empty separator) as error values. The traceback text is not modelled.
- `HCut.FieldKeysToIndices` reports the first missing key, where Python's `ValueError` message shows its repr.
