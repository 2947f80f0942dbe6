# Verified models of DuckDB's extension algorithms

The DuckDB sources bundled with the JDBC driver contain a handful of real algorithms around the wiring: a parallel
JSON scan, batched list lambdas, a JSON path language, the Parquet column reader and writer, and calendar arithmetic.
This project models them in Dafny 4.11 and proves what they are for. Check everything with
`dafny verify dfyconfig.toml`.

## What is modelled

**JSON scan** (`json_reader.cpp`). `JsonText` is the byte-level splitter, next to the grammar of objects, arrays and
strings (sections 4, 5 and 7 of RFC 8259). `JsonSplit` is the reference: what one left-to-right pass over a whole file
delivers. `JsonScan` is the scan of an entire file as a class with its buffer, remainder and offsets, read in pieces
of any size. `JsonBlocks` treats the file as blocks that are scanned separately, each with the tail of the block
before it in front, and `JsonParallel` is the protocol of the scanners: states, atomic steps, and every interleaving
of them. `JsonErrors` holds errors back until their line numbers are known, and `JsonFileHandle` makes pipes readable
twice.

**Lists** (`lambda_functions.cpp`). `LambdaFunctions` has `list_filter` and `list_transform` with their batches,
selection vectors and resumable counters, against filter and map row by row.

**JSON paths** (`json_common.cpp`). `JsonTree` has documents, nodes and the worklist of recursive descent; `JsonPath`
the tokenizer, the validator and the two evaluators, against the meaning of a path as a sequence of steps.

**Parquet**. `ColumnReader` reads, selects and skips over pages; `DefineLevels` builds definition levels through
structs, and `ListLevels` those of nested lists, from which it puts the lists together again; `RowGroups` combines the
buffers of several threads into row groups; `FieldIds` numbers nested columns.

**Dates** (`icu-*.cpp`). `IcuCalendar` is a calendar in UTC with Gregorian months and its search for differences;
`IcuDates` adds intervals and subtracts instants through it; `IcuTimeBucket` rounds instants down to buckets.

**Column names** (`json_multi_file_info.cpp`). `ColumnNames` renames columns that differ only in case.

Code that updates objects or arrays in place is a class or a method over arrays, proved against a function that says
what it computes; the lemmas are about these functions. Threads are steps over a shared state.

## Where the code does not keep what it promises

Ten promises hold only under a condition. The code is modelled as it is; each condition is proved to be exact.

* The parallel scan delivers the lines of a file exactly once if and only if no scanner drops anything but white space
  from the tail it should carry over (`KeepsTails`). A tail of one byte is always taken for a newline, and a block
  without a newline loses what was put in front of it. A file of the single byte `5` delivers nothing.
* The tokenizer of JSON paths passes the end of a path in exactly three cases (`OverrunExactly`). One concerns every
  path: in `$[1234567890123456789`, without a closing bracket, the byte taken for the bracket after 19 digits is not
  looked at. The other two concern paths from a column, which need not be followed by a zero byte: the path ends in
  `.*` and the byte behind it is a star, or it ends in two dots and that byte is a star or a quote.
* Every key of an object can be named in a path, in quotes, except the empty key and the key `*`, which is taken for
  the wildcard (`NamesMember`).
* Subtracting two instants is one millisecond too long exactly when the end lies in the first millisecond of 1970 and
  has fewer microseconds within its millisecond than the start (`BorrowsAcross1970`). It is too long by almost 2^64
  microseconds exactly when the end is the first whole millisecond in 64 bits and the start is not in whole
  milliseconds (`BorrowUnderflows`); such instants are out of the range that dates can be computed in. All other
  differences are exact.
* The part of a difference below the day is negative exactly when the end is before 1970, not in whole milliseconds,
  and the difference is less than the two fractions of a millisecond below a whole number of days (`HasNegativeRest`).
* Adding a difference to its start gives the end unless the difference is too long, or the start, with the
  microseconds moved by hand, leaves the range (`MovesOutOfRange`), which can only happen before 1970 and within two
  milliseconds of the first day.
* Adding an interval means months, then days, then the time, or the other way around if a part is negative. The code
  settles the microseconds below a millisecond before the months. The sum is the one that is meant unless this takes the
  instant over midnight, in either direction, where a month of another length cuts days off (`LosesDay`): a microsecond
  before midnight of 30 January 1970 plus a month and a microsecond is 28 February and not 1 March.
* A bucket of days contains its instant unless the instant is before 1970, the origin has a part below a millisecond,
  and the instant falls into just that part (`MissesBucket`). The default origins never miss.
* A bucket of months contains its instant unless the instant or the origin lies in December of the year -290308
  (`InCutMonth`). 64 bits reach only the end of that month; its start is computed without a check and wraps around to
  the year 294246, where the instant then gets its bucket (`CutMonthJumps`).
* Field ids are numbered with every node in its place if and only if names are distinct, ignoring case, at every
  level. `COPY` makes column names distinct first (`bind_copy.cpp:272`) and `struct_pack` refuses equal ones, but the
  fields of an unnamed struct, such as `row(1, 2)`, have the same name: debug builds assert that names are distinct
  (`parquet_field_id.cpp:84`), other builds lose an id (`UnnamedFieldsLoseId`).

A smaller observation: a unit that does not parse is reported with a number one higher than a unit that does not
transform (`ReportedNumbers`).

## Model

| member | source | states |
|---|---|---|
| JsonText.NextJSONDefault | src/duckdb/extension/json/json_reader.cpp:445-479 | The loop over brackets and strings stops exactly where the value at the start ends, skipping escaped characters inside strings. |
| JsonText.NextJSON | src/duckdb/extension/json/json_reader.cpp:481-507 | Objects, arrays and strings end at their end, other values before a comma or closing bracket; null when the end is not visible. |
| JsonText.SplitterFindsTheEnd | src/duckdb/extension/json/json_reader.cpp:445-507 | Every well-formed object, array or string followed by at least one byte is cut exactly at its end. |
| JsonText.SplitterWaitsForTheEnd | src/duckdb/extension/json/json_reader.cpp:445-507 | On every non-empty prefix of such a value the splitter returns null. |
| JsonText.ScalarsEndAtSeparator | src/duckdb/extension/json/json_reader.cpp:481-507 | A scalar, with white space behind it, is cut at the comma or bracket that follows, and not before one is visible. |
| JsonText.SpaceCodes | src/duckdb/extension/json/json_reader.cpp:381-388 | White space is what the C locale calls so, which includes all white space of JSON. |
| JsonSplit.ConsumeConcat | src/duckdb/extension/json/json_reader.cpp:766-821 | A pass over two texts is a pass over the first and then over its unfinished rest followed by the second, wherever the cut is. |
| JsonSplit.RestFits | src/duckdb/extension/json/json_reader.cpp:779-788 | If all units fit into the maximum object size, so does the unfinished rest at every cut. |
| JsonSplit.FitsIsLines | src/duckdb/extension/json/json_reader.cpp:779-788 | All units of newline-delimited text fit into the maximum object size if and only if all lines do, without their leading white space. |
| JsonSplit.SplitIsLines | src/duckdb/extension/json/json_reader.cpp:766-821 | Newline-delimited scanning, which skips white space lazily, delivers exactly the trimmed non-blank lines. |
| JsonSplit.SplitIsValues | src/duckdb/extension/json/json_reader.cpp:766-821 | An unstructured stream of well-formed objects, arrays and strings with white space between them is split into exactly these values. |
| JsonScan.SkipWhitespace | src/duckdb/extension/json/json_reader.cpp:423-429 | The offset moves to the first byte that is not white space. |
| JsonScan.TrimWhitespace | src/duckdb/extension/json/json_reader.cpp:381-388 | Removes white space at both ends and nothing else. |
| JsonScan.NextNewline | src/duckdb/extension/json/json_reader.cpp:431-433 | Finds the first newline, or none. |
| JsonScan.JSONScanner.ParseNextUnit | src/duckdb/extension/json/json_reader.cpp:773-819 | One round of the chunk loop: takes the next unit, or leaves an unfinished value to the next buffer, or reports that it does not parse or is too large. |
| JsonScan.JSONScanner.ParseNextChunk | src/duckdb/extension/json/json_reader.cpp:766-821 | The units taken are the next ones of the single pass over everything still pending. |
| JsonScan.JSONScanner.Read | src/duckdb/extension/json/json_reader.cpp:111-136 | A read appends the next bytes of the file, possibly fewer than requested, and none only at the end. |
| JsonScan.JSONScanner.MoveRemainderToFront | src/duckdb/extension/json/json_reader.cpp:981-985 | The overlapping move puts the remainder to the front unchanged. |
| JsonScan.JSONScanner.FillBuffer | src/duckdb/extension/json/json_reader.cpp:1072-1109 | The buffer holds the remainder followed by the bytes read, and remainder, bytes and padding stay within its capacity. |
| JsonScan.JSONScanner.ReadNextBuffer | src/duckdb/extension/json/json_reader.cpp:928-935 | Reading a buffer neither loses nor repeats a byte of what is pending. |
| JsonScan.JSONScanner.Scan | src/duckdb/extension/json/json_reader.cpp:859-881 | One call delivers the next units of the pending text, or tells why there are none. |
| JsonScan.ScanEntireFile | src/duckdb/extension/json/json_reader.cpp:859-881 | All calls together deliver the single-pass splitting of the file, for any sizes of reads; an error is only reported if that splitting has one, the size error only if a unit is too large. |
| JsonBlocks.PreviousNewline | src/duckdb/extension/json/json_reader.cpp:435-443 | Finds the last newline of a block; the first byte is never looked at and is the result when there is none behind it. |
| JsonBlocks.TailIsOneLine | src/duckdb/extension/json/json_reader.cpp:435-443 | The tail holds no newline behind its first byte, starts with one if the block has any, and is the whole block otherwise. |
| JsonBlocks.CopyRemainder | src/duckdb/extension/json/json_reader.cpp:727-764 | Puts the tail right in front of the scanner's own block, which stays unchanged, and leaves it out if it is a single byte; a tail that does not fit is reported. |
| JsonBlocks.BlocksFollowThePass | src/duckdb/extension/json/json_reader.cpp:727-821 | If no tail is dropped, the units of the first n blocks are those of one pass over their concatenation, and what that pass leaves over is the tail of block n. |
| JsonBlocks.InkOfAll | src/duckdb/extension/json/json_reader.cpp:727-821 | Conservation: bytes that are not white space in all units delivered, plus those in dropped tails, are those of the file. |
| JsonBlocks.ParallelScanIsExactlyOnce | src/duckdb/extension/json/json_reader.cpp:727-821 | The units in block order are the trimmed non-blank lines of the file if and only if nothing but white space is dropped. |
| JsonBlocks.NewlineInEveryBlock | src/duckdb/extension/json/json_reader.cpp:435-443 | A newline in every block is enough. |
| JsonBlocks.SingleByteIsLost | src/duckdb/extension/json/json_reader.cpp:759-762 | The file of one byte loses it. |
| JsonBlocks.LastLineIsCut | src/duckdb/extension/json/json_reader.cpp:435-443 | When only the last block has no newline, what is delivered for the last line of the file is the part of it in that block: the lines before it come out whole, and what the block before carried over is lost. |
| JsonBlocks.CutLastLine | src/duckdb/extension/json/json_reader.cpp:435-443 | An example: a last line that spans two blocks. |
| JsonParallel.ClaimKeeps | src/duckdb/extension/json/json_reader.cpp:73-89 | Claiming a range keeps ranges contiguous, only the last one empty, and assigns the new buffer to one scanner. |
| JsonParallel.PublishKeeps | src/duckdb/extension/json/json_reader.cpp:937-947 | Publishing a buffer, with two readers or one for the empty last one, keeps the protocol's invariant. |
| JsonParallel.CopyIsSafe | src/duckdb/extension/json/json_reader.cpp:727-751 | When a scanner copies, the previous buffer is still in the map, its block is not empty, and its tail fits into the room in front. |
| JsonParallel.CopyKeeps | src/duckdb/extension/json/json_reader.cpp:740-763 | Copying the tail keeps the invariant and never raises the size error. |
| JsonParallel.ReleaseKeeps | src/duckdb/extension/json/json_reader.cpp:753-756 | Releasing the previous buffer keeps the invariant; the scanner removes it exactly if it was the last reader. |
| JsonParallel.ReleaseOwnKeeps | src/duckdb/extension/json/json_reader.cpp:965-971 | Releasing the own buffer keeps the invariant. |
| JsonParallel.ParseKeeps | src/duckdb/extension/json/json_reader.cpp:766-821 | Scanning the own text keeps the invariant and records exactly the units of that block. |
| JsonParallel.StepKeepsInv | src/duckdb/extension/json/json_reader.cpp:727-971 | Every step of every scanner keeps the invariant on ranges, reader counts, map membership, buffer contents and assignment. |
| JsonParallel.RunKeepsInv | src/duckdb/extension/json/json_reader.cpp:727-971 | So it holds in every state of every run, for any number of scanners. |
| JsonParallel.BuffersLiveLongEnough | src/duckdb/extension/json/json_reader.cpp:253-273 | In every run no buffer is used after its removal, published or removed twice, or released too often; a published buffer is in the map exactly while it has readers or is about to be removed by the last one, and a non-last buffer stays until its successor has copied its tail. |
| JsonParallel.StepsAreSafe | src/duckdb/extension/json/json_reader.cpp:727-971 | Whenever a scanner takes a step in a run, the buffers it uses are in the map, released only while they have readers and removed only without any; buffers are published and counted once. |
| JsonParallel.NoDeadlock | src/duckdb/extension/json/json_reader.cpp:731-738 | Without an error some scanner can always step until all have left, although scanners wait for their predecessors. |
| JsonParallel.StepLowersMeasure | src/duckdb/extension/json/json_reader.cpp:1020-1038 | Every step makes progress towards the end of the scan. |
| JsonParallel.RunEnds | src/duckdb/extension/json/json_reader.cpp:859-881 | The length of every run is bounded by file size and number of scanners. |
| JsonParallel.EveryLineOnce | src/duckdb/extension/json/json_reader.cpp:727-881 | Every run that cannot go on has raised the size error exactly if some text left unfinished is longer than a buffer; otherwise all scanners have left, and their units in buffer order are the trimmed non-blank lines of the file if and only if no tail is dropped, in any interleaving. |
| JsonParallel.OrdinaryFileNeverThrows | src/duckdb/extension/json/json_reader.cpp:727-764 | No state of any run over such a file has raised the size error. |
| JsonParallel.LinesOfOrdinaryFile | src/duckdb/extension/json/json_reader.cpp:727-881 | If the file ends in a newline and has no line longer than a read request, every such run has delivered its lines, without an error. |
| JsonErrors.JSONReader.AddError | src/duckdb/extension/json/json_reader.cpp:318-332 | The error kept changes unless the old one is strictly smaller by buffer and line. |
| JsonErrors.JSONReader.TryGetLineNumber | src/duckdb/extension/json/json_reader.cpp:334-344 | There is a line number exactly if all earlier buffers are counted, and it is the sum of their counts plus the line in the buffer. |
| JsonErrors.JSONReader.ThrowErrorsIfPossible | src/duckdb/extension/json/json_reader.cpp:346-359 | Throws exactly if an error is kept whose line number is known. |
| JsonErrors.JSONReader.PublishCount | src/duckdb/extension/json/json_reader.cpp:280-288 | Publishing a count is followed by an attempt to throw. |
| JsonErrors.JSONReader.ReportError | src/duckdb/extension/json/json_reader.cpp:290-316 | Reporting an error is followed by an attempt to throw. |
| JsonErrors.KeptErrorIsLeast | src/duckdb/extension/json/json_reader.cpp:318-332 | After any calls the error kept is one of those reported and none reported is smaller. |
| JsonErrors.EarliestErrorWins | src/duckdb/extension/json/json_reader.cpp:318-359 | If errors of a buffer come in the order of lines and before its count, no report of the whole run, earlier or later, is smaller than an error thrown. |
| JsonErrors.ThrownLineIsInFile | src/duckdb/extension/json/json_reader.cpp:334-359 | The number shown is the sum of the final counts of all earlier buffers plus the line in the buffer plus one. |
| JsonErrors.NoErrorIsSwallowed | src/duckdb/extension/json/json_reader.cpp:280-359 | Once all buffers are counted, an error has been thrown if one was reported. |
| JsonErrors.ThrownWasDue | src/duckdb/extension/json/json_reader.cpp:346-359 | Nothing is thrown without an error whose line number is known at that call. |
| JsonErrors.ReportedNumbers | src/duckdb/extension/json/json_reader.cpp:290-316 | A unit that does not transform is shown with its number in the file counted from one, a unit that does not parse with the number after it. |
| JsonErrors.RunIsOrderly | src/duckdb/extension/json/json_reader.cpp:290-316 | In every run of any number of scanners, which parse, fail and let go of their buffers, the reports of a buffer come in the order of its lines and before its count, which is published once. |
| JsonErrors.RunThrowsFirstError | src/duckdb/extension/json/json_reader.cpp:280-359 | So in every such run an error thrown is the first of all that are found, and once no scanner has a buffer, one has been thrown if any was found. |
| JsonErrors.NumberIsOfUnit | src/duckdb/extension/json/json_reader.cpp:290-359 | In every run of the scanners, the number shown for a unit that does not transform is its number among all units parsed, buffer by buffer, counted from 1; for one that does not parse it is 2 more than the number of units parsed before it. |
| JsonErrors.FirstInFile | src/duckdb/extension/json/json_reader.cpp:318-359 | In every run of the scanners, no error found at any time belongs before the one thrown, by the number of units parsed before it in the file. |
| JsonFileHandle.JSONFileHandle.ReadInternal | src/duckdb/extension/json/json_reader.cpp:138-149 | Repeats short reads until the request is served or the end is reached. |
| JsonFileHandle.JSONFileHandle.ReadFromCache | src/duckdb/extension/json/json_reader.cpp:151-175 | Copies the cached bytes at the position, across buffers, as many as requested or cached. |
| JsonFileHandle.JSONFileHandle.Read | src/duckdb/extension/json/json_reader.cpp:111-136 | Returns exactly the bytes of the stream at the position; the pipe is only read for what the cache, which always holds everything taken from it, does not have. |
| JsonFileHandle.JSONFileHandle.Reset | src/duckdb/extension/json/json_reader.cpp:34-43 | Goes back to the start; the cache stays. |
| JsonFileHandle.Replay | src/duckdb/extension/json/json_reader.cpp:111-175 | Any sequence of reads and resets on a pipe returns what it would return on a file. |
| JsonFileHandle.ReadsAreContiguous | src/duckdb/extension/json/json_reader.cpp:111-136 | Reads without a reset return the stream without gaps or repetitions. |
| LambdaFunctions.ExecuteExpression | src/duckdb/extension/core_functions/lambda_functions.cpp:182-216 | Every element of a batch is evaluated with its own index and the captured columns of its own row. |
| LambdaFunctions.LambdaArguments | src/duckdb/extension/core_functions/lambda_functions.cpp:182-216 | The lambda gets the element, its number in its list counted from 1 if it asks for it, and the row's value of each captured column, which for a constant column is its only one. |
| LambdaFunctions.SkipEmptyLists | src/duckdb/extension/core_functions/lambda_functions.cpp:117-122 | Empty and NULL lists get an empty entry at the current offset; the counters still account for the same elements. |
| LambdaFunctions.CountElement | src/duckdb/extension/core_functions/lambda_functions.cpp:124-143 | One element more is counted; at the end of its list the entry is completed. |
| LambdaFunctions.SlotIsCurrent | src/duckdb/extension/core_functions/lambda_functions.cpp:111-143 | The next element of a batch is the one the counters that survive batches wait for. |
| LambdaFunctions.AppendResult | src/duckdb/extension/core_functions/lambda_functions.cpp:103-158 | After a batch the result holds exactly the elements kept of all rows so far, also in the middle of a list. |
| LambdaFunctions.ListFilter | src/duckdb/extension/core_functions/lambda_functions.cpp:271-355 | For every batch size the result child vector is the concatenation of the filtered rows, entries are running sums of kept lengths, and NULL lists are NULL. |
| LambdaFunctions.KeptAreTrue | src/duckdb/extension/core_functions/lambda_functions.cpp:103-158 | Exactly the elements whose lambda is true, not NULL, are kept, in their order. |
| LambdaFunctions.FilteredRow | src/duckdb/extension/core_functions/lambda_functions.cpp:271-355 | Each entry cuts exactly the filtered list of its row out of the child vector. |
| LambdaFunctions.ListTransform | src/duckdb/extension/core_functions/lambda_functions.cpp:271-355 | For every batch size the child vector holds the lambda's values of all rows in order and the entries of non-NULL rows are running sums of lengths. |
| LambdaFunctions.TransformedRow | src/duckdb/extension/core_functions/lambda_functions.cpp:271-355 | Rows stay NULL, and each other entry cuts exactly the mapped list of its row out of the child vector. |
| JsonTree.VisitsLevelByLevel | src/duckdb/extension/json/json_common.cpp:309-330 | The growing worklist visits the subtree breadth first, each level from left to right. |
| JsonTree.VisitsEachNodeOnce | src/duckdb/extension/json/json_common.cpp:309-330 | It visits every node of the subtree, none twice, and nothing else. |
| JsonPath.ReadString | src/duckdb/extension/json/json_common.cpp:67-105 | A quoted key is unescaped up to its closing quote within its buffer; a plain key ends before a dot or bracket. |
| JsonPath.QuotedUndoesEscaped | src/duckdb/extension/json/json_common.cpp:67-97 | Round trip: reading an escaped key up to its closing quote gives the key back. |
| JsonPath.QuotedKeyToken | src/duckdb/extension/json/json_common.cpp:134-171 | Behind a dot, a key in quotes is read as the field it names, whatever follows it, unless it is empty, which is refused, or a star, which becomes the wildcard. |
| JsonPath.NamesMember | src/duckdb/extension/json/json_common.cpp:55-57 | A path names exactly the member with a key if and only if the key is neither empty nor a star. |
| JsonPath.PlainKeyToken | src/duckdb/extension/json/json_common.cpp:98-105 | A key that starts with neither a quote nor a star and has no dots or opening brackets can be written without quotes. |
| JsonPath.GetMember | src/duckdb/extension/json/json_common.cpp:252-295 | For such a key the single-result evaluator finds the first member with it, or null. |
| JsonPath.IndexMeans | src/duckdb/extension/json/json_common.cpp:283-286 | An index finds its element, one from the back the element that far from the end, counting from 1, and nothing when it is beyond the array. |
| JsonPath.GetElement | src/duckdb/extension/json/json_common.cpp:252-295 | A path written with an index of up to 19 digits, from the front, with a minus, or with a hash and a minus, finds exactly that element, or null. |
| JsonPath.HashMeansNothing | src/duckdb/extension/json/json_common.cpp:182-192 | The index # alone finds nothing in an array of fewer than 2^32 elements. |
| JsonPath.LastOfThree | src/duckdb/extension/json/json_common.cpp:252-295 | An example: the last of three elements. |
| JsonPath.ReadInteger | src/duckdb/extension/json/json_common.cpp:107-132 | Reads at most 19 digits; the number never reaches the value that stands for a wildcard. |
| JsonPath.ReadKey | src/duckdb/extension/json/json_common.cpp:134-171 | Tells names, wildcards and the forms of recursive descent apart, for every byte that may be behind the path; only that byte can take it past the end. |
| JsonPath.ReadArrayIndex | src/duckdb/extension/json/json_common.cpp:173-211 | Reads an index, an index from the back, or a wildcard; only the wildcard has the invalid index. |
| JsonPath.ValidateToken | src/duckdb/extension/json/json_common.cpp:218-247 | One round of the validator: accepts exactly the tokens the evaluators can read, and notices wildcards, whatever is behind the path. |
| JsonPath.ValidatePath | src/duckdb/extension/json/json_common.cpp:213-250 | Accepts a path exactly if it reads as steps to its very end, whatever is behind it, and classifies it by whether a step can find several nodes. |
| JsonPath.GetPath | src/duckdb/extension/json/json_common.cpp:252-295 | On an accepted regular path, from a constant or a column, the result is the one node the steps lead to, or null; no invalid token is met. |
| JsonPath.FollowToken | src/duckdb/extension/json/json_common.cpp:258-292 | A field leads to the first member with the key, an index to its element, counting from the back if asked for. |
| JsonPath.NestedToken | src/duckdb/extension/json/json_common.cpp:305-309 | After two dots and a name, the rest read from the second dot on is an ordinary field. |
| JsonPath.EvalChildren | src/duckdb/extension/json/json_common.cpp:337-344 | A wildcard appends what the rest of the path finds on each child in order. |
| JsonPath.WildcardsFindAll | src/duckdb/extension/json/json_common.cpp:337-384 | A wildcard finds all members of an object or all elements of an array, in order, and nothing on other values. |
| JsonPath.WildcardForms | src/duckdb/extension/json/json_common.cpp:134-181 | The five ways to write wildcards at the end of a path, and what each stands for. |
| JsonPath.EvalDescendants | src/duckdb/extension/json/json_common.cpp:305-332 | Recursive descent appends what the rest finds on each visited node in order, on the root only if there is a rest; nested calls get a shorter rest. |
| JsonPath.GetWildcardPathInternal | src/duckdb/extension/json/json_common.cpp:297-384 | Appends exactly the meaning of the rest of the path on the node. |
| JsonPath.GetWildcardPath | src/duckdb/extension/json/json_common.cpp:386-390 | Finds exactly the nodes the path means, in order. |
| JsonPath.Evaluate | src/duckdb/extension/json/json_common.cpp:213-390 | On a regular path the wildcard evaluator finds what the single-result evaluator finds, on every document and with any byte behind the path. |
| JsonPath.RegularFindsAtMostOne | src/duckdb/extension/json/json_common.cpp:252-295 | A path without wildcards leads to at most one node. |
| JsonPath.DescentIsComplete | src/duckdb/extension/json/json_common.cpp:305-332 | A node is found by a descent if and only if the rest of the path finds it from some node of the subtree, the root excepted when there is no rest. |
| JsonPath.ConstantPathOverruns | src/duckdb/extension/json/json_common.cpp:107-132 | With a zero byte behind it, the loops run past the end of a path exactly if it ends in a bracket with 19 digits, no closing bracket, and would be accepted with index 0 in their place. |
| JsonPath.OverrunExactly | src/duckdb/extension/json/json_common.cpp:107-171 | For any byte behind the path, the loops run past its end exactly in that case, or if it ends in the wildcard `.*` before a star, or if it ends in two dots before a star or quote and would be accepted, with a star added, as a descent. |
| JsonPath.AfterChangesLittle | src/duckdb/extension/json/json_common.cpp:134-160 | Otherwise the byte behind the path only decides whether two dots at the end are accepted as a descent, which a bracket does; regular paths do not depend on it. |
| JsonPath.UnclosedIndexOverruns | src/duckdb/extension/json/json_common.cpp:209-210 | A concrete path that overruns whatever is behind it. |
| JsonPath.UnterminatedPathsOverrun | src/duckdb/extension/json/include/json_common.hpp:272-293 | Concrete column paths, of 15 bytes, on which that happens: the data is passed on without a terminating byte. |
| ColumnReader.ColumnReader.ReadPageHeaders | src/duckdb/extension/parquet/column_reader.cpp:573-582 | Loads pages until one has rows, past dictionary and empty pages, without changing the rows to come. |
| ColumnReader.ColumnReader.PrepareRead | src/duckdb/extension/parquet/column_reader.cpp:584-608 | Takes the levels of the next rows; says that all are valid only if they are. |
| ColumnReader.RowsOfLevels | src/duckdb/extension/parquet/column_reader.cpp:584-661 | Levels and values of a page stand for exactly the rows in which the highest level marks those that are not NULL. |
| ColumnReader.ColumnReader.ReadInternal | src/duckdb/extension/parquet/column_reader.cpp:663-679 | Reads the next rows over as many pages as it takes. |
| ColumnReader.ColumnReader.Read | src/duckdb/extension/parquet/column_reader.cpp:681-684 | Returns the next rows after the pending skips, wherever other columns left the transport. |
| ColumnReader.ColumnReader.PlainSelect | src/duckdb/extension/parquet/include/column_reader.hpp:255-281 | The selected rows land in their places; the cursor moves past the whole batch. |
| ColumnReader.ColumnReader.DirectSelect | src/duckdb/extension/parquet/column_reader.cpp:695-715 | The shortcut within one plain page and the fallback give the same selected rows and the same state. |
| ColumnReader.ColumnReader.Select | src/duckdb/extension/parquet/column_reader.cpp:686-693 | Agrees with a read on the approved rows and moves the cursor alike. |
| ColumnReader.ColumnReader.Skip | src/duckdb/extension/parquet/column_reader.cpp:765-767 | Only moves the cursor. |
| ColumnReader.ColumnReader.ApplyPendingSkips | src/duckdb/extension/parquet/column_reader.cpp:769-818 | Carries the skips out; rows remaining and rows consumed or skipped add up as before. |
| ColumnReader.Replay | src/duckdb/extension/parquet/column_reader.cpp:681-818 | Any sequence of skips, reads and selections sees the flat column at the cursor, for any paging and any moves of the shared transport in between. |
| ColumnReader.SkipThenRead | src/duckdb/extension/parquet/column_reader.cpp:765-767 | A skip and a read are a longer read with its first rows dropped. |
| DefineLevels.HandleRepeatLevels | src/duckdb/extension/parquet/column_writer.cpp:184-195 | The repetition levels not seen yet are taken over from the parent. |
| DefineLevels.RankCounts | src/duckdb/extension/parquet/column_writer.cpp:218-221 | The row of a slot is the number of slots before it in the batch that are not empty. |
| DefineLevels.InheritDefineLevels | src/duckdb/extension/parquet/column_writer.cpp:200-224 | Every new slot inherits the parent's null level or gets define or null from the validity bit at its rank among the non-empty slots of the batch; the counters account for all slots not defined; the error is raised exactly for a forbidden null. |
| DefineLevels.RootDefineLevels | src/duckdb/extension/parquet/column_writer.cpp:226-239 | Without a parent the levels come from the mask alone. |
| DefineLevels.HandleDefineLevels | src/duckdb/extension/parquet/column_writer.cpp:197-240 | Both together. |
| DefineLevels.PrepareChain | src/duckdb/extension/parquet/writer/struct_column_writer.cpp:61-82 | Fed batch by batch, every column of a chain of structs has for every row so far the level of its outermost null ancestor. |
| DefineLevels.LeafTellsOutermostNull | src/duckdb/extension/parquet/writer/struct_column_writer.cpp:76-76 | The level of the leaf identifies the outermost null column, or says that there is none. |
| ListLevels.GetConsecutiveChildList | src/duckdb/extension/parquet/writer/list_column_writer.cpp:31-63 | The elements of the lists one after the other, whether or not the child vector already holds them like that. |
| ListLevels.PrepareList | src/duckdb/extension/parquet/writer/list_column_writer.cpp:65-114 | Every new slot of the parent is expanded in order: empty and null slots are passed on, null and empty lists get one empty slot each, and the others one slot for every element; the error is raised exactly for a forbidden null. |
| ListLevels.PrepareLeaf | src/duckdb/extension/parquet/writer/primitive_column_writer.cpp:42-51 | Fed batch by batch, the leaf below any number of lists has the levels of all rows so far, values taking the slots that are not empty. |
| ListLevels.PrepareFrom | src/duckdb/extension/parquet/writer/list_column_writer.cpp:65-122 | The same for a column of nested lists as a whole, through its child vectors; the values that are not null are those of the rows. |
| ListLevels.PrepareRows | src/duckdb/extension/parquet/writer/list_column_writer.cpp:65-122 | After every batch, the levels of the leaf and the values that are not null can be assembled into exactly the rows so far. |
| ListLevels.CollapseUndoesExpand | src/duckdb/extension/parquet/writer/list_column_writer.cpp:69-114 | The slots made for the elements tell for which lists of which slots they were made. |
| ListLevels.RowsRoundTrip | src/duckdb/extension/parquet/writer/list_column_writer.cpp:65-122 | Round trip: repetition levels, definition levels and values determine the rows, for lists nested to any depth with nulls and empty lists anywhere. |
| ListLevels.ThreeLists | src/duckdb/extension/parquet/writer/list_column_writer.cpp:69-114 | An example: the levels of the lists [a], [] and [NULL]. |
| RowGroups.ParquetWrite.Sink | src/duckdb/extension/parquet/parquet_extension.cpp:380-399 | Rows are appended to the thread's buffer, which is flushed once it is full. |
| RowGroups.ParquetWrite.Flush | src/duckdb/extension/parquet/parquet_writer.cpp:693-711 | A buffer that is not empty becomes a row group. |
| RowGroups.ParquetWrite.Combine | src/duckdb/extension/parquet/parquet_extension.cpp:401-433 | Large rests are flushed and small ones merged; a waiting buffer is below both half thresholds. |
| RowGroups.ParquetWrite.Merge | src/duckdb/extension/parquet/parquet_extension.cpp:411-431 | Small buffers are merged under the lock, and the merged buffer is taken out once it is large. |
| RowGroups.ParquetWrite.Finalize | src/duckdb/extension/parquet/parquet_extension.cpp:435-445 | The waiting buffer is flushed; then the row groups hold exactly the rows sunk. |
| RowGroups.SizeTellsOrigin | src/duckdb/extension/parquet/parquet_extension.cpp:389-445 | A group is below half of both limits exactly if it comes from Finalize, a full one is at one of the limits, a merged group is smaller than the row group size, and no group exceeds it by more than a vector. |
| RowGroups.Run | src/duckdb/extension/parquet/parquet_extension.cpp:380-445 | For any number of threads and any interleaving, the write is finalized once all threads have combined, and then no row is lost or written twice. |
| IcuCalendar.MonthUnique | src/duckdb/extension/icu/icu-datetrunc.cpp:80-83 | Every day is in exactly one month. |
| IcuCalendar.AddMonthsLands | src/duckdb/extension/icu/third_party/icu/i18n/calendar.cpp:2127-2129 | Adding months goes to that many months later, at the same time of the same day of the month, or of the last day if there is no such day. |
| IcuCalendar.Calendar.FieldDifference | src/duckdb/extension/icu/third_party/icu/i18n/calendar.cpp:2290-2388 | Doubling and a binary search, forward or backward, find how often the unit fits between two instants, for months too, and move the calendar on by that much. |
| IcuCalendar.FitsOnce | src/duckdb/extension/icu/third_party/icu/i18n/calendar.cpp:2290-2388 | Only one number of units fits, although days at the end of a month are cut off when months are added. |
| IcuDates.SetTime | src/duckdb/extension/icu/icu-datefunc.cpp:134-149 | Splits an instant into milliseconds rounded down and the microseconds left. |
| IcuDates.CalendarAddHour | src/duckdb/extension/icu/icu-dateadd.cpp:47-65 | Pieces of 32 bits add up to all the hours. |
| IcuDates.Add | src/duckdb/extension/icu/icu-dateadd.cpp:68-133 | Breaking the interval into units, and the order in which they are added, give the sum below; the range checks are those of the code. |
| IcuDates.AddIsExact | src/duckdb/extension/icu/icu-dateadd.cpp:68-133 | Without months the instant moves by exactly the length of the interval, or the range check fails. |
| IcuDates.AddStaysInRange | src/duckdb/extension/icu/icu-dateadd.cpp:92-97 | Two milliseconds away from the ends of the range there is no error. |
| IcuDates.AddIsMeant | src/duckdb/extension/icu/icu-dateadd.cpp:80-133 | For every interval, a sum in range is the one that is meant, months before days before the time or backward, if and only if no day is lost by settling the microseconds first. |
| IcuDates.AddOfMonths | src/duckdb/extension/icu/icu-dateadd.cpp:68-133 | An interval of months alone always lands in that many months, at the same time of the same day of the month or of the last one. |
| IcuDates.OneDayLost | src/duckdb/extension/icu/icu-dateadd.cpp:80-97 | An example of a sum that loses a day. |
| IcuDates.Sub | src/duckdb/extension/icu/icu-dateadd.cpp:147-180 | The borrow in 64 bits, the field differences and the unsigned arithmetic give the difference below; infinite instants are rejected. |
| IcuDates.DifferenceLength | src/duckdb/extension/icu/icu-dateadd.cpp:158-180 | The exact length of every difference, including what is too much after a borrow across 1970 or out of 64 bits. |
| IcuDates.SubIsExact | src/duckdb/extension/icu/icu-dateadd.cpp:147-180 | The difference is exact if and only if no borrow crosses 1970 or leaves the 64 bits, for all finite instants. |
| IcuDates.SubIsNormalized | src/duckdb/extension/icu/icu-dateadd.cpp:169-180 | Days are not negative, the rest is less than a day, and it is negative if and only if the end is before 1970, not in whole milliseconds, and the difference ends just below a whole number of days. |
| IcuDates.NegativeRest | src/duckdb/extension/icu/icu-dateadd.cpp:169-180 | An example of a negative rest. |
| IcuDates.OneMillisecondTooLong | src/duckdb/extension/icu/icu-dateadd.cpp:161-167 | A concrete pair of instants whose difference is too long. |
| IcuDates.LowestMillisecond | src/duckdb/extension/icu/icu-dateadd.cpp:161-164 | An example of a borrow that leaves the 64 bits: two instants a microsecond apart. |
| IcuDates.AddUndoesSub | src/duckdb/extension/icu/icu-dateadd.cpp:68-180 | Round trip: for all ordered instants in range, adding the difference to the start gives the end if and only if no borrow crosses 1970 and the start, with the microseconds moved, stays in range. |
| IcuDates.MovesOutOfRangeRarely | src/duckdb/extension/icu/icu-dateadd.cpp:92-97 | Only a start less than two milliseconds above the first day in range can leave it, and only for an end before 1970. |
| IcuDates.FirstDayIsStuck | src/duckdb/extension/icu/icu-dateadd.cpp:92-97 | An example of a difference that cannot be added to its start. |
| IcuTimeBucket.WidthConvertibleToMicros | src/duckdb/extension/icu/icu-timebucket.cpp:63-77 | Truncation and the correction below the origin give the bucket rounded down, with the overflow checks of the code. |
| IcuTimeBucket.BucketContains | src/duckdb/extension/icu/icu-timebucket.cpp:63-77 | The only aligned bucket that contains an instant is that one. |
| IcuTimeBucket.BucketOrder | src/duckdb/extension/icu/icu-timebucket.cpp:63-77 | Bucketing is monotone and idempotent. |
| IcuTimeBucket.MicrosBucketInRange | src/duckdb/extension/icu/icu-timebucket.cpp:63-77 | Away from the ends of the range the result is that bucket and not an error. |
| IcuTimeBucket.WidthConvertibleToDays | src/duckdb/extension/icu/icu-timebucket.cpp:79-99 | The two-step computation with its checks. |
| IcuTimeBucket.DaysBucketContains | src/duckdb/extension/icu/icu-timebucket.cpp:79-99 | A day bucket contains its instant if and only if the instant is not in the part the code misses. |
| IcuTimeBucket.DaysBucketOrder | src/duckdb/extension/icu/icu-timebucket.cpp:79-99 | From an origin in whole milliseconds day buckets are monotone and idempotent. |
| IcuTimeBucket.DefaultOrigins | src/duckdb/extension/icu/icu-timebucket.cpp:15-20 | The default origins are the first of January 2000 for months and the first Monday behind it for everything else. |
| IcuTimeBucket.DefaultTimeBucket | src/duckdb/extension/icu/icu-timebucket.cpp:189-206 | Without an origin or offset the default origin is taken. |
| IcuTimeBucket.WeeksStartOnMonday | src/duckdb/extension/icu/icu-timebucket.cpp:15-20 | From the default origin, buckets of whole weeks start on Mondays at midnight. |
| IcuTimeBucket.TimesStartAtMidnight | src/duckdb/extension/icu/icu-timebucket.cpp:15-20 | Buckets of a time that divides a day are counted from midnight. |
| IcuTimeBucket.YearsStartInJanuary | src/duckdb/extension/icu/icu-timebucket.cpp:15-20 | Buckets of whole years start on the first of January. |
| IcuTimeBucket.DefaultOriginMisses | src/duckdb/extension/icu/icu-timebucket.cpp:18-25 | From the default origins the bucket returned contains its instant unless the width is in months and the instant in the cut month. |
| IcuTimeBucket.BucketBehindInstant | src/duckdb/extension/icu/icu-timebucket.cpp:79-99 | A concrete instant before its own bucket. |
| IcuTimeBucket.WidthConvertibleToMonths | src/duckdb/extension/icu/icu-timebucket.cpp:101-130 | Truncating both instants to months with the unchecked conversion, counting the months between them and rounding down gives the outcome below. |
| IcuTimeBucket.CutMonthWraps | src/duckdb/extension/icu/icu-datefunc.cpp:92-100 | The start of an instant's month fits into 64 bits if and only if the instant is not in the cut month; there it wraps around to one fixed instant. |
| IcuTimeBucket.MonthsAreMeant | src/duckdb/extension/icu/icu-timebucket.cpp:101-130 | With both instants outside of the cut month the outcome is the one computed on unbounded numbers; otherwise that one would be the range error. |
| IcuTimeBucket.MonthsOutcomeHolds | src/duckdb/extension/icu/icu-timebucket.cpp:101-130 | A bucket of months that is returned contains its instant if and only if neither the instant nor the origin is in the cut month. |
| IcuTimeBucket.CutMonthJumps | src/duckdb/extension/icu/icu-timebucket.cpp:109-129 | An instant in the cut month gets the bucket of an instant at the other end of the range. |
| IcuTimeBucket.BucketAtOtherEnd | src/duckdb/extension/icu/icu-timebucket.cpp:109-129 | An example: an instant in range of the year -290308 and its bucket in the year 294246. |
| IcuTimeBucket.MonthBucketContains | src/duckdb/extension/icu/icu-timebucket.cpp:101-130 | A month bucket is a whole number of widths from the origin's month and contains the instant. |
| IcuTimeBucket.MonthBucketOrder | src/duckdb/extension/icu/icu-timebucket.cpp:101-130 | Month buckets are monotone and idempotent. |
| IcuTimeBucket.TimeBucket | src/duckdb/extension/icu/icu-timebucket.cpp:291-310 | An infinite origin gives NULL, only widths in a single positive unit are accepted, and infinite instants are their own bucket; any other bucket returned contains its instant exactly unless a width in days misses it or a width in months meets the cut month. |
| IcuTimeBucket.OffsetTimeBucket | src/duckdb/extension/icu/icu-timebucket.cpp:205-259 | With an offset without months, the bucket moved back by the offset contains the instant plus the negated offset, exactly unless the width is in months and that instant in the cut month. |
| IcuTimeBucket.NegatedIsOpposite | src/duckdb/extension/icu/icu-dateadd.cpp:140-144 | Negating an interval gives the opposite one unless a part is the lowest number of its width. |
| FieldIds.GenerateFieldIDs | src/duckdb/extension/parquet/parquet_field_id.cpp:79-99 | The loop with its shared counter and maps, also when a name is already taken. |
| FieldIds.GeneratesPreOrder | src/duckdb/extension/parquet/parquet_field_id.cpp:79-99 | With distinct names every node has the number of its place in a walk that visits parents before children. |
| FieldIds.ElementsComeFirst | src/duckdb/extension/parquet/parquet_field_id.cpp:54-77 | The element of a list is numbered right after it, and of a map the key and then, behind everything in it, the value. |
| FieldIds.GeneratedIdsAreConsecutive | src/duckdb/extension/parquet/parquet_field_id.cpp:79-99 | The ids in the maps are start, start + 1, and so on, each once, and the descendants of a node come right after it. |
| FieldIds.AllInsertedExactlyIfDistinct | src/duckdb/extension/parquet/parquet_field_id.cpp:83-84 | Every node gets an entry of its own if and only if names are distinct at every level. |
| FieldIds.UnnamedFieldsLoseId | src/duckdb/extension/parquet/parquet_field_id.cpp:83-99 | An example: the two fields of an unnamed struct share one entry, and the second id is lost. |
| ColumnNames.FreeName | src/duckdb/extension/json/json_multi_file_info.cpp:326-329 | The inner loop ends with a free name, which is the original one exactly if that was free. |
| ColumnNames.RenameColumns | src/duckdb/extension/json/json_multi_file_info.cpp:323-331 | The final names are distinct ignoring case, and a name changes exactly if it is taken when it is reached. |
| ColumnNames.DistinctNamesStay | src/duckdb/extension/json/json_multi_file_info.cpp:323-331 | Names that are distinct ignoring case are left alone. |
| ColumnNames.RepeatedNamesCount | src/duckdb/extension/json/json_multi_file_info.cpp:323-331 | Names that differ only in case keep the first one and number the others 1, 2 and so on behind an underscore. |

## Left out

- JSON format detection, byte-order marks, `ignore_errors` and the commas of the top-level array format: they add branches without changing how units are cut.
- Parsing in place: a JSON parser that overwrites its input is an abstract predicate here that says whether a unit parses.
- The partial scan of files that cannot seek: it claims and reads in one step, otherwise the protocol is the same.
- A file handle of its own per thread, closing files, and progress reporting.
- Parse errors in the protocol of the parallel scan, where every unit parses: what scanners do with errors is modelled on its own, without the contents of their buffers.
- The buffer offset after an error that cannot be thrown yet: a scanner that has reported one lets go of its buffer next, as the code does after a call that returns nothing.
- Slicing of dictionary vectors and constant result vectors in list lambdas, and `list_reduce`.
- JSON pointers, and how a path argument without a leading dollar sign is turned into a path.
- Decoders, compression, encryption, repeated columns, and filters pushed into dictionaries in the column reader: decoders are cursors over the values of a page.
- A page header that is missing because the file is damaged: reads and skips stay within the rows the file says it has.
- Structs and maps below lists: a list writer takes them as parents, but the round trip is for lists of lists. Columns that cannot be null: levels are those of columns that can.
- The pages a leaf is cut into: only its levels and values.
- Time zones with an offset or daylight saving time, the Julian calendar before 1582, and rounding of a calendar's time as a floating point number.
- Overflow of 32 bits in a calendar's field difference, and a calendar's own limits on years: instants of 64 bits cannot reach them.
- FieldIds.GeneratedIdsAreConsecutive: does not model ids above the 32-bit range, which the code cuts off.
- Half floats, compression levels, enum tables and the JNI layer.
