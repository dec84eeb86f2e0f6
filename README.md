# replacer, modelled in Dafny

`replacer` is a small command-line tool (`index.ts`). It walks a directory
tree and collects the files that pass a hidden-name filter and two extension
filters. It turns the keys of a JSON mapping into search patterns, hands files,
patterns and replacements to the `replace-in-file` library, and reports which
files changed.

This project models the logic of `index.ts` that is not I/O, in seven modules:

- `Paths`: the parts of Node's `path` module and of `split("/").at(-1)` that
  the tool depends on. These are `path.extname` on POSIX paths, the last
  `/`-segment of a path, and `path.resolve(dir, entry)` for a directory that
  is already absolute and normalised.
- `ExtFilter`: `checkExtAllowed` and `checkExtDisallowed`, and their
  conjunction, which is the test `walk` applies to every file.
- `DirWalk`: `walk` over an in-memory tree. `Entry` is `File(name)` or
  `Dir(name, children)`. `fs.readdir` becomes a directory's list of entries and
  `fs.stat` becomes the constructor. `Walk` is a method with the source's loop.
  It is proved equal to the specification function `Listing`. The lemmas
  about `Listing` cover several things:
  - what it contains;
  - its order and the in-place splicing of subdirectory results;
  - the hidden-name filter;
  - that filtering can be deferred;
  - that no path is returned twice when the names in the tree are well
    formed, as a file system gives them.
- `KeyEscape`: the chain of four `replaceAll` calls applied to every key. It is
  proved equal to a one-pass escape, undone by a left-to-right unescape, and
  it grows each key by one character per special character. This module also
  builds the `from` and `to` lists from the mapping.
- `Report`: the output of `runReplacer`. `ReportResults` is a loop that maps
  each record to a line or to `undefined`, bumps `count` for every truthy line
  and joins the lines. It then writes the summary.
- `Replacer`: `runReplacer`, and the top level once the mapping is loaded. The
  replacement library is a function parameter.
- `Seqs`: `filter`, `map` and `join("")`, with the lemmas that split them.

Two points where the model follows the code rather than the flag's name or a
prose description:

- **The hidden-name filter.** It is applied when `showHidden` is *true*
  (index.ts:34-37). With the flag set, names that match `(^|\/)\.[^\/\.]` are
  removed, and without it every name is kept. The model does exactly that.
- **Each report line starts with a line break.** The line is
  `"\n" + <last segment> + ": " + <count> + " replacements"`, as the template
  literal at index.ts:118 writes it.

## Model

| member | source | states |
|---|---|---|
| `Paths.LastIndexOf` | index.ts:118 | the result is -1 or an index holding `c`, and no later index holds `c` |
| `Paths.LastSegment` | index.ts:118 | `split("/").at(-1)` is a suffix of the path that contains no `/` |
| `Paths.LastSegmentMaximal` | index.ts:118 | that suffix is maximal: when it is shorter than the path, a `/` comes right before it |
| `Paths.LastSegmentOfResolve` | index.ts:43 | the last segment of a resolved entry path is the entry name |
| `Paths.StripTrailingSlashes` | index.ts:69 | the result is a prefix that does not end in `/`, and everything removed is `/` |
| `Paths.Extname` | index.ts:69 | `path.extname` is empty, or a `.` followed by no `.` and no `/` |
| `Paths.SegmentExt` | index.ts:69 | the extension of a segment is empty or a suffix of it that starts with its last `.` |
| `Paths.Resolve` | index.ts:43 | the resolved path starts with the directory, ends with the name, has a `/` right before the name, and is at least as long as directory and name together |
| `Paths.ResolveNoTrailingSlash` | index.ts:43 | the resolved path of a non-empty name without `/` does not end in `/` |
| `Paths.UnderParent` | index.ts:43 | a path at or below an entry of a directory (not ending in `/`) lies below that directory |
| `Paths.UnderSeparate` | index.ts:43 | a path at or below two entries of one directory, with non-empty names free of `/`, means the two names are equal |
| `Paths.ExtnameOfResolve` | index.ts:43-44 | resolving an entry in a directory does not change its extension |
| `Paths.LastIndexOfBefore` | index.ts:69 | the last `c` of `a + [c] + b` is at index length-of-`a` when `b` contains no `c` |
| `Paths.ExtnameOfDotted` | index.ts:69 | `extname("base.e")` is `".e"`, except for the name `..` |
| `Paths.OwnSegment` | index.ts:69 | a name without `/` is its own last segment |
| `Paths.NoDotNoExtname` | index.ts:69 | a path whose last segment has no dot has no extension |
| `Paths.LeadingDotNoExtname` | index.ts:69 | a name whose only dot leads it (`.env`, `.`) has no extension |
| `Paths.SegmentExtNonEmpty` | index.ts:69 | a segment has an extension exactly when it has a `.` after its first character and is not `..` |
| `ExtFilter.ExtOf` | index.ts:69 | `extname(name).substring(1)` contains no `.` and no `/` |
| `ExtFilter.CheckExtAllowed` | index.ts:68-72 | no contract of its own; `ExtFilter.AllowedIff` states it: true on an empty list, otherwise exactly when the stripped extension is on the list |
| `ExtFilter.CheckExtDisallowed` | index.ts:75-79 | no contract of its own; `ExtFilter.DisallowedIff` states it: true on an empty list, otherwise exactly when the stripped extension is not on the list |
| `ExtFilter.Keep` | index.ts:56-59 | no contract of its own; the conjunction of the two checks that a file must pass; `ExtFilter.BothListsExclude` and `ExtFilter.DottedNameFilters` state it |
| `ExtFilter.ExtOfDotted` | index.ts:69 | the stripped extension of `base.e` is `e` |
| `ExtFilter.ExtOfResolve` | index.ts:43 | the stripped extension of a resolved path is that of the entry name |
| `ExtFilter.ExtOfLeadingDot` | index.ts:69 | the stripped extension of a dot file such as `.env` is empty |
| `ExtFilter.DotFileFilters` | index.ts:56-61 | so `.env` is kept by the disallowed list `[env]` and dropped by the allowed list `[env]` |
| `ExtFilter.ExtOfUndotted` | index.ts:76 | a name without a dot in its last segment has the empty extension |
| `ExtFilter.AllowedIff` | index.ts:68-72 | an empty allowed list passes every name; otherwise a name passes exactly when its extension is listed |
| `ExtFilter.DisallowedIff` | index.ts:75-79 | an empty disallowed list passes every name; otherwise a name passes exactly when its extension is not listed |
| `ExtFilter.BothListsExclude` | index.ts:56-61 | a file whose extension is on both lists is not kept |
| `ExtFilter.DottedEntryNeverMatches` | index.ts:71 | a list entry containing a dot (such as `.txt`) matches no name |
| `ExtFilter.DottedNameFilters` | index.ts:56-61 | `base.e` in any directory is kept by the allowed list `[e]` and dropped by the disallowed list `[e]` |
| `DirWalk.HiddenName` | index.ts:36 | for a name without `/`, the regular expression matches exactly when the name is `.` followed by a character other than `.` |
| `DirWalk.HiddenAt` | index.ts:36 | no contract of its own; the hidden-name regular expression matching at one index: a `.` at the start or after a `/`, then a character other than `/` and `.`; `DirWalk.HiddenName` states what it means for entry names |
| `DirWalk.IsHidden` | index.ts:36 | no contract of its own; `.test(item)` as a match at some index; `DirWalk.HiddenName` states it for entry names |
| `DirWalk.Shown` | index.ts:36 | no contract of its own; the callback `!test(item)` passed to `filter`; `DirWalk.VisibleMembers` states what it keeps |
| `DirWalk.Visible` | index.ts:34-37 | without `showHidden` the entry list is unchanged; with it the list does not grow |
| `DirWalk.VisibleMembers` | index.ts:34-37 | an entry survives exactly when `showHidden` is off or its name does not match the regular expression |
| `DirWalk.VisibleByName` | index.ts:34-37 | with `showHidden` set, exactly the names made of a `.` and then a character other than `.` are removed |
| `DirWalk.VisibleAppend` | index.ts:36 | removing hidden entries keeps the remaining ones in their relative order |
| `DirWalk.Walk` | index.ts:26-65 | the loop returns `Listing`, the in-order concatenation of each visible entry's contribution: a subdirectory's whole result, or a file's path when both extension checks pass |
| `DirWalk.Filters` | index.ts:56-59 | no contract of its own; the test a file's path must pass, as a function value; `DirWalk.NoListsKeepAll` and `DirWalk.ListingExcludesBothLists` state it |
| `DirWalk.Listing` | index.ts:26-65 | no contract of its own; the result of `walk` as a function, which `DirWalk.Walk` is proved to return; `DirWalk.ListingMembers`, `DirWalk.ListingSplice` and `DirWalk.ListingNoDup` state what it holds |
| `DirWalk.Collect` | index.ts:42-63 | no contract of its own; `ret` after the loop has seen a prefix of the visible entries; `DirWalk.CollectStep` and `DirWalk.CollectAppend` state it |
| `DirWalk.Contribution` | index.ts:43-61 | no contract of its own; what one entry adds to `ret`; `DirWalk.ContributionNoDup` and `DirWalk.ListingSplice` state it |
| `DirWalk.CollectStep` | index.ts:42-63 | one loop turn appends the contribution of the current entry to `ret` |
| `DirWalk.ListingMembers` | index.ts:42-64 | a path is returned exactly when it is the path of a file (never a directory) reached through non-removed entries and it passes the test |
| `DirWalk.ListingExcludesBothLists` | index.ts:56-61 | no returned path has an extension on both lists |
| `DirWalk.ListingIsKeptWalk` | index.ts:45-62 | walking with a test is walking with any weaker test and then filtering the paths by the test, in order |
| `DirWalk.NoListsKeepAll` | index.ts:57-58 | with both lists empty, every file passes |
| `DirWalk.CollectAppend` | index.ts:42-63 | results follow entry order: the result for two runs of entries is their two results in turn |
| `DirWalk.ListingSplice` | index.ts:45-55 | a subdirectory's whole result sits at that entry's position, between the results of the entries before and after it |
| `DirWalk.ListingNoDup` | index.ts:42-64 | in a tree whose names are non-empty, free of `/` and distinct within each directory, at every level, no path is returned twice |
| `DirWalk.CollectNoDup` | index.ts:42-63 | for well-named entries, the loop's accumulated result never holds a path twice: the paths added for an entry are new |
| `DirWalk.ContributionNoDup` | index.ts:43-61 | for a well-named entry, what it adds to the result holds no path twice |
| `DirWalk.EntryFilesUnder` | index.ts:43-55 | every file path reached through an entry is that entry's resolved path or lies below it |
| `DirWalk.VisibleWellNamed` | index.ts:34-37 | removing hidden entries keeps a listing's names distinct and well formed |
| `DirWalk.SizeOfElement` | index.ts:49 | an entry is no larger than the listing it is in, so the recursion terminates |
| `KeyEscape.ReplaceAll` | index.ts:194 | `replaceAll` leaves a string without the searched character unchanged |
| `KeyEscape.ReplaceAllAppend` | index.ts:194 | `replaceAll` of a one-character search distributes over concatenation |
| `KeyEscape.EscapeKey` | index.ts:194-197 | no contract of its own; the four `replaceAll` calls in order; `KeyEscape.EscapeKeyIsEscapeEach` and `KeyEscape.EscapeKeyRoundTrip` state it |
| `KeyEscape.EscapeKeyAppend` | index.ts:194-197 | the four-call chain distributes over concatenation |
| `KeyEscape.EscapeKeyChar` | index.ts:194-197 | on one character, the chain puts a backslash before `(`, `)`, `[` and `]` and copies everything else; no later call touches an earlier backslash |
| `KeyEscape.EscapeKeyIsEscapeEach` | index.ts:194-197 | the chain equals a one-pass, character-by-character escape |
| `KeyEscape.EscapeKeyLength` | index.ts:194-197 | the escaped key is longer by the number of special characters |
| `KeyEscape.EscapeKeyGuardsSpecials` | index.ts:194-197 | every special character of an escaped key has a backslash right before it |
| `KeyEscape.PlainKeyUnchanged` | index.ts:194-197 | a key without special characters is left as it is |
| `KeyEscape.EscapeKeyRoundTrip` | index.ts:194-197 | unescaping from left to right gives back the original key |
| `KeyEscape.EscapeKeyInjective` | index.ts:194-197 | distinct keys give distinct patterns |
| `KeyEscape.Patterns` | index.ts:193-199 | the pattern list has one escaped key per mapping entry, in order |
| `KeyEscape.Replacements` | index.ts:200 | the replacement list has one value per mapping entry, in order |
| `KeyEscape.ListsRecoverMapping` | index.ts:193-200 | both lists have the mapping's length; position `i` gives back the `i`-th key/value pair |
| `KeyEscape.DistinctKeysDistinctPatterns` | index.ts:193-199 | the keys of a JSON object, being distinct, give pairwise distinct patterns |
| `Report.DigitChar` | index.ts:118 | a digit below ten becomes its decimal character |
| `Report.DecimalString` | index.ts:118 | `${n}` is a non-empty digit string, and the only such string starting with `0` is `"0"`, the rendering of 0 (no leading zero) |
| `Report.DecimalRoundTrip` | index.ts:118 | reading the digits back gives the number |
| `Report.Changed` | index.ts:117-120 | the changed records are no more than the records |
| `Report.ChangedMembers` | index.ts:117-120 | a record is counted exactly when it changed |
| `Report.Line` | index.ts:118 | no contract of its own; the template literal for one changed record; `Report.LineOfResolvedPath` and `Report.ReportStep` state it |
| `Report.Lines` | index.ts:115-124 | no contract of its own; the joined lines of the changed records; `Report.LinesOfChanged` and `Report.LinesAppend` state it |
| `Report.Tally` | index.ts:112-120 | no contract of its own; `count` after the loop has seen a prefix of the records; `Report.TallyIsCount` states it |
| `Report.Output` | index.ts:115-124 | no contract of its own; the joined text after the loop has seen a prefix of the records; `Report.OutputIsLines` states it |
| `Report.ReportResults` | index.ts:112-131 | the count is the number of changed records; the output is their lines in input order followed by the summary for the mode |
| `Report.ReportStep` | index.ts:116-122 | one turn of the loop adds one to `count` and the record's line to the output exactly when it changed, and that line is truthy |
| `Report.TallyIsCount` | index.ts:112-120 | the loop's count is the number of changed records |
| `Report.OutputIsLines` | index.ts:115-124 | the loop's output is the lines of the changed records, in input order, joined |
| `Report.ReportSnoc` | index.ts:116-122 | one more record adds a line and one to the count when it changed, and nothing otherwise; a line is never empty, so it always counts |
| `Report.CountBounds` | index.ts:112-120 | the count is zero exactly when no record changed, and equals the number of records exactly when all changed |
| `Report.ReportAppend` | index.ts:115-124 | records contribute in input order: the report for two runs is the two reports in turn |
| `Report.LinesAppend` | index.ts:124 | the joined text for two runs of records is their two texts in turn |
| `Report.LinesOfChanged` | index.ts:115-124 | there is one line per changed record, in input order |
| `Report.LineOfResolvedPath` | index.ts:118 | a record for a path the walk produced is listed under its entry name |
| `Report.LeadingDigits` | index.ts:128-130 | the longest digit prefix is a prefix made of digits |
| `Report.LeadingDigitsOf` | index.ts:128-130 | digits followed by a non-digit have exactly those digits as their leading digits |
| `Report.Wording` | index.ts:127-131 | no contract of its own; the dry and non-dry wording after the count; `Report.SummaryRoundTrip` states it |
| `Report.Summary` | index.ts:127-131 | no contract of its own; the text written after the lines; `Report.SummaryRoundTrip` and `Report.SummaryInjective` state it |
| `Report.SummaryRoundTrip` | index.ts:127-131 | the summary gives back the count and the mode: "files to be changed" when dry, "files changed" otherwise |
| `Report.SummaryInjective` | index.ts:127-131 | two summaries are equal only for the same count and the same mode |
| `Replacer.RunReplacer` | index.ts:82-132 | the files handed to the library are the walk's result, with no file twice in a well-named tree; the count and output are the report over the records the library returns |
| `Replacer.RunMapping` | index.ts:193-220 | for a mapping that loads and whose patterns compile, the patterns are exactly the escaped keys and the replacements the values, in mapping order; the pattern and replacement lists recover the mapping pointwise, and the run reports over the walk of the tree |
| `Seqs.Filter` | index.ts:36 | `filter` never grows a sequence |
| `Seqs.FilterMembers` | index.ts:36 | `filter` keeps exactly the elements that pass |
| `Seqs.FilterEmpty` | index.ts:120 | nothing passes exactly when no element passes |
| `Seqs.FilterFull` | index.ts:120 | everything passes exactly when every element passes |
| `Seqs.FilterAppend` | index.ts:36 | `filter` keeps relative order: it distributes over concatenation |
| `Seqs.FilterFrom` | index.ts:36 | every element `filter` returns is an element of the input |
| `Seqs.FilterDistinct` | index.ts:36 | `filter` keeps pairwise distinct keys pairwise distinct |
| `Seqs.NoDupAppend` | index.ts:47-61 | concatenating two sequences without repeats and without common elements gives one without repeats |
| `Seqs.Map` | index.ts:116 | `map` keeps the length |
| `Seqs.MapAt` | index.ts:116 | position `i` of the result is `f` of position `i` |
| `Seqs.MapAppend` | index.ts:116 | `map` distributes over concatenation |
| `Seqs.JoinAppend` | index.ts:124 | `join("")` distributes over concatenation |
| `Seqs.SnocToAppend` | index.ts:47-61 | a sequence function that maps `[]` to `[]` and adds a fixed piece for each appended element distributes over concatenation |

## Left out

- `fs.readdir` and `fs.stat` are replaced by the in-memory tree. Listing
  order is whatever the tree holds. Symbolic links, cycles and I/O errors
  are not modelled.
- `path.resolve` is modelled for an absolute, normalised directory and an
  entry name from `readdir`: the two are joined with one `/`. Resolving
  against the working directory and normalising `.`, `..` and repeated slashes
  are not modelled.
- Node's `path` module is not part of this model. `Extname` follows Node's
  documented POSIX rule for `path.extname`:
  - trailing slashes are ignored;
  - the extension runs from the last `.` of the last segment;
  - it is empty when there is no dot, when the only dot leads the segment, or
    for `..`.
- `replace.sync` of `replace-in-file` is a function parameter. Its matching,
  substitution, file writes and the counts it returns are not modelled; only
  the records it returns are used.
- The escaped keys are passed on as strings. Building a `RegExp` from them
  (flag `g`), and what that expression then matches, are not modelled. The
  other regular-expression metacharacters that remain unescaped are not
  modelled either.
- `process.stdout.write` is not modelled: what `runReplacer` writes is
  returned as a string. The debug output and the help screen are left out.
- `minimist` argument parsing, the defaults for `--dir` and `--all`, the
  splitting of `--ext` and `--notext` on `,`, and loading the JSON with
  `require` are left out. The mapping arrives as a sequence of key/value
  pairs in enumeration order.
- The error messages of the top level, for a bad `--in` or an unreadable JSON
  file, are left out.
- `Replacer.RunMapping` covers only a mapping that loads and whose escaped keys
  all compile. When `require` throws, or `RegExp(w, "g")` throws on a key the
  four-character escape leaves invalid (such as `**`, `?` or a trailing `\`),
  the catch at index.ts:201-204 prints its message and control falls through
  to `runReplacer` with `from` and `to` undefined. The walk then still runs
  before the library fails. That path is not modelled.
- The `async`/`await` structure is modelled as sequential code.
- Numbers are unbounded naturals: JavaScript's conversion of very large or
  non-integer numbers to text is not modelled.
- The `g` flag on the hidden-name regular expression is not modelled. A new
  literal is built for every call, so `lastIndex` carries no state between
  tests.
