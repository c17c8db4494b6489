# A model of include-tidy

include-tidy reads a C or C++ source file and prints the `#include` directives that are missing and
those that are unnecessary. This project models, in Dafny, the parts of it that are most easily got
wrong, and proves what they are for:

- the chained hash set that the sets of include files, symbols and names are kept in, which grows by
  relinking the same entries (`HashTable.dfy`, `HashTableRuns.dfy`, `HashTableIterator.dfy`);
- the getopt state machine that permutes its arguments (`GetoptSpec.dfy` says where every argument
  belongs, without any state; `GetoptMeaning.dfy` says what every kind of option reports;
  `Getopt.dfy` is the code);
- the growing array with its single-pass merge in batches (`DynamicArray.dfy`), the symbols merged
  with it and listed in comments (`Symbols.dfy`, `SymbolsComment.dfy`, `Sums.dfy`);
- normalizing paths and making them relative to the `-I` directories (`Paths.dfy`, `PathLaws.dfy`,
  `IncludePaths.dfy`);
- moving include-tidy's own options out of the compiler's arguments (`TidyArgs.dfy`), what becomes of
  every kind of argument (`TidyArgsMeaning.dfy`), and the same against the documentation
  (`TidyArgsDocumentation.dfy`);
- include files: the records made of the directives (`IncludeRecord.dfy`, `IncludeVisitor.dfy`),
  proxies and the files configured for symbols (`ProxyGraphs.dfy`, `Proxies.dfy`,
  `SymbolIncludes.dfy`), the matrix of shortest include chains (`IncludeMatrix.dfy`), and what is
  printed against what is counted (`IncludePrinting.dfy`);
- the overflow and width macros of gnulib (`IntProps.dfy`, `IntBoundTightness.dfy`).

`Wrappers.dfy` and `Strings.dfy` hold what several of these share.

Code that changes things in place is modelled by classes, arrays and methods, each proved against a
function or a predicate on values; the properties are then proved of those, and so is what these
functions mean, without regard to how they compute it. The working directory, the
results of `realpath`, the `#include` directives, the comparison, hash and merge functions, the table
of options and the order that `qsort` leaves things in are parameters.

## Findings about the source

- `move_tidy_args` differs from its documentation (src/cli_options.c:763-819) in two ways. It takes
  every argument that begins with `--help`, `-h`, `--version` or `-v` (src/cli_options.c:938-949),
  where only these options are documented: `-verify`, for one, never reaches the compiler
  (`TidyArgsDocumentation.VerifyIsMistaken`). And of the include path options, it takes
  `-cxx-isystem` (src/cli_options.c:896) where `-cxx-system` is documented
  (`TidyArgsDocumentation.DocumentedIsLeft`, `TidyArgsDocumentation.UndocumentedIsMoved`).
  `TidyArgsDocumentation.InterpretedAsDocumentedIff` says exactly when arguments are taken as
  documented; `TidyArgsDocumentation.RemainsAsDocumentedIff` and
  `TidyArgsDocumentation.MovedAsDocumentedIff` say it of the two lists of arguments.
- The replacement of a proxy by a more directly included file is not checked for cycles and can make
  one (src/config_file.c:899-907, `ProxyGraphs.ReplacementCanCycle`).
  `ProxyGraphs.ParseKeepsAcyclicIff` says exactly when it does not, by a condition on the graph before
  the parse, and `ProxyGraphs.SearchesEndIff` when the parse comes to an end. Over a configuration,
  no cycle is ever made if no file is in two lines (`ProxyGraphs.DisjointLinesAreSafe`).
- The implicit proxies are not checked for cycles either (src/proxies.c:181-186). When the
  configuration makes a header the proxy of the header that includes it, the included header becomes
  its own proxy, and `include_get_proxy` (src/include.c:1191-1196) does not return
  (`ProxyGraphs.ImplicitCanCycle`). `ProxyGraphs.ImpliedAcyclicIff` says exactly when that happens
  over a whole run.
- `ipath_relativize` asserts that its result is relative (src/ipath.c:158), which fails exactly for a
  path below no registered directory other than the root, such as a header reached as `../inc/a.h`;
  the root directory only helps for itself (`IncludePaths.FailsIff`, `IncludePaths.OutsideFails`).
- `path_normalize` returns NULL, which its documentation does not mention, exactly for the relative
  paths other than `.` that lead back to the working directory without leaving it
  (src/path_util.c:233-244, `PathLaws.NormalizesToNothingIff`, `PathLaws.LeadsToNothing`).
- A file that the source includes only by the name of a link to it can have depth 0 and no line
  (src/include.c:636-662, `IncludeVisitors.DirectWithoutLine`); `IncludeVisitors.NoLineIff` says
  exactly when.
- When such a file is neither needed nor kept, the line to be deleted is read from an empty array
  (src/include.c:875); `IncludePrinting.ConsistentIff` says exactly when.
- The depth of a file is the length of a chain of includes, but not always of a shortest one, although
  proxies and the files of symbols are chosen by it (src/include.c:475, src/include.c:561,
  `IncludeVisitors.DepthIsNotShortest`); `IncludeVisitors.DepthsAreShortestIff` says exactly when all
  are.
- The comment with the most referenced symbol reads the first of no symbols (src/include.c:753) for a
  kept file or the associated header when nothing is used of it
  (`IncludePrinting.AssociatedWithoutSymbol`); `IncludePrinting.NoSymbolIff` says exactly when.
- Fewer lines to delete are printed than unnecessary includes are counted exactly when kept files have
  duplicate directives and not all includes are printed (src/include.c:834-835,
  `IncludePrinting.DeletesAreCountedIff`, `IncludePrinting.KeptDuplicate`).
- A growth per insertion keeps the load factor below its maximum exactly when the maximum is above
  1/23 (src/hash_table.c:234-237, `HashTables.OneGrowthSufficesIff`); every table of the program uses
  2.0.

## Model

| member | source | states |
|---|---|---|
| HashTables.HashTable.constructor | src/hash_table.c:181-203 | A new table is empty, and has the first number of buckets in the prime table that holds the estimated size within the load factor, or the last one |
| HashTables.InitialPrime | src/hash_table.c:189-193 | The prime index chosen is the first that is large enough; all before it are too small |
| HashTables.HashTable.Find | src/hash_table.c:163-179 | Finds an entry equal to the data, and returns null only if no entry of any bucket is equal to it |
| HashTables.HashTable.BucketDecides | src/hash_table.c:163-179 | If no entry of the bucket that the hash selects is equal to the data, none of the table is, because equal data hash alike |
| HashTables.HashTable.Insert | src/hash_table.c:205-240 | Reports an insertion exactly if no equal entry was there; then adds one new entry, and otherwise returns the equal entry and changes nothing; keeps `next`/`prev`, residues, size and distinctness |
| HashTables.HashTable.Grow | src/hash_table.c:72-99 | The same entry objects are in the table after growing, each in the chain of its new bucket with `next` and `prev` inverse to each other |
| HashTables.HashTable.Delete | src/hash_table.c:152-161 | Takes exactly the given entry out, in whatever bucket it is, and leaves every other |
| HashTables.Rehash | src/hash_table.c:80-95 | Relinking one old chain moves each of its entries, none lost and none twice, to the chain that its hash selects among the new buckets |
| HashTables.PlacedPlus | src/hash_table.c:229-232 | Linking a new entry to the front of its bucket keeps every entry in exactly one place of exactly the right chain |
| HashTables.PlacedMinus | src/hash_table.c:152-161 | Unlinking an entry keeps all others where they were, once each |
| HashTables.OneGrowthSuffices | src/hash_table.c:234-237 | With a maximum load factor above 1/23, one growth brings a table that was within its load factor back into it after an insertion, unless it has the most buckets |
| HashTables.OneGrowthSufficesIff | src/hash_table.c:59-63 | One growth suffices for every table exactly when the maximum load factor is above 1/23 |
| HashTables.GrowsIff | src/hash_table.c:234-237 | An insertion grows the table exactly if the number of entries reaches the maximum for its buckets and there is a larger prime, and by one step only |
| HashTableRuns.Execute | src/hash_table.c:152-240 | Over any sequence of insertions, searches and deletions, growing or not, the table answers as a plain set modulo the comparison does; its size is the cardinality, no two elements are equal, and the load factor is kept at every step; the number of buckets is the first, from the initial one on, that the most elements there ever were do not fill |
| HashTableRuns.ExecuteOne | src/hash_table.c:152-240 | One operation does to the elements what it does to a set, and reports the equal element that was there before |
| HashTableRuns.MembershipAfterAll | src/hash_table.c:152-240 | Whether an element equal to x is in the set after a run is decided by the last insertion or deletion of one in the run alone |
| HashTableRuns.DeleteAfterInsertions | src/hash_table.h:324-326 | An entry obtained before any number of insertions, which may grow the table many times, is still the one that is deleted after them |
| HashTableRuns.SizeIsCardinality | src/hash_table.c:234 | The size is the number of different elements |
| HashTableRuns.AsManyElements | src/hash_table.c:205-240 | Inequivalent entries are as many as their data, which are pairwise different under the comparison |
| HashTableIterators.TableIterator.constructor | src/hash_table.c:103-114 | The iterator starts before the first bucket, at the wrapped index -1, with every entry still to come |
| HashTableIterators.TableIterator.Next | src/hash_table.c:116-130 | Returns the first of the entries still to come, or null once none is left |
| HashTableIterators.EachOnce | src/hash_table.c:116-130 | The order of buckets and chains has each entry exactly once |
| HashTableIterators.Collect | src/hash_table.c:103-130 | Iterating over a table that is not modified returns every entry exactly once, then null |
| GetoptSpec.SelectionsArePermutation | lib/getopt.c:61-65 | The options and the non-options together are a permutation of the arguments |
| GetoptSpec.MaskMeaning | lib/getopt.c:494-609 | An argument among the non-options is one or comes after a `--`; a non-option among the options directly follows one of them, as its argument |
| GetoptSpec.EndOfOptions | lib/getopt.c:527-544 | After `--`, everything is a non-option and nothing more is reported |
| GetoptSpec.FindLongMeaning | lib/getopt.c:199-275 | The first option of that very name is found, or else the first that the name abbreviates if no two that it abbreviates conflict; it is ambiguous if two do and unknown if it abbreviates none |
| GetoptMeanings.NonOptionIff | lib/getopt.c:495 | The non-options are the arguments that do not begin with `-`, and `-` itself |
| GetoptMeanings.LongWithValue | lib/getopt.c:339-355 | `--name=v` reports the value of the option and v if the option takes an argument, and otherwise `?` with the option in `optopt` |
| GetoptMeanings.LongAlone | lib/getopt.c:356-380 | `--name` followed by x reports x and is done with both arguments if one is required, and reports no argument otherwise; a missing argument is `:` or `?` with the option in `optopt` |
| GetoptMeanings.LongNotFound | lib/getopt.c:278-334 | An ambiguous name, and an unknown one after two dashes, is `?` with 0 in `optopt` |
| GetoptMeanings.SpellingsReportTheSame | lib/getopt.c:339-359 | `--name=v` and `--name v` report the same if the argument is required, and so does all that follows |
| GetoptMeanings.UnknownLetter | lib/getopt.c:621-627 | A letter that is no option is `?` with the letter in `optopt`; the letters after it are next |
| GetoptMeanings.LetterAlone | lib/getopt.c:611-619 | A letter without a colon is reported without an argument; the letters after it are next |
| GetoptMeanings.LetterWithArgument | lib/getopt.c:657-701 | With a colon, the rest of the cluster is the argument; if there is no rest, it is the next argument, or missing, and with two colons there is none |
| GetoptMeanings.LongLetterAttached | lib/getopt.c:630-656 | `-Wtext` reports what `--text` reports |
| GetoptMeanings.LongLetterAlone | lib/getopt.c:635-656 | `-W text` reports what `--text` reports and is done with one argument more, which may be missing |
| GetoptMeanings.ArgumentsAreText | lib/getopt.c:474-702 | Every `optarg` of a run is the end of an argument among the options, or the argument directly after one |
| Getopts.Exchange | lib/getopt.c:130-182 | Swapping the shorter block again and again ends, with exactly the two blocks of arguments exchanged and the rest as it was |
| Getopts.LowerBlockPlaced | lib/getopt.c:144-160 | Exchanging what is left after the swap of a shorter lower block exchanges the whole |
| Getopts.UpperBlockPlaced | lib/getopt.c:161-176 | Exchanging what is left after the swap of a shorter upper block exchanges the whole |
| Getopts.LookUp | lib/getopt.c:204-275 | The loops over the long options find the exact match, or else the only meaning that an abbreviation has, and tell when it is ambiguous |
| Getopts.Getopt.Initialize | lib/getopt.c:384-416 | The scan starts at `optind`, or at 1, with no non-options skipped and the ordering that the option string and the environment ask for |
| Getopts.Getopt.OrderingIs | lib/getopt.c:399-412 | `-` and `+` at the beginning of the option string select the ordering and are no options; without them the environment decides |
| Getopts.Getopt.ProcessLongOption | lib/getopt.c:192-380 | Returns, and leaves in `optind`, `optarg`, `optopt` and `longind`, what the meaning of the long option demands |
| Getopts.Getopt.ProcessShortOption | lib/getopt.c:611-702 | The same for one letter of a cluster of short options, with `-W` and its argument |
| Getopts.Getopt.FindOption | lib/getopt.c:499-556 | Skips non-options, moving the options scanned before them, and stops at an option exactly if one is left to report; otherwise the arguments are in their final order |
| Getopts.Getopt.Continue | lib/getopt.c:474-702 | One call returns -1 exactly when nothing is left to report; until then the final options and non-options stay what they are, and `first_nonopt <= last_nonopt <= optind <= argc` holds |
| Getopts.Getopt.ContinueInOrder | lib/getopt.c:558-567 | With the `+` and `-` orderings, a call leaves the arguments where they are and returns a non-option, or stops at it |
| Getopts.Getopt.Run | lib/getopt.c:474-702 | A whole PERMUTE run to the first -1 is a stable partition: first the options, their arguments and `--`, then from `optind` on the non-options, both in their original order; every return value and `optarg` on the way is the specified one |
| Getopts.Getopt.RunInOrder | lib/getopt.c:474-702 | A whole run with `+` or `-` leaves the arguments where they are; every return value and `optarg`, and where `optind` ends, are the specified ones |
| GetoptSpec.InOrderReports | lib/getopt.c:558-567 | With `-`, the options are reported as when permuting; the non-options before a `--` are returned as code 1, in order, and those after it are left |
| GetoptSpec.StopsAtNonOption | lib/getopt.c:558-567 | With `+`, a run ends at the first non-option or after `--`; it passes options only, and reports the first of what permuting would report |
| DynamicArrays.GrowsByHalf | src/array.c:171-180 | Growing by half stops at less than 1.5 times the capacity needed, unless the largest capacity is near |
| DynamicArrays.CapAfterIs | src/array.c:159-181 | The capacity grows by half, from 4 if there was none, exactly as often as needed, and is just what is needed where half as much again would exceed the limit |
| DynamicArrays.CapFitsIff | src/array.c:143-184 | Whether the new capacity is allocatable: exactly when the old one was and, for a first allocation, the minimum capacity is |
| DynamicArrays.DynamicArray.Reserve | src/array.c:143-184 | Ends with room for the elements asked for, the contents as they were, no overflow of the capacity or of its size in bytes, and a reallocation only when needed |
| DynamicArrays.DynamicArray.PushBack | src/array.h:558-561 | Appends one element and keeps the others |
| DynamicArrays.DynamicArray.PopBack | src/array.h:543-545 | Takes off the last element, or nothing from an empty array |
| DynamicArrays.DynamicArray.PushArrayBack | src/array.c:125-141 | Appends all elements of another array in order, which is then empty |
| DynamicArrays.PushAll | src/array.h:553-561 | Pushing n elements copies, over all reallocations, at most 3 times the final capacity, which is linear in n |
| DynamicArrays.MergeInPlace | src/array.c:71-123 | The pass that moves batches down late leaves exactly the left fold of every run of duplicates into its first element, frees every other element once and in order, and touches nothing beyond |
| DynamicArrays.MergeKeeps | src/array.c:87-100 | Merging into an element that is still in a batch, not yet moved, is merging into the last one of the output |
| DynamicArrays.MergeDrops | src/array.c:101-114 | Once the batch before a duplicate is moved, the whole output so far is in place and nothing unread was overwritten |
| DynamicArrays.KeptOrDropped | src/array.c:71-123 | Elements kept and elements freed are as many as there were |
| DynamicArrays.MergesRuns | src/array.c:71-123 | The elements fall into runs, each up to the first element not equal to what those before it make; kept is one element for every run, made of all of it; dropped are all others, in order, and none that begins a run |
| DynamicArrays.DynamicArray.Merge | src/array.c:71-123 | The same for the array with its length |
| Symbols.MergeSorts | src/include.c:735-745 | After merging symbols sorted by name, the names are strictly increasing |
| Symbols.StrCmpIsSmaller | src/include.c:358 | A name comes before another exactly if it is a proper prefix of it or smaller where they first differ |
| Symbols.MergeKeepsTotals | src/include.c:1109-1115 | Merging keeps the total reference count of every name, as an `unsigned` |
| Symbols.TotalOfBoth | src/include.c:1109-1115 | A total adds up the references of each symbol of that name |
| Symbols.MergeKeepsFirst | src/array.c:71-123 | Every symbol kept is the first one of its run, but for its count |
| Symbols.MergeKeepsNames | src/include.c:1109-1115 | Merging neither loses nor invents a name |
| Symbols.MergedSymbols | src/include.c:730-745 | After sorting and merging, every name is there once, with the total count that it had in any order before the sort |
| Symbols.MergeSymbols | src/include.c:730-745 | The same for the array in place |
| SymbolsComment.FillComment | src/include.c:787-818 | Lists the longest beginning of the names that fits, with dots if more follow and there is room for the dots |
| SymbolsComment.ListedAreUnique | src/include.c:794-816 | How many names are listed is determined |
| SymbolsComment.CommentFits | src/include.c:801-810 | The comment fits on the line unless it is a single name |
| SymbolsComment.AllListedIff | src/include.c:801-810 | All names are listed exactly when they fit together, or there is one |
| SymbolsComment.ListedIff | src/include.c:794-816 | The names listed are as many of the first ones as fit on the line, and at least one |
| SymbolsComment.ListOfBoth | src/strbuf.c:158-168 | A list is its names in order, separated by a comma and a blank |
| SymbolsComment.DotsIff | src/include.c:801-810 | The comment ends with dots exactly if names are left out and there is room for the dots; before that it is the list |
| SymbolsComment.MostReferencedName | src/include.c:735-760 | In C++, the symbol chosen is the one whose overloads are referenced most altogether, the alphabetically first of several; there is none exactly if there are no symbols, when the source reads one anyway |
| Paths.ComponentsOfJoined | src/path_util.c:192-244 | Splitting what was joined gives back the components |
| Paths.PathNormalize | src/path_util.c:192-244 | The two loops return the normal form of the path |
| Paths.StackComponents | src/path_util.c:199-229 | The stack, anchored to the working directory only when `..` leads above where it started, is what the components lead to |
| Paths.AppendComponent | src/strbuf.c:77-103 | Appending a component to a rendered path renders it with one component more, with one `/` between |
| Paths.AppendPathIs | src/strbuf.c:77-103 | There is one `/` between what is there and the component, however many of the two have one |
| PathLaws.NormalForm | src/path_util.c:192-244 | The normal form has no empty, `.` or `..` component and no `/` at its end, but for `.`; it is absolute exactly when the path is, or escapes |
| PathLaws.MeaningOfStart | src/path_util.c:196-229 | A path starts from the root directory if it begins with `/`, and otherwise from the working directory |
| PathLaws.MeaningOfMore | src/path_util.c:205-228 | A name leads below, `.` stays, `..` leads to the parent, of the root to itself, and a further `/` does nothing |
| PathLaws.EscapesIff | src/path_util.c:206-221 | A path escapes exactly if it leads, on its way, above where it starts |
| PathLaws.NormalizingKeepsMeaning | src/path_util.c:192-244 | Seen from the working directory, the normal form leads where the path leads, be it absolute, relative or escaping |
| PathLaws.NormalizesToNothingIff | src/path_util.c:233-244 | When the result is NULL |
| PathLaws.LeadsToNothing | src/path_util.c:233-244 | It is NULL for `a/..` |
| PathLaws.NormalizingTwice | src/path_util.c:122-138 | Normalizing twice is `path_equal` to normalizing once |
| PathLaws.EqualIffSameMeaning | src/path_util.c:122-138 | Normalized paths are `path_equal` exactly when they lead to the same place and are both absolute or both relative |
| PathLaws.PathEqual | src/path_util.c:122-138 | Compares paths without the `/` at their ends, except that of the root |
| PathLaws.StrippedIs | src/path_util.c:122-138 | Nothing but `/` is stripped, all of it at the end, and never the first character |
| IncludePaths.IncludePathList.Add | src/ipath.c:83-104 | Adds a directory that is not there yet, and keeps the directories distinct |
| IncludePaths.IncludePathList.Relativize | src/ipath.c:132-160 | Strips the longest directory that matches, if one does, whatever the order |
| IncludePaths.LongestIsUnique | src/ipath.c:140-153 | No two directories are both the longest that match |
| IncludePaths.MatchesIff | src/ipath.c:144-148 | Comparing characters decides whether the components of the directory begin the path; the root directory only matches itself |
| IncludePaths.Relativized | src/ipath.c:149-159 | The directory, a `/` and the result give back the path, and the result is relative as asserted |
| IncludePaths.RelativeIsShortest | src/ipath.c:132-160 | The result is what comes after one of the directories, and nothing that comes after any of them is shorter |
| IncludePaths.NoDotSlashIs | src/path_util.c:157-162 | Nothing but every `./` at the beginning is removed |
| IncludePaths.FailsIff | src/ipath.c:158 | The assertion that the result is relative fails, for a real path, exactly if no registered directory matches it: none has components that begin the path's, the root directory only matching itself |
| IncludePaths.OutsideFails | src/ipath.c:158 | It fails for a header beside the only directory |
| IncludePaths.IncludePathList.OneEntry | src/ipath.c:94-98 | Because the directories are kept distinct, one entry of the list at most is the longest that matches |
| IncludePaths.LocalIff | src/path_util.c:148-155 | A path is local exactly when it lies below the working directory |
| TidyArgs.IsXtidyOpt | src/cli_options.c:691-710 | Recognizes `-Xtidy` followed by a short or long option, and exits for one followed by anything else |
| TidyArgs.CheckXtidyOpt | src/cli_options.c:838-876 | Which options after `-Xtidy` are valid, and whether their argument has to follow |
| TidyArgsMeaning.FindShortMeaning | src/cli_options.c:519-526 | A letter stands for the first option that has it |
| TidyArgsMeaning.FindLongMeaning | src/cli_options.c:497-508 | A long name stands for the first option that it abbreviates |
| TidyArgsMeaning.XtidyNeedMeaning | src/cli_options.c:842-876 | After `-Xtidy`, what follows one dash are letters and what follows two a long name, and both begin with a letter or a digit |
| TidyArgsMeaning.ShortNeedMeaning | src/cli_options.c:842-857 | Letters are said to be complete, refused or followed by an argument by the first that is not an option without a required one |
| TidyArgsMeaning.ShortNeedIff | src/cli_options.c:842-857 | The next argument is needed exactly if all letters but the last are options without a required argument and the last requires one; letters are refused exactly if the first that is none of the former is unknown |
| TidyArgsMeaning.LongNeedMeaning | src/cli_options.c:858-876 | The next argument is needed exactly if the option requires one and there is no `=`; an empty value of such an option and an unknown name are refused |
| TidyArgs.FirstGroupIff | src/cli_options.c:836-954 | The loop body takes exactly the one valid group that the arguments begin with |
| TidyArgs.SplitsIff | src/cli_options.c:820-961 | Arguments split into valid groups in at most one way; the source accepts them exactly if there is one, and joining the groups gives them back |
| TidyArgs.MovingAgain | src/cli_options.c:820-961 | What remains for the compiler holds no option of include-tidy: it is accepted again, and the same remains |
| TidyArgs.BeginsIff | src/cli_options.c:836-954 | The arguments at which a beginning that splits ends are those that the groups begin with |
| TidyArgsDocumentation.InterpretedAsDocumentedIff | src/cli_options.c:763-819 | Unless both exit, the groups that the code takes are those of the documentation exactly if no argument at which a group begins merely begins with a help or version option, or is `-cxx-isystem` or `-cxx-system` |
| TidyArgsDocumentation.RemainsAsDocumentedIff | src/cli_options.c:781 | What remains for the compiler is as documented exactly if no such argument merely begins with a help or version option |
| TidyArgsDocumentation.MovedAsDocumentedIff | src/cli_options.c:768-779 | What is moved to include-tidy is as documented exactly if no such argument is mistaken in any way, when not both of the two options are there |
| TidyArgsDocumentation.VerifyIsMistaken | src/cli_options.c:938-949 | `-verify` is taken from the compiler, and should remain |
| TidyArgsDocumentation.DocumentedIsLeft | src/cli_options.c:775 | `-cxx-system d` is documented, and `-Id` is not moved |
| TidyArgsDocumentation.UndocumentedIsMoved | src/cli_options.c:896 | `-cxx-isystem d` is not documented, and `-Id` is moved |
| TidyArgsDocumentation.MistakesMakeUp | src/cli_options.c:893-901 | With both, the same can be moved for different arguments |
| TidyArgs.MoveGroup | src/cli_options.c:836-954 | One pass of the loop appends to both argument lists what the group says; no argument that has not been read is overwritten, and no list overruns |
| TidyArgs.MoveTidyArgs | src/cli_options.c:820-961 | The remaining arguments are the original ones without the `-Xtidy` groups and the help and version options, in order; those for include-tidy are the options after `-Xtidy`, the include paths and the help and version options, in order; it exits exactly if the arguments are not valid groups |
| TidyArgsMeaning.XtidyTakes | src/cli_options.c:838-876 | `-Xtidy` is dropped and the option after it moved, with its argument if it needs one; it exits if that is missing or an option, or if the option is refused |
| TidyArgsMeaning.IncludeTakes | src/cli_options.c:879-891 | `-I` and its directory, together or apart, remain and are moved; without a directory it exits |
| TidyArgsMeaning.LongIncludeTakes | src/cli_options.c:893-936 | In all three spellings, a long include path option and its directory remain, and `-I` with the directory is moved |
| TidyArgsMeaning.LongIncludeRefused | src/cli_options.c:903-931 | It exits if the directory is missing or empty, or an option in its place |
| TidyArgsMeaning.OtherTakes | src/cli_options.c:938-949 | What begins with a help or version option is moved and does not remain |
| TidyArgsMeaning.ElseTakes | src/cli_options.c:951 | All else remains and is not moved |
| TidyArgsMeaning.ConfigMoves | src/cli_options.c:845-876 | `-Xtidy -c f`, `-Xtidy --config f` and `-Xtidy -cf` each move the option with its argument |
| IncludeVisitors.IncludeSet.Insert | src/include.c:421-481 | Adds a record for a file that is not there yet, one deeper than its includer |
| IncludeVisitors.IncludeSet.Visit | src/include.c:505-668 | One directive changes the record of the included file as specified, and no other record |
| IncludeVisitors.IncludeSet.VisitAll | src/include.c:1212-1215 | All directives of a translation unit |
| IncludeVisitors.RecordsAre | src/include.c:505-668 | After any directives, a file has depth 0, and no includer, exactly if it is included directly at least once, its base name is the one it was first included with, its includer is otherwise a file that includes it, and its lines are those of the direct includes under the name it was first included as, in order |
| IncludeVisitors.IncluderIs | src/include.c:564-593 | A file that is never included directly has the includer of its last include by a header with its base name, if there is one, and otherwise of its first include |
| IncludeVisitors.DepthIs | src/include.c:472-476 | Its depth is one more than that of the header which first included it, as it was then |
| IncludeVisitors.LinesInOrder | src/include.c:628-664 | The lines are, in order, those of all direct includes as the file it was first included as |
| IncludeVisitors.DepthIsChain | src/include.c:472-476 | A depth is the length of some chain of includes from a file that is included directly |
| IncludeVisitors.DepthsAreShortestIff | src/include.c:547-561 | All depths are the lengths of shortest chains exactly if no file is more than one deeper than a header that includes it |
| IncludeVisitors.DepthIsNotShortest | src/include.c:547-561 | A header included first by another and then directly leaves what it includes too deep |
| IncludeVisitors.LinesMeanDirect | src/include.c:628-664 | A file that has lines has depth 0 |
| IncludeVisitors.NoLineIff | src/include.c:636-662 | When a file of depth 0 has no lines |
| IncludeVisitors.OneFileEach | src/include.c:636-662 | If no file is included under two names, depth 0 and having lines are the same |
| IncludeVisitors.DirectWithoutLine | src/include.c:636-662 | A file can have depth 0 and no lines |
| ProxyGraphs.OneRoot | src/include.c:1191-1196 | A file has one root |
| ProxyGraphs.RedirectKeepsAcyclicIff | src/proxies.c:257-269 | Setting a proxy keeps the graph acyclic exactly when the new proxy does not lead back |
| ProxyGraphs.AssignKeepsAcyclicIff | src/config_file.c:899-918 | One pass of the loop keeps the graph acyclic exactly when it does not replace the proxy of a file that the new one leads to |
| ProxyGraphs.ParseKeepsAcyclicIff | src/config_file.c:880-922 | The whole parse keeps the graph acyclic exactly when no file was unsafe before it, whatever the order of the table |
| ProxyGraphs.ReplacementCanCycle | src/config_file.c:899-907 | The unchecked replacement can make a cycle |
| ProxyGraphs.SearchesEndIff | src/config_file.c:908-914 | All searches for a cycle end exactly if, in the graph before the parse, no unsafe file comes before a file without a proxy |
| ProxyGraphs.TreatedAsBefore | src/config_file.c:893-920 | As long as no file was unsafe, the graph before the parse tells how each file is treated |
| ProxyGraphs.ProxyAfterLine | src/config_file.c:893-920 | After a line without unsafe files, the proxy of a file of the line is the new one exactly if it had none and the new one does not lead to it, or had a deeper one; every other proxy is as before |
| ProxyGraphs.ProxyAfterLines | src/config_file.c:871-922 | After such lines, a file without a proxy before has the first least deep of those it could get when their turn came |
| ProxyGraphs.LinesKeepAcyclicIff | src/config_file.c:871-922 | Over all lines of a configuration, no line makes a cycle exactly if none has an unsafe file when its turn comes |
| ProxyGraphs.DisjointLinesAreSafe | src/config_file.c:871-922 | From no proxies, no line makes a cycle if no file is in two lines |
| ProxyGraphs.LaterLineCanBreak | src/config_file.c:899-907 | A cycle made by one line can be broken by a later one |
| ProxyGraphs.LinkKeepsAcyclicIff | src/proxies.c:181-186 | A proxy for a file without one makes a cycle exactly if the file is that proxy's root |
| ProxyGraphs.ImpliedAt | src/proxies.c:181-186 | A file that gets an implicit proxy gets the root that its candidate has in its turn, and keeps it |
| ProxyGraphs.ImpliedAcyclicIff | src/proxies.c:94-190 | Over all directives, in any order, the graph stays acyclic exactly if the proxies there were and the bare candidates make no cycle |
| ProxyGraphs.AcyclicWaysEnd | src/proxies.c:183-184 | Then every way to a root that the visitor follows ends |
| ProxyGraphs.FollowingEndsIff | src/include.c:1191-1196 | After the lines of a configuration and the implicit proxies, following proxies ends from every file exactly if the configured proxies and the bare candidates make no cycle |
| ProxyGraphs.ImplicitCanCycle | src/proxies.c:181-186 | An implicit proxy can be the file itself |
| Proxies.GetProxy | src/include.c:1191-1196 | Following proxies ends at the root |
| Proxies.ProxyWouldCycle | src/proxies.c:257-269 | True exactly if the new proxy leads to the file, whenever the search ends |
| Proxies.ProxyParseOne | src/config_file.c:893-920 | Sets, replaces or refuses the proxy of one file, and warns exactly if a new one would make a cycle |
| Proxies.ProxyParseString | src/config_file.c:880-922 | Whenever the parse ends, the graph is that of all assignments in turn, and acyclic exactly if no file was unsafe; the warnings are as many as the files that would have got a proxy leading back to them, and the other files without one get it explicitly |
| Proxies.SetImplicitProxy | src/proxies.c:181-186 | The implicit proxy is the root of the one found; the graph stays acyclic exactly when that one does not lead to the file |
| Proxies.ImplicitProxies | src/proxies.c:240-255 | Whenever the pass ends, the graph is that of all implicit proxies in turn, and acyclic exactly if the bare candidates make no cycle with the proxies there were |
| Proxies.SymbolGetInclude | src/config_file.c:1656-1681 | The root chosen is the least deep of all, and the first such, although the loop stops at depth 0 |
| SymbolIncludes.SymbolIncludesMap.Add | src/config_file.c:1520-1543 | Every symbol has the include files configured for it, each once and in the order in which they were first configured |
| SymbolIncludes.ConfiguredInOrder | src/config_file.c:1520-1543 | The files configured for a symbol are all those configured with it, in the order of the configuration |
| SymbolIncludes.SymbolIncludesMap.GetInclude | src/config_file.c:1656-1681 | NULL exactly if nothing was configured for the symbol, and otherwise the first least deep root of everything that was |
| SymbolIncludes.DuplicatesDoNotMatter | src/config_file.c:1538-1542 | The best of the files without duplicates is the first best of all |
| IncludeMatrices.ChainSplits | src/include.c:243-256 | A chain by way of file k has a part to k and one from k that pass only lower files, together no longer |
| IncludeMatrices.RelaxingIsRight | src/include.c:248-254 | The updated entry is the shortest length by way of the files up to k |
| IncludeMatrices.DistanceIsShort | src/include.c:250-252 | A shortest chain passes no file twice, so lengths stay below the number of files and their sums do not wrap around |
| IncludeMatrices.Relax | src/include.c:243-256 | One pass of the outer loop, in place, is right although it reads entries of the pass itself; with too many files, it still sets entries only where there is a chain |
| IncludeMatrices.InitMatrix | src/include.c:233-257 | Below 32768 files, entry (i, j) is 0 exactly if no chain of includes leads from i to j, and otherwise the length of a shortest one, cycles included; for any number, an entry other than 0 means that there is a chain, whatever wraps around |
| IncludePrinting.IncludesPrint | src/include.c:1221-1283 | The counters grow by the sums over all files; what is printed is the selected files' lines, sorted, in three groups with blank lines between those that print anything, exactly if no file lacks the line that is to be deleted; that is a complete printout in order |
| IncludePrinting.OutputIsPrintout | src/include.c:1254-1281 | Every line has its origin in one include of one file; all that is to be printed is there once; local files come before those of third parties and these before standard ones, files of a group in printing order, the lines of a file together and in order; and if all includes are printed, one blank line stands between two lines exactly if their groups differ |
| IncludePrinting.CmpForPrintIs | src/include.c:345-359 | In printing order, the lower rank is first, and of the same rank the smaller path |
| IncludePrinting.Printer.MaybePrint | src/include.c:827-918 | Prints the lines of a file in the pass of its group and nothing in the others, and tells exactly when it reads a line that is not there |
| IncludePrinting.InOneGroup | src/include.c:837-846 | Every selected file is in exactly one of the three passes |
| IncludePrinting.LinesAreCounted | src/include.c:1237-1249 | For one selected file, the lines printed for adding and deleting are as many as counted, but for duplicates of a kept file |
| IncludePrinting.PrintedAndCounted | src/include.c:1221-1283 | Over all files and passes, lines for adding are as many as missing includes; lines for deleting, with the hidden duplicates of kept files, as many as unnecessary ones |
| IncludePrinting.DeletesAreCountedIff | src/include.c:834-835 | Lines for deleting are as many as unnecessary includes exactly if all includes are printed or no kept file has duplicates |
| IncludePrinting.KeptDuplicate | src/include.c:834-835 | A kept file included twice is counted as unnecessary and not printed |
| IncludePrinting.NoSymbolIff | src/include.c:859-869 | Exactly which files without symbols a comment is made for |
| IncludePrinting.AssociatedWithoutSymbol | src/include.c:1227-1231 | One of them is an associated header that is not included directly and that nothing is used of |
| IncludePrinting.AddedIff | src/include.c:1004-1023 | A line for adding is printed exactly for the files that are needed, not included directly, and neither elided nor kept |
| IncludePrinting.UnmarkedIff | src/include.c:859-867 | A directive is printed unchanged exactly, when all includes are printed, for the kept files and the needed ones included directly, the elided ones of these only if they are included more than once |
| IncludePrinting.DeletionsIff | src/include.c:870-911 | A line to be deleted names the first line of the file exactly if the file is needed, and then it is not the first itself |
| IncludePrinting.DeletedIff | src/include.c:870-911 | A line is printed for deleting exactly if it is any line of a file that is neither needed nor kept, or not the first line of one that is, unless it is kept and not all includes are printed |
| IncludePrinting.ConsistentIff | src/include.c:636-662 | What printing assumes of depths and lines holds after the visitor exactly unless a file that is neither needed nor kept is included directly only by the names of links to it |
| IncludePrinting.ConsistentAfterVisit | src/include.c:505-668 | It holds for every file if no file is included under two names |
| Sums.SumOfPermutation | src/include.c:1252 | Sorting does not change a sum |
| IntProps.AddOverflowsIff | lib/intprops.h:154-159 | True exactly if the sum is out of range; nothing that the macro computes is |
| IntProps.SubtractOverflowsIff | lib/intprops.h:161-166 | True exactly if the difference is out of range; nothing that the macro computes is |
| IntProps.MultiplyOverflowsIff | lib/intprops.h:173-188 | True exactly if the product is out of range; no quotient that the macro computes is |
| IntProps.DigitsIff | lib/intprops.h:94-97 | A number has at most d digits exactly if it is below the dth power of ten |
| IntProps.BoundSuffices | lib/intprops.h:94-97 | For every width, the bound is enough digits for every number of that width |
| IntBoundTightness.TightBelow2621 | lib/intprops.h:94-97 | For every width below 2621, the greatest number of that width has exactly as many digits as the bound says |
| IntBoundTightness.NotTightAt2621 | lib/intprops.h:94-97 | At 2621, every number has fewer |

## Left out

- HashTables.HashTable.Insert: load factors are `real`, so the rounding of `double` is not modelled; the program's 2.0 is exact.
- HashTables.HashTable.Delete: freeing is not modelled; the data and the hash of an entry never change after it is made, and where the data is stored does not matter.
- HashTableIterators.TableIterator.Next: not called again after it returned null, when the source would read past the last bucket.
- HashTableRuns.Execute: the size is unbounded where the source has an `unsigned`.
- Getopts.Getopt.Run: the caller changes nothing between calls; the error messages, the process-global wrapper and the stores through `flag` pointers are not modelled, and no long option stands for -1.
- DynamicArrays.DynamicArray.Reserve: allocation does not fail, and sizes that the source asserts against are required not to occur; elements are typed, not bytes.
- DynamicArrays.PushAll: the bound is for arrays that stay below the largest capacity, where growth is not by half.
- Symbols.MergeSymbols: `qsort` is taken to leave a permutation sorted by name.
- SymbolsComment.FillComment: the sort by length or by reference count before it is not modelled.
- Paths.PathNormalize: the working directory is what `getcwd` returns, an absolute path without `.`, `..` or an unneeded `/`.
- IncludePaths.IncludePathList.Relativize: directories and paths are what `realpath` returns.
- TidyArgs.MoveTidyArgs: the NULL after the last argument of both arrays and the texts of the error messages are not modelled; the table of options is a parameter.
- TidyArgsDocumentation.InterpretedAsDocumentedIff: the documentation says nothing of missing arguments, of directories that begin with `-` and of arguments of the options after `-Xtidy`; there it is read as the code does.
- IncludeVisitors.IncludeSet.Visit: directives come as a sequence in which an including file was included before, as the source asserts; a directive whose file does not exist makes the source exit.
- Proxies.ProxyParseString: required only to end, since the source's own search for a cycle may not after one is made; which files the configured path fits is a parameter.
- Proxies.ImplicitProxies: which file is the candidate of each is a parameter, and it is required only to end.
- SymbolIncludes.SymbolIncludesMap.Add: the red-black tree and the set beside the array are a map and a membership test.
- IncludeMatrices.InitMatrix: from 32768 files on, where sums of `unsigned short` can wrap around, it is not stated that entries are shortest lengths.
- IncludePrinting.IncludesPrint: colours, the texts of comments and verbose output are not modelled, nor is the choice of the associated header, which is marked needed and sorted first before; the counters do not wrap around. Of a run that reads a line that is not there, only the counters are stated.
- `path_dirname`, `path_ext`, `path_no_ext`, `path_basename`, `ipath_find` and `array_unique`: short, and nothing that is proved here rests on them.
- `insert_argv` and `argv_add_include_paths`: the second reads the output of a compiler.
- Everything that asks libclang, the TOML reader and the handlers of the other configuration keys.
