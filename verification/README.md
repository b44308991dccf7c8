# ABCU course planner core, modelled in Dafny

This project models the core of the ABCU Advising Assistance Program, which is a single C++
file (`CS300/CS300/ProjectTwo.cpp`). The program reads a CSV file of courses. Each line holds
a course number, a title and the prerequisites. It stores the courses in an unbalanced binary
search tree keyed by course number, lists them in alphanumeric order, and looks up one course
by number.

The project has three modules:

- `text.dfy`, module `TextUtil`, holds the string helpers.
  - `Trim` mirrors the two index loops of `trim` and is proved equal to the specification `Trimmed`.
  - `ToUpper` overwrites characters one by one and is proved equal to `Upper`.
  - `SplitCSV` mirrors `splitCSV`. It is proved equal to `SplitFields`, which trims every piece of `Fields`.
    - `Fields` models how `std::getline(…, ',')` cuts a line: into the comma-separated pieces, dropping an empty final piece.
- `store.dfy`, module `CourseStore`, holds the data model and the tree.
  - `Course` is the record.
  - `Tree` is the node structure, and `Less` is the lexicographic `std::string` order.
  - `Keys`, `Contents`, `Ordered`, `InsertRec`, `Lookup`, `InOrder` and `CountNodes` specify the tree.
  - `CourseBST` is a class whose `root` field its methods update:
    - `Insert` (an upsert);
    - `Find` (an iterative walk);
    - `ToVector`/`ToVectorRec` (in-order collection);
    - `Empty`.
- `loader.dfy`, module `CourseLoader`, holds the loader and the lookup.
  - `LoadLines` is the body of the loading loop of `loadCoursesFromCSV`, taken over a sequence of lines. It does:
    - strip one trailing `'\r'`;
    - skip blank lines;
    - split the line, and record a format error when there are fewer than two fields;
    - otherwise build the course and upsert it.
  - `LoadLine` is one pass of the loop body and is proved to have the effect `StepLine` gives for that line.
  - The method is proved equal to `Ingest`, which replays each line's `LineOutcome` over the counters and the tree. The lemmas about `Replay` give the counter and catalog facts.
  - `QueryCourse` is the lookup of the "print course" option: `toUpper(trim(input))`, then `find`.

Whitespace is ASCII: space, `'\t'`, `'\n'`, `'\v'`, `'\f'` and `'\r'`. Upper-casing maps
`'a'..'z'` to `'A'..'Z'`. Strings compare lexicographically by character code.

The code's splitting behaviour is what the model follows. Because `getline` drops an empty
final piece, a line such as `CSCI100,` yields one field. It is therefore a format error,
although it holds a comma. `MalformedIffFewCommas` states this exactly.

## Model

| member | source | states |
|---|---|---|
| TextUtil.Trim | CS300/CS300/ProjectTwo.cpp:27-33 | the two index loops return exactly `Trimmed(s)`, the input without its leading and trailing whitespace |
| TextUtil.LeadEnd | CS300/CS300/ProjectTwo.cpp:29 | the first loop stops at the first non-whitespace character at or after `i`, or at the end |
| TextUtil.TrailEnd | CS300/CS300/ProjectTwo.cpp:31 | the second loop stops just after the last non-whitespace character below `j`, never going below `start` |
| TextUtil.TrimmedIsInfix | CS300/CS300/ProjectTwo.cpp:27-33 | the trimmed string is a contiguous slice `s[i..j]` with only whitespace before `i` and after `j` |
| TextUtil.TrimmedIsTrimmed | CS300/CS300/ProjectTwo.cpp:27-33 | the result neither starts nor ends with whitespace |
| TextUtil.TrimmedFixesTrimmed | CS300/CS300/ProjectTwo.cpp:27-33 | a string with no leading or trailing whitespace is returned unchanged |
| TextUtil.TrimmedIdempotent | CS300/CS300/ProjectTwo.cpp:27-33 | trimming twice is the same as trimming once |
| TextUtil.TrimmedEmptyIff | CS300/CS300/ProjectTwo.cpp:27-33 | the result is empty exactly when every character of the input is whitespace |
| TextUtil.TrimmedUnique | CS300/CS300/ProjectTwo.cpp:27-33 | whenever a string is whitespace, then a part with no whitespace at either end, then whitespace, trimming returns exactly that middle part |
| TextUtil.TrimmedParts | CS300/CS300/ProjectTwo.cpp:27-33 | proof step of `TrimmedIgnoresPadding`: every input is its trimmed form with whitespace before and after |
| TextUtil.TrimmedIgnoresPadding | CS300/CS300/ProjectTwo.cpp:27-33 | adding whitespace on either side of a string does not change what trimming returns |
| TextUtil.UpperChar | CS300/CS300/ProjectTwo.cpp:36 | a lower-case letter maps to the matching capital; every other character is unchanged |
| TextUtil.ToUpper | CS300/CS300/ProjectTwo.cpp:35-38 | the in-place loop over the characters yields `Upper(s)` |
| TextUtil.UpperAt | CS300/CS300/ProjectTwo.cpp:35-38 | upper-casing keeps the length and maps each position `i` to `UpperChar(s[i])` |
| TextUtil.UpperIdempotent | CS300/CS300/ProjectTwo.cpp:35-38 | upper-casing twice equals upper-casing once |
| TextUtil.LeadEndUpper | CS300/CS300/ProjectTwo.cpp:29 | upper-casing moves no leading-whitespace boundary |
| TextUtil.TrailEndUpper | CS300/CS300/ProjectTwo.cpp:31 | upper-casing moves no trailing-whitespace boundary |
| TextUtil.UpperTrimmedCommute | CS300/CS300/ProjectTwo.cpp:35-38 | trimming and upper-casing commute, so the order used for lookups does not matter |
| TextUtil.NextComma | CS300/CS300/ProjectTwo.cpp:45 | the end of the current piece is the first ',' at or after `from`, or the end of the line |
| TextUtil.PiecesFrom | CS300/CS300/ProjectTwo.cpp:45 | cutting at commas always yields at least one piece |
| TextUtil.Fields | CS300/CS300/ProjectTwo.cpp:45 | the `getline` loop yields no field at all exactly when the line is empty |
| TextUtil.SplitCSV | CS300/CS300/ProjectTwo.cpp:41-49 | the getline loop returns exactly the trimmed `getline` pieces `SplitFields(line)` |
| TextUtil.JoinPieces | CS300/CS300/ProjectTwo.cpp:41-49 | joining the untrimmed pieces with ',' gives back the line |
| TextUtil.PiecesCommaFree | CS300/CS300/ProjectTwo.cpp:41-49 | no piece contains a ',' |
| TextUtil.PiecesCount | CS300/CS300/ProjectTwo.cpp:41-49 | a line with k commas is cut into k + 1 pieces |
| TextUtil.LastPieceEmpty | CS300/CS300/ProjectTwo.cpp:45 | the last piece is empty exactly when the line is empty or ends with ',' |
| TextUtil.FieldsOfLine | CS300/CS300/ProjectTwo.cpp:41-49 | the fields are the pieces minus an empty last one, so k commas give k fields when the line is empty or ends with ',' and k + 1 otherwise |
| TextUtil.SplitFieldsClean | CS300/CS300/ProjectTwo.cpp:41-49 | every returned field is trimmed and holds no ',' |
| TextUtil.TrimmedKeepsChars | CS300/CS300/ProjectTwo.cpp:46 | proof step of `SplitFieldsClean`: trimming introduces no character that was not in the piece |
| TextUtil.TrimAllAppend | CS300/CS300/ProjectTwo.cpp:46 | proof step of `SplitCSV`: pushing a trimmed piece extends the list of trimmed pieces by that piece |
| TextUtil.PiecesStep | CS300/CS300/ProjectTwo.cpp:45-47 | one call of `getline` consumes the next piece and the comma after it, dropping an empty final piece |
| CourseStore.Less | CS300/CS300/ProjectTwo.cpp:80 | the `std::string` order on course numbers: a proper prefix comes before the longer string |
| CourseStore.LessIrreflexive | CS300/CS300/ProjectTwo.cpp:80 | no course number is `<` itself |
| CourseStore.LessTrichotomy | CS300/CS300/ProjectTwo.cpp:106-110 | two numbers are equal, or exactly one is `<` the other |
| CourseStore.LessTransitive | CS300/CS300/ProjectTwo.cpp:110 | `<` on course numbers is transitive |
| CourseStore.CountNodes | CS300/CS300/ProjectTwo.cpp:132-135 | `countNodes` is zero exactly for the empty tree |
| CourseStore.InsertRec | CS300/CS300/ProjectTwo.cpp:104-116 | `insertRec` never returns an empty tree, and adds at most one node |
| CourseStore.Lookup | CS300/CS300/ProjectTwo.cpp:76-84 | a record the walk returns carries the number looked for, and that number is a key of the tree |
| CourseStore.InOrder | CS300/CS300/ProjectTwo.cpp:125-135 | the in-order sequence `toVectorRec` collects has `countNodes` entries |
| CourseStore.ContentsKeys | CS300/CS300/ProjectTwo.cpp:59-64 | the catalog of a tree has exactly its node keys, and each record sits under its own number |
| CourseStore.SideOfKey | CS300/CS300/ProjectTwo.cpp:80-81 | in an ordered tree a key below the root key is not on the right, and one above it is not on the left |
| CourseStore.InsertKeys | CS300/CS300/ProjectTwo.cpp:104-116 | after an insert the key set is the old key set plus `c.number` |
| CourseStore.InsertOrdered | CS300/CS300/ProjectTwo.cpp:104-116 | insert preserves the search-tree ordering (left keys `<` node key `<` right keys) |
| CourseStore.InsertContents | CS300/CS300/ProjectTwo.cpp:104-116 | the catalog after insert is the old one with `c.number` mapped to `c`; every other record is unchanged |
| CourseStore.UpdateAtNode | CS300/CS300/ProjectTwo.cpp:106-109 | proof step of `InsertContents`: overwriting the payload at the matching node is a catalog update of that key |
| CourseStore.UpdateInLeft | CS300/CS300/ProjectTwo.cpp:111 | proof step of `InsertContents`: an update inside the left subtree is a catalog update of that key |
| CourseStore.UpdateInRight | CS300/CS300/ProjectTwo.cpp:113 | proof step of `InsertContents`: an update inside the right subtree is a catalog update of that key |
| CourseStore.InsertExistingShape | CS300/CS300/ProjectTwo.cpp:106-109 | inserting an existing key changes neither the tree shape nor the node count |
| CourseStore.InsertNewCount | CS300/CS300/ProjectTwo.cpp:105 | inserting a new key adds exactly one node |
| CourseStore.LookupCorrect | CS300/CS300/ProjectTwo.cpp:76-84 | the walk in an ordered tree finds `k` exactly when `k` is a key, and then returns its record |
| CourseStore.InsertThenLookup | CS300/CS300/ProjectTwo.cpp:71-84 | after `insert(c)` a lookup of `c.number` gives `c`, and a lookup of any other key gives what it gave before |
| CourseStore.InOrderSound | CS300/CS300/ProjectTwo.cpp:125-130 | every record `toVectorRec` collects from an ordered tree is the stored record for its number |
| CourseStore.InOrderComplete | CS300/CS300/ProjectTwo.cpp:125-130 | every stored record is collected |
| CourseStore.InOrderMembers | CS300/CS300/ProjectTwo.cpp:125-130 | a course is in the in-order list exactly when it is the catalog's record for its number |
| CourseStore.InOrderAscending | CS300/CS300/ProjectTwo.cpp:125-130 | the in-order list of an ordered tree is strictly ascending by number |
| CourseStore.InOrderKeys | CS300/CS300/ProjectTwo.cpp:125-130 | every listed number is a key of the tree |
| CourseStore.CountDistinctKeys | CS300/CS300/ProjectTwo.cpp:132-135 | in an ordered tree the node count equals the number of distinct keys |
| CourseStore.CourseBST.constructor | CS300/CS300/ProjectTwo.cpp:102 | a new store is an empty, ordered tree with an empty catalog |
| CourseStore.CourseBST.Insert | CS300/CS300/ProjectTwo.cpp:71-73 | the upsert keeps the ordering, maps `c.number` to `c` in the catalog, and adds the key. An existing key keeps shape and count; a new key adds one node |
| CourseStore.CourseBST.Find | CS300/CS300/ProjectTwo.cpp:76-84 | gives no record exactly when the number is not in the catalog, and otherwise the catalog's record |
| CourseStore.CourseBST.ToVector | CS300/CS300/ProjectTwo.cpp:92-97 | the result lists every catalog record exactly once, in strictly ascending number order, with `countNodes(root)` entries |
| CourseStore.CourseBST.ToVectorRec | CS300/CS300/ProjectTwo.cpp:125-130 | appends the in-order list of the subtree to `out` |
| CourseStore.CourseBST.Empty | CS300/CS300/ProjectTwo.cpp:99 | true exactly when the tree has no nodes, that is, no keys |
| CourseLoader.StripCR | CS300/CS300/ProjectTwo.cpp:165 | one trailing '\r' is removed, and a line without one is unchanged |
| CourseLoader.Prereqs | CS300/CS300/ProjectTwo.cpp:180-183 | the prerequisite loop keeps at most one entry per field |
| CourseLoader.MakeCourse | CS300/CS300/ProjectTwo.cpp:175-183 | the course built from a line's fields has an upper-case number as long as the first field, at most one prerequisite per further field, and no empty prerequisite |
| CourseLoader.ParseLine | CS300/CS300/ProjectTwo.cpp:165-183 | a line that is not skipped as blank is not empty, and a line that becomes a course contains a ',' |
| CourseLoader.ParseAll | CS300/CS300/ProjectTwo.cpp:162-163 | there is one outcome per line read |
| CourseLoader.StepLine | CS300/CS300/ProjectTwo.cpp:166-186 | the tree changes only for a line that becomes a course, and the error count grows exactly as the skip count does |
| CourseLoader.Replay | CS300/CS300/ProjectTwo.cpp:162-187 | after any run of lines the error list holds exactly one entry per skipped line |
| CourseLoader.BlankIffWhitespace | CS300/CS300/ProjectTwo.cpp:165-166 | a line is skipped as blank exactly when, without its '\r', it is all whitespace |
| CourseLoader.MalformedIffFewCommas | CS300/CS300/ProjectTwo.cpp:168-169 | a non-blank line is a format error exactly when it has no comma, or its only comma is its last character |
| CourseLoader.PrereqsNormal | CS300/CS300/ProjectTwo.cpp:180-183 | every stored prerequisite is non-empty and upper case |
| CourseLoader.PrereqsLength | CS300/CS300/ProjectTwo.cpp:180-183 | there is exactly one prerequisite per non-empty field: the count is the number of fields less the number of empty ones |
| CourseLoader.PrereqsAppend | CS300/CS300/ProjectTwo.cpp:180-183 | prerequisites follow the order of their fields: the fields of two runs give the first run's prerequisites, then the second's |
| CourseLoader.PrereqsFromFields | CS300/CS300/ProjectTwo.cpp:180-183 | every prerequisite is the upper-cased text of some field |
| CourseLoader.ParsedCourseShape | CS300/CS300/ProjectTwo.cpp:168-183 | a loaded line has at least two fields. Its number is the upper-cased trimmed first field and its title the trimmed second. Its prerequisites are non-empty, upper case and comma-free |
| CourseLoader.BuildCourse | CS300/CS300/ProjectTwo.cpp:175-183 | the course-building loop yields `{toUpper(f0), f1, [toUpper(fi) for i >= 2 with fi non-empty]}` |
| CourseLoader.ReplayCounts | CS300/CS300/ProjectTwo.cpp:162-187 | `loaded + skipped` is the number of non-blank lines, `loaded` the number of well-formed lines, one error per skipped line, each naming a malformed line by its 1-based number |
| CourseLoader.ReplayOrdered | CS300/CS300/ProjectTwo.cpp:185 | loading keeps the tree ordered |
| CourseLoader.ReplayContents | CS300/CS300/ProjectTwo.cpp:185 | the catalog after loading is the starting catalog upserted with the well-formed lines' courses in line order, the last record for a number winning |
| CourseLoader.ReplayKeys | CS300/CS300/ProjectTwo.cpp:185 | the keys after loading are the starting keys plus the numbers of the well-formed lines |
| CourseLoader.IngestSnoc | CS300/CS300/ProjectTwo.cpp:162-187 | loading one more line is one `StepLine` on the counters and tree the earlier lines leave, with the new line's 1-based number |
| CourseLoader.IngestOneMoreLine | CS300/CS300/ProjectTwo.cpp:162-187 | one more line does one of three things. A blank line changes nothing. A line with fewer than two fields adds one skip and one error naming it, and leaves the tree. Any other line adds one load and inserts its course |
| CourseLoader.LoadedDistinct | CS300/CS300/ProjectTwo.cpp:162-187 | a freshly loaded tree has one node per distinct number. When the well-formed lines carry distinct numbers, that equals `loaded` |
| CourseLoader.DistinctNumbers | CS300/CS300/ProjectTwo.cpp:185-186 | proof step of `LoadedDistinct`: courses with pairwise different numbers have as many numbers as courses |
| CourseLoader.LoadStep | CS300/CS300/ProjectTwo.cpp:162-187 | loading line n is one `StepLine` applied to the state left by lines 1 to n - 1 |
| CourseLoader.LoadLine | CS300/CS300/ProjectTwo.cpp:163-186 | one pass of the loop body has exactly the effect `StepLine` gives for that line's outcome on the counters and the tree, and keeps the tree ordered |
| CourseLoader.LoadLines | CS300/CS300/ProjectTwo.cpp:162-187 | the loop leaves the counters, errors and tree that replaying every line's outcome gives, and keeps the tree ordered |
| CourseLoader.NormalizeKeyIgnoresCase | CS300/CS300/ProjectTwo.cpp:208 | lookup normalisation ignores case and is idempotent |
| CourseLoader.NormalizeKey | CS300/CS300/ProjectTwo.cpp:208 | the key looked up has no whitespace at either end and is no longer than the input |
| CourseLoader.NormalizeKeyIgnoresPadding | CS300/CS300/ProjectTwo.cpp:208 | whitespace typed before or after the input does not change the key looked up |
| CourseLoader.StoredNumberIsNormalized | CS300/CS300/ProjectTwo.cpp:176 | a stored course number is the normalised form of the line's first field, and normalising it again changes nothing |
| CourseLoader.TypedNumberMatchesStored | CS300/CS300/ProjectTwo.cpp:208 | typing a stored number in any mix of cases, with any whitespace around it, normalises to exactly that number |
| CourseLoader.QueryCourse | CS300/CS300/ProjectTwo.cpp:204-219 | reports "no course entered" exactly when the normalised input is empty, and "not found" exactly when it is not a catalog key. Otherwise it gives that key's record |

## Left out

- Opening the file and the early return when it cannot be opened (`ProjectTwo.cpp:154-158`) are file I/O. The loader receives the lines the file would yield.
- Error messages are not text. Each error is `FormatError(lineNo)`, the 1-based line number that the message would carry.
- The console interface is not modelled, because it is console output:
  - `printInOrder`/`inOrderRec`;
  - `printMenu` and `printWelcome`;
  - the printing in `handlePrintCourse`;
  - `main` with its `dataLoaded` flag.
  `ToVector` captures the traversal order, and `QueryCourse` captures the lookup decision.
- `destroy` and the destructor are left out, since deallocation has no counterpart under garbage collection.
- CourseStore.CourseBST.Insert: in-place updates become a rebuild of an immutable `Tree` value stored in `root`. This covers the payload overwrite at a matching node and the rewiring of child pointers. Node identity and pointer aliasing are therefore not modelled, but the resulting shape is (`InsertExistingShape`).
- `isspace` and `toupper` are modelled for the "C" locale only. Other locales are not modelled. `Less` compares by character code, as `std::string` does: its character traits compare `char`s as `unsigned char`.
- LoadResult: the counters are unbounded naturals, not `size_t`, so wrap-around is not modelled.
- CourseStore.CourseBST.ToVector: the `reserve` call is a capacity hint with no observable effect, so it is not modelled.
