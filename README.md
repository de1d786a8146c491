# Course planner and bid sorting, modelled in Dafny

This project models the algorithmic core of two small C++ command-line tools.

- **Bid sorting** (`VectorSorting/VectorSorting.cpp`) sorts a vector of bid
  records by `title`, in place. It has two algorithms:
  - `selectionSort`;
  - `quickSort`, with a Hoare-style `partition` around the title at the
    midpoint.
  Before it parses a bid amount, `strToDouble` strips a given character
  from the string.
- **Course planner** (`Project2/Project2.cpp`) keeps courses in an
  unbalanced binary search tree, `CourseBinarySearchTree`, keyed by course
  number. Its operations are:
  - `Add` / `addNode` insert a course. An equal number goes right.
  - `sampleSchedule` lists the tree in order.
  - `courseInformation` looks a number up by an iterative descent.
  - `NumberPrerequisiteCourses` counts the non-empty prerequisite slots.
  - `loadCourses` cuts each line of the course file at commas and adds one
    course per line.

Every string comparison of the source is `std::string::compare`.
`StringOrder.Compare` models it as its sign: characters are compared by
code, and a proper prefix is smaller.

The modules follow the program's structure:

| file | module | contents |
|---|---|---|
| `string_order.dfy` | `StringOrder` | `Compare` and the order laws the proofs use |
| `vector_sorting.dfy` | `VectorSorting` | the `Bid` record; selection sort and quicksort as methods on `array<Bid>`; the strip step |
| `course_tree.dfy` | `CourseTree` | the `Course` record; the tree as a datatype; the functions that say what insertion, in-order listing and lookup compute, with their lemmas |
| `course_catalog.dfy` | `CourseCatalog` | `Node` and `CourseBinarySearchTree` as heap classes with pointer fields, each method proved against `CourseTree` through ghost `Model`/`Repr` fields |
| `course_loading.dfy` | `CourseLoading` | the comma-splitting loop, with the source's 32-bit `unsigned int comma`, and the per-line loading loop |

The main results:

- Both sorts leave the vector sorted by title and a permutation of the
  input.
  - `quickSort` touches only `[begin, end]`.
  - Its two unchecked scans never leave the range: the midpoint pivot always
    leaves a stopping element ahead of them.
  - `selectionSort` leaves an already sorted vector exactly as it was.
- The heap tree always stays a search tree whose model is
  `Insert(old model, course)`.
  - The schedule lists every course once, sorted by course number.
  - A lookup finds a course exactly when the catalogue holds one with that
    number.
  - After loading, a lookup returns the first course with that number in
    file order; later duplicates are never found by number.
- On a line shorter than 100 characters, splitting at commas is undone by
  joining with commas (less a comma at the very end of the line). No field
  of such a line holds a comma.

## Model

| member | source | states |
|---|---|---|
| StringOrder.Compare | VectorSorting/VectorSorting.cpp:144-148 | the result is -1, 0 or 1, and 0 exactly when the two strings are equal |
| StringOrder.CompareFlip | Project2/Project2.cpp:157-176 | swapping the operands negates the comparison, so `courseNumber.compare(node)` and `node.compare(courseNumber)` agree |
| StringOrder.LessEqTransitive | VectorSorting/VectorSorting.cpp:222 | the order used to compare titles and course numbers is transitive |
| VectorSorting.Swap | VectorSorting/VectorSorting.cpp:159 | the array is the old one with positions `i` and `j` exchanged, and the same multiset |
| VectorSorting.MinimumFrom | VectorSorting/VectorSorting.cpp:218-226 | the index returned lies in `[pos, n)`; its title is at most every title from `pos` on, and strictly below every title before it (the first minimum wins) |
| VectorSorting.MinimumOfSortedIsFirst | VectorSorting/VectorSorting.cpp:220-230 | on a sorted vector the minimum found is at `pos`, so no swap happens |
| VectorSorting.SwapMinimumExtends | VectorSorting/VectorSorting.cpp:227-230 | swapping the minimum into `pos` extends the sorted prefix, which is at most every later title, by one |
| VectorSorting.SelectionSort | VectorSorting/VectorSorting.cpp:210-232 | the result is sorted by title and a permutation of the input; a sorted input is left unchanged |
| VectorSorting.Midpoint | VectorSorting/VectorSorting.cpp:134 | the pivot index lies in `[begin, end)` and splits the range as evenly as possible |
| VectorSorting.ScanUp | VectorSorting/VectorSorting.cpp:143-146 | the scan stops by the stopping index without leaving the range; every title it passed is at most the pivot, and the title it stops at is at least the pivot |
| VectorSorting.ScanDown | VectorSorting/VectorSorting.cpp:147-150 | the scan stops by the stopping index without leaving the range; every title it passed is at least the pivot, and the title it stops at is at most the pivot |
| VectorSorting.PartitionSwapStep | VectorSorting/VectorSorting.cpp:156-162 | one exchange keeps both scanned regions bounded by the pivot, one position larger each, and keeps the range a rearrangement of the original |
| VectorSorting.Partition | VectorSorting/VectorSorting.cpp:123-165 | the split lies in `[begin, end)`; titles up to it are at most the pivot and those after it at least the pivot; only `[begin, end]` is rearranged |
| VectorSorting.SortedHalvesCombine | VectorSorting/VectorSorting.cpp:189-194 | two sorted halves of a range partitioned around a pivot make a sorted rearrangement of the whole range |
| VectorSorting.QuickSortStep | VectorSorting/VectorSorting.cpp:183-195 | after the partition and both recursive calls, including calls on ranges of one element, `[begin, end]` is sorted and a rearrangement |
| VectorSorting.QuickSort | VectorSorting/VectorSorting.cpp:176-198 | for `begin < end`, `[begin, end]` ends sorted and a rearrangement of what it held, with nothing outside it changed; otherwise the vector is untouched |
| VectorSorting.QuickSortAll | VectorSorting/VectorSorting.cpp:359 | `quickSort(bids, 0, size - 1)`, also on an empty vector, leaves the whole vector sorted and a permutation |
| VectorSorting.Strip | VectorSorting/VectorSorting.cpp:243 | no `ch` is left; every other character occurs exactly as often as before |
| VectorSorting.StripAppend | VectorSorting/VectorSorting.cpp:243 | stripping distributes over concatenation, which fixes the order of what is kept |
| VectorSorting.StripOne | VectorSorting/VectorSorting.cpp:243 | a single character is dropped exactly when it is `ch` |
| VectorSorting.StripAbsent | VectorSorting/VectorSorting.cpp:243 | a string without `ch` is unchanged |
| VectorSorting.StripIdempotent | VectorSorting/VectorSorting.cpp:243 | stripping twice is stripping once |
| CourseTree.Insert | Project2/Project2.cpp:122-137 | the routing of `addNode`: left exactly when the node's number compares greater than the new one, a new leaf where the descent falls off; its promises are carried by `InsertContents`, `InsertPreservesBst` and `FindAfterInsert` |
| CourseTree.InsertContents | Project2/Project2.cpp:122-137 | insertion adds exactly the new course to the tree's multiset of courses |
| CourseTree.InsertPreservesBst | Project2/Project2.cpp:122-137 | insertion keeps the order: left subtrees are strictly below the node's number, right subtrees at least it |
| CourseTree.HasKeyIsHeld | Project2/Project2.cpp:154-183 | a key is present in the tree exactly when some course held has that number |
| CourseTree.InOrder | Project2/Project2.cpp:142-149 | the listing holds every course of the tree, as often as it occurs |
| CourseTree.InOrderSorted | Project2/Project2.cpp:142-149 | the listing of a search tree is sorted by course number |
| CourseTree.Find | Project2/Project2.cpp:154-181 | a course found is in the tree and has the number sought |
| CourseTree.FindComplete | Project2/Project2.cpp:154-183 | in a search tree the descent reports "not found" exactly when no course has that number |
| CourseTree.FindAfterInsert | Project2/Project2.cpp:122-181 | after one more insertion a course found before is still the one found; a missed number is found only when it is the new course's |
| CourseTree.InsertAll | Project2/Project2.cpp:222 | the repeated `coursesBST->Add` of `loadCourses`, one course at a time in file order; its promises are carried by `InsertAllContents`, `InsertAllPreservesBst`, `ScheduleOfLoaded` and `FindLoaded` |
| CourseTree.InsertAllContents | Project2/Project2.cpp:193-223 | the loaded tree holds the old courses plus every loaded course |
| CourseTree.InsertAllPreservesBst | Project2/Project2.cpp:193-223 | adding courses one by one keeps the search-tree order |
| CourseTree.ScheduleOfLoaded | Project2/Project2.cpp:142-149 | the schedule of the loaded courses is sorted by number and is a permutation of them |
| CourseTree.FirstWithKey | Project2/Project2.cpp:154-181 | the reference lookup: none exactly when no course has the number; otherwise a course of the list with it |
| CourseTree.FirstWithKeyIsEarliest | Project2/Project2.cpp:154-181 | the reference lookup picks the earliest course with the number |
| CourseTree.FindLoaded | Project2/Project2.cpp:154-181 | looking a number up in the loaded tree gives the first course with it in load order |
| CourseTree.NonEmpty | Project2/Project2.cpp:105-112 | the filtered list is no longer than the slots and holds only non-empty strings |
| CourseTree.NonEmptyCountsSlots | Project2/Project2.cpp:105-112 | the number of non-empty entries is the number of slots holding one |
| CourseTree.NonEmptyExample | Project2/Project2.cpp:105-112 | the slots `["", "CS101", "", "CS200"]` hold the two prerequisites `CS101`, `CS200` |
| CourseTree.NonEmptyAppend | Project2/Project2.cpp:107-110 | filtering a concatenation filters each part |
| CourseTree.NonEmptyKeeps | Project2/Project2.cpp:107-110 | every non-empty slot survives the filter |
| CourseTree.NonEmptyIsEmptyIffBlank | Project2/Project2.cpp:169-171 | the filtered list is empty, and "None." is printed, exactly when every slot is empty |
| CourseTree.ShownPrerequisitesAsWritten | Project2/Project2.cpp:160-168 | the entries printed as written are the first `count` slots, as many as there are non-empty ones |
| CourseTree.ShownAsWrittenMissesPrerequisite | Project2/Project2.cpp:160-168 | for the slots `["", "CS101"]` as written, only the empty slot is printed and `CS101` never is |
| CourseTree.ShownAgreeWhenBlanksTrail | Project2/Project2.cpp:160-168 | when empty slots come only after the real ones, the listing as written is the intended one |
| CourseCatalog.Node.constructor | Project2/Project2.cpp:36-38 | a node holds the course with both children null |
| CourseCatalog.CourseBinarySearchTree.constructor | Project2/Project2.cpp:65-68 | a new catalogue is empty |
| CourseCatalog.CourseBinarySearchTree.Add | Project2/Project2.cpp:92-102 | the catalogue stays a valid search tree, and its model is the old one with the course inserted |
| CourseCatalog.CourseBinarySearchTree.AddNode | Project2/Project2.cpp:122-137 | the subtree below `node` stays valid, and its model is the old one with the course inserted |
| CourseCatalog.CourseBinarySearchTree.NumberPrerequisiteCourses | Project2/Project2.cpp:105-112 | the count is the number of non-empty prerequisite slots, between 0 and the number of slots |
| CourseCatalog.CourseBinarySearchTree.SampleSchedule | Project2/Project2.cpp:114-116 | the courses come in the in-order listing of the catalogue, sorted by number, and each appears as often as it is held |
| CourseCatalog.CourseBinarySearchTree.SampleScheduleFrom | Project2/Project2.cpp:142-149 | the recursion lists the subtree below `node` in order |
| CourseCatalog.CourseBinarySearchTree.CourseInformation | Project2/Project2.cpp:118-120 | a course is found exactly when the catalogue holds one with that number, and the one found has that number; the result is the descent `Find` from the root |
| CourseCatalog.CourseBinarySearchTree.CourseInformationFrom | Project2/Project2.cpp:154-184 | the loop returns what the descent `Find` returns from `node` |
| CourseLoading.FirstComma | Project2/Project2.cpp:204 | a position found holds a comma and lies inside the string |
| CourseLoading.FirstCommaIsFirst | Project2/Project2.cpp:204 | "no position" means the string has no comma, and no comma comes before a position found |
| CourseLoading.Truncate32 | Project2/Project2.cpp:204 | the value fits in 32 bits, is no larger than the input, and is unchanged when it already fits |
| CourseLoading.Truncate32IsModulo | Project2/Project2.cpp:204 | the 32-bit conversion is reduction modulo 2^32 |
| CourseLoading.CommaPosition | Project2/Project2.cpp:204 | `npos` becomes 2^32 - 1; a position that fits in 32 bits is kept; a position below 100 lies inside the string |
| CourseLoading.Split | Project2/Project2.cpp:203-214 | the fields the comma-split loop produces; `SplitFields` is proved equal to it, and its promises are carried by `SplitNoComma`, `SplitAtComma`, `SplitJoinShortLine`, `SplitOfJoin`, `ShortLineFieldsHaveNoComma` and `LateCommaKeepsLineWhole` |
| CourseLoading.SplitFields | Project2/Project2.cpp:203-214 | the loop produces the fields `Split` defines |
| CourseLoading.SplitNoComma | Project2/Project2.cpp:209-212 | a non-empty line without a comma is a single field |
| CourseLoading.SplitAtComma | Project2/Project2.cpp:205-207 | a first comma before position 100 ends a field, and the rest of the line is split further |
| CourseLoading.SplitJoinShortLine | Project2/Project2.cpp:203-214 | for a line shorter than 100 characters, joining the fields with commas gives back the line, less a comma at its very end |
| CourseLoading.ShortLineFieldsHaveNoComma | Project2/Project2.cpp:203-214 | no field of a line shorter than 100 characters holds a comma |
| CourseLoading.LateCommaKeepsLineWhole | Project2/Project2.cpp:205-212 | a first comma at position 100 or later (below 2^32) leaves the whole line as one field |
| CourseLoading.CourseOfLine | Project2/Project2.cpp:216-221 | the course a line gives, when it has a number and a name; `CourseOfJoinedLine` is its partner: a line written from a course's fields is read back as exactly that course |
| CourseLoading.FirstCommaAfterField | Project2/Project2.cpp:204 | behind a field without a comma, `find(',')` returns the position of the separator that follows it |
| CourseLoading.SplitOfJoin | Project2/Project2.cpp:203-214 | fields without commas, the last one non-empty, joined into a line shorter than 100 characters, are split back into exactly those fields |
| CourseLoading.CourseOfJoinedLine | Project2/Project2.cpp:203-221 | a line written as number, name and prerequisites separated by commas (no comma inside a field, last field non-empty, shorter than 100 characters) is read back as exactly that course |
| CourseLoading.LoadedAsWritten | Project2/Project2.cpp:193-222 | the load as written, where it is defined, reads one course per line |
| CourseLoading.BlankLineUndefinedAsWritten | Project2/Project2.cpp:202-218 | a file ending in a newline, whose last line is empty, makes the load as written undefined |
| CourseLoading.LoadedCourses | Project2/Project2.cpp:193-222 | the intended load reads at most one course per line |
| CourseLoading.BlankLineSkipped | Project2/Project2.cpp:202-218 | the intended load skips an empty last line |
| CourseLoading.LoadedAsWrittenAgrees | Project2/Project2.cpp:193-222 | the load as written is defined exactly when the intended load skips no line, and then both read the same courses |
| CourseLoading.LoadLine | Project2/Project2.cpp:200-222 | a line with a number and a name inserts its course into the catalogue, which stays valid; any other line leaves it as it was |
| CourseLoading.LoadCourses | Project2/Project2.cpp:189-232 | the catalogue ends as the old one with the courses of `LoadedCourses(lines)` inserted in file order, and stays valid |

Three details of the code shape what the model promises:

- Lookup makes two separate comparisons at each node:
  - `curr.compare(key) == 0` stops the descent;
  - otherwise `key.compare(curr) < 0` chooses the left child.
  `StringOrder.CompareFlip` shows the two comparisons agree.
- `quickSort` swaps records with equal titles. The scans of
  `VectorSorting.cpp:144-159` stop on titles equal to the pivot, and the
  two records found are swapped. So on an already sorted vector it is not
  a no-op: two records with the same title at positions 0 and 1 come out
  reversed. `QuickSort` therefore promises a sorted permutation, while
  `SelectionSort` also leaves a sorted vector exactly as it was.
- A first comma at position 100 or later does not split the line: the test
  `comma < 100` fails and the whole line stays one field, commas and all
  (`LateCommaKeepsLineWhole`).

## Left out

- `main` and its menus, the `clock()` timing and all console output: each
  operation returns what it would print, as a value.
- `loadBids`, the CSV parser it calls (`CSVparser.hpp` is not part of this
  model), and `atof` with its `double` result. `Bid.amount` is a `real`
  carried along unchanged.
- File I/O: `loadCourses` is given the lines of the file as a sequence, as
  `getline` would return them. A file ending in a newline yields a last
  empty line. Failure to open the file (the `false` result) and the
  `csv::Error` handler are not modelled.
- `CourseBinarySearchTree::Remove` and the destructor: memory release has no
  counterpart in Dafny.
- CourseCatalog.CourseBinarySearchTree.NumberPrerequisiteCourses: the
  `int count` is unbounded here. The source's counter could overflow only
  beyond 2^31 slots.
- CourseLoading.CommaPosition: the position is computed from an unbounded
  index and then reduced modulo 2^32, as `unsigned int comma` does with a
  64-bit `size_t`. Lines of 4 GiB or more are allowed but not otherwise
  studied.
- VectorSorting.SelectionSort: the indices are unbounded here. In the source
  `pos`, `i` and `size_t` are `unsigned int`, but `min` is a signed `int`
  (`VectorSorting.cpp:212`, `218`, `224`). Once `pos` or `i` reaches 2^31,
  `min` turns negative, and `bids.at(min)` converts it to a huge `size_t`
  and throws `std::out_of_range`. The model promises a sorted permutation
  for every length, so it does not capture this failure of the source for
  vectors of 2^31 bids or more, nor the 2^32 limit of `unsigned int`.
- VectorSorting.QuickSort: `int begin`, `int end` and `bids.size() - 1` are
  unbounded; the conversion of the size to `int` is not modelled.
- CourseTree.ShownPrerequisitesAsWritten: it gives the entries printed as a
  list. The ", " separators and the "None." text are not modelled.
- Teardown order, allocation failure and the uniqueness of `bidId` are not
  modelled.

## Findings

| source | as written | input that shows it | evidently intended | confidence | as-written member | corrected member |
|---|---|---|---|---|---|---|
| Project2/Project2.cpp:160-168 | `courseInformation` prints the first `NumberPrerequisiteCourses` slots, whatever they hold | prerequisite slots `["", "CS101"]`: count 1, so the empty slot is printed and `CS101` is not | print the non-empty prerequisites, the ones that were counted | not executed | CourseTree.ShownAsWrittenMissesPrerequisite | CourseTree.NonEmptyIsEmptyIffBlank |
| Project2/Project2.cpp:202-218 | `loadCourses` reads `info[0]` and `info[1]` without checking that the line had two fields | a file ending in a newline: the last `getline` gives `""`, so `info` is empty and `info[0]` is out of range | skip lines with fewer than two fields | not executed | CourseLoading.BlankLineUndefinedAsWritten | CourseLoading.BlankLineSkipped |

For the first row:

- `ShownPrerequisitesAsWritten` models the loop as written.
- `NonEmpty` is the corrected listing: the non-empty entries in their order.
  - `NumberPrerequisiteCourses` counts exactly these entries.
  - `NonEmptyKeeps` shows none is lost.
  - `ShownAgreeWhenBlanksTrail` shows both listings agree whenever empty
    slots only trail.

For the second row:

- `LoadedAsWritten` models the load as written, with undefined behaviour as
  `None`.
- `LoadedCourses` is the corrected load. `LoadCourses` and `LoadLine` are
  proved against it.
- `LoadedAsWrittenAgrees` shows both agree whenever the load as written is
  defined.
