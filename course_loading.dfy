/**
  Reading the course file into the catalogue: each line is cut into
  comma-separated fields, the first two become the course number and name
  and the rest its prerequisites, and the course is added to the tree.
  The lines themselves are given as a sequence; opening and reading the
  file is not modelled.
 */
module CourseLoading {
  import opened CourseTree
  import opened CourseCatalog

  /** The index of the first comma in `s`, if any. */
  function FirstComma(s: string): (r: Option<nat>)
    ensures r.Some? ==> r.value < |s| && s[r.value] == ','
  {
    if s == [] then None
    else if s[0] == ',' then Some(0)
    else
      var r := FirstComma(s[1..]);
      if r.None? then None else Some(r.value + 1)
  }

  /** `FirstComma` misses a comma only when there is none, and finds the first one. */
  lemma {:induction false} FirstCommaIsFirst(s: string)
    ensures FirstComma(s).None? ==> forall k :: 0 <= k < |s| ==> s[k] != ','
    ensures FirstComma(s).Some? ==> forall k :: 0 <= k < FirstComma(s).value ==> s[k] != ','
  {
    if s != [] && s[0] != ',' {
      FirstCommaIsFirst(s[1..]);
      assert forall k :: 0 < k < |s| ==> s[k] == s[1..][k - 1];
    }
  }

  /**
    Conversion to a 32-bit `unsigned int`: `x` modulo 2^32, written as
    repeated subtraction (see `Truncate32IsModulo`).
   */
  function Truncate32(x: nat): (r: nat)
    ensures r < 0x1_0000_0000
    ensures x < 0x1_0000_0000 ==> r == x
    ensures r <= x
  {
    if x < 0x1_0000_0000 then x else Truncate32(x - 0x1_0000_0000)
  }

  lemma {:induction false} Truncate32IsModulo(x: nat)
    ensures Truncate32(x) == x % 0x1_0000_0000
  {
    if x >= 0x1_0000_0000 {
      Truncate32IsModulo(x - 0x1_0000_0000);
    }
  }

  /**
    `unsigned int comma = data.find(',')`: the position of the first comma,
    or `npos` when there is none, cut down to 32 bits. `npos` is
    2^64 - 1 for a 64-bit `size_t`, which becomes 2^32 - 1, so with no
    comma the test `comma < 100` fails.
   */
  function CommaPosition(data: string): (comma: int)
    ensures 0 <= comma < 0x1_0000_0000
    ensures comma < 100 ==> comma < |data|
    ensures FirstComma(data).None? ==> comma == 0xFFFF_FFFF
    ensures FirstComma(data).Some? && FirstComma(data).value < 0x1_0000_0000 ==>
              comma == FirstComma(data).value
  {
    match FirstComma(data)
    case None => 0xFFFF_FFFF
    case Some(i) => Truncate32(i)
  }

  /**
    The fields the loop in `loadCourses` cuts a line into. While text is
    left: with a comma position below 100, the text before it is a field
    and the text after it is what is left; otherwise all the text left is
    one last field. A comma at position 100 or later therefore does not
    separate fields.
   */
  function Split(data: string): seq<string>
    decreases |data|
  {
    if |data| == 0 then []
    else
      var comma := CommaPosition(data);
      if comma < 100 then [data[..comma]] + Split(data[comma + 1..]) else [data]
  }

  /** The comma-splitting loop of `loadCourses`, with `data` cut down from the front. */
  method SplitFields(line: string) returns (info: seq<string>)
    ensures info == Split(line)
  {
    var data := line;
    info := [];
    while |data| > 0
      invariant info + Split(data) == Split(line)
      decreases |data|
    {
      var comma := CommaPosition(data);
      if comma < 100 {
        info := info + [data[..comma]];
        data := data[comma + 1..];
      } else {
        info := info + [data];
        data := "";
      }
    }
  }

  /** The fields joined back together with commas between them. */
  function Join(fields: seq<string>): string {
    if fields == [] then ""
    else if |fields| == 1 then fields[0]
    else fields[0] + "," + Join(fields[1..])
  }

  /** `s` without its last character when that is a comma. */
  function DropTrailingComma(s: string): string {
    if s != [] && s[|s| - 1] == ',' then s[..|s| - 1] else s
  }

  /** A line without a comma is a single field. */
  lemma SplitNoComma(line: string)
    requires line != [] && FirstComma(line).None?
    ensures Split(line) == [line]
  {
  }

  /**
    A line whose first comma is at `i`, below 100: the text before the
    comma is a field and the text after it is split further.
   */
  lemma SplitAtComma(line: string, i: nat)
    requires FirstComma(line) == Some(i) && i < 100
    ensures Split(line) == [line[..i]] + Split(line[i + 1..])
  {
  }

  /** The line is the text before its comma at `i`, the comma and the text after. */
  lemma CutAtComma(line: string, i: nat)
    requires i < |line| && line[i] == ','
    ensures line == line[..i] + "," + line[i + 1..]
  {
    assert line == line[..i] + [line[i]] + line[i + 1..];
  }

  lemma JoinCons(field: string, more: seq<string>)
    requires more != []
    ensures Join([field] + more) == field + "," + Join(more)
  {
    assert ([field] + more)[1..] == more;
  }

  lemma DropTrailingCommaCons(field: string, rest: string)
    requires rest != []
    ensures DropTrailingComma(field + "," + rest) == field + "," + DropTrailingComma(rest)
  {
    var line := field + "," + rest;
    assert line[|line| - 1] == rest[|rest| - 1];
    if rest[|rest| - 1] == ',' {
      assert line[..|line| - 1] == field + "," + rest[..|rest| - 1];
    }
  }

  /**
    For a line shorter than 100 characters every comma separates two
    fields, so joining the fields with commas gives back the line, less a
    comma at its very end (after the last comma nothing is left to split).
   */
  lemma {:induction false} SplitJoinShortLine(line: string)
    requires |line| < 100
    ensures Join(Split(line)) == DropTrailingComma(line)
    decreases |line|
  {
    if line != [] {
      FirstCommaIsFirst(line);
      var found := FirstComma(line);
      if found.None? {
        SplitNoComma(line);
      } else {
        var i := found.value;
        SplitAtComma(line, i);
        CutAtComma(line, i);
        var field, rest := line[..i], line[i + 1..];
        SplitJoinShortLine(rest);
        if rest == [] {
          assert DropTrailingComma(line) == field;
        } else {
          JoinCons(field, Split(rest));
          DropTrailingCommaCons(field, rest);
        }
      }
    }
  }

  /** No field cut from a line shorter than 100 characters holds a comma. */
  lemma {:induction false} ShortLineFieldsHaveNoComma(line: string)
    requires |line| < 100
    ensures forall k :: 0 <= k < |Split(line)| ==> ',' !in Split(line)[k]
    decreases |line|
  {
    if line != [] {
      FirstCommaIsFirst(line);
      var found := FirstComma(line);
      if found.None? {
        SplitNoComma(line);
      } else {
        var i := found.value;
        SplitAtComma(line, i);
        ShortLineFieldsHaveNoComma(line[i + 1..]);
      }
    }
  }

  /** Behind a field without a comma, the first comma is the separator that follows it. */
  lemma FirstCommaAfterField(field: string, rest: string)
    requires ',' !in field
    ensures FirstComma(field + "," + rest) == Some(|field|)
  {
    var line := field + "," + rest;
    FirstCommaIsFirst(line);
    assert line[|field|] == ',';
  }

  /**
    Fields without commas, the last one non-empty, joined into a line
    shorter than 100 characters: splitting that line gives the fields back.
   */
  lemma {:induction false} SplitOfJoin(fs: seq<string>)
    requires forall i :: 0 <= i < |fs| ==> ',' !in fs[i]
    requires fs != [] ==> fs[|fs| - 1] != []
    requires |Join(fs)| < 100
    ensures Split(Join(fs)) == fs
    decreases |fs|
  {
    if |fs| == 1 {
      SplitNoComma(fs[0]);
    } else if |fs| > 1 {
      var field, more := fs[0], fs[1..];
      var line := Join(fs);
      assert line == field + "," + Join(more);
      FirstCommaAfterField(field, Join(more));
      SplitAtComma(line, |field|);
      assert line[..|field|] == field;
      assert line[|field| + 1..] == Join(more);
      assert forall i :: 0 <= i < |more| ==> more[i] == fs[i + 1];
      SplitOfJoin(more);
    }
  }

  /**
    A line written as number, name and prerequisites separated by commas is
    read back as that course, when no field holds a comma, the last field
    is not empty and the line is shorter than 100 characters.
   */
  lemma CourseOfJoinedLine(number: string, name: string, prerequisite: seq<string>)
    requires ',' !in number && ',' !in name
    requires forall i :: 0 <= i < |prerequisite| ==> ',' !in prerequisite[i]
    requires if prerequisite == [] then name != [] else prerequisite[|prerequisite| - 1] != []
    requires |Join([number, name] + prerequisite)| < 100
    ensures CourseOfLine(Join([number, name] + prerequisite)) == Some(Course(number, name, prerequisite))
  {
    var fs := [number, name] + prerequisite;
    assert forall i :: 2 <= i < |fs| ==> fs[i] == prerequisite[i - 2];
    SplitOfJoin(fs);
    assert fs[2..] == prerequisite;
  }

  /**
    When the first comma is at position 100 or later (and below 2^32), the
    comparison `comma < 100` fails and the whole line becomes a single
    field, commas and all.
   */
  lemma LateCommaKeepsLineWhole(line: string)
    requires FirstComma(line).Some? && 100 <= FirstComma(line).value < 0x1_0000_0000
    ensures Split(line) == [line]
  {
  }

  /**
    The course a line describes, when it has the two fields a course
    needs: number, name, then the prerequisites in order.
   */
  function CourseOfLine(line: string): (r: Option<Course>)
    ensures r.None? <==> |Split(line)| < 2
    ensures r.Some? ==> r.value.courseNumber == Split(line)[0] && r.value.courseName == Split(line)[1]
                        && r.value.prerequisite == Split(line)[2..]
  {
    var info := Split(line);
    if |info| < 2 then None else Some(Course(info[0], info[1], info[2..]))
  }

  /**
    What `loadCourses` as written reads from `lines`: it takes `info[0]`
    and `info[1]` from every line without checking that they exist, so a
    line with fewer than two fields is undefined behaviour, shown here as
    `None` for the whole load.
   */
  function LoadedAsWritten(lines: seq<string>): (r: Option<seq<Course>>)
    ensures r.Some? ==> |r.value| == |lines|
  {
    if lines == [] then Some([])
    else
      var front := LoadedAsWritten(lines[..|lines| - 1]);
      var last := CourseOfLine(lines[|lines| - 1]);
      if front.Some? && last.Some? then Some(front.value + [last.value]) else None
  }

  /**
    A file that ends in a newline makes the last `getline` return an empty
    line, which has no fields: loading such a file as written is undefined,
    whatever came before.
   */
  lemma BlankLineUndefinedAsWritten(lines: seq<string>)
    ensures LoadedAsWritten(lines + [""]) == None
  {
    assert Split("") == [];
  }

  /** The evidently intended loader skips that empty last line. */
  lemma BlankLineSkipped(lines: seq<string>)
    ensures LoadedCourses(lines + [""]) == LoadedCourses(lines)
  {
    assert Split("") == [];
    assert (lines + [""])[..|lines|] == lines;
  }

  /**
    The courses the loader evidently means to read: one per line that has
    a number and a name, in file order; other lines are skipped.
   */
  function LoadedCourses(lines: seq<string>): (cs: seq<Course>)
    ensures |cs| <= |lines|
  {
    if lines == [] then []
    else
      var front := LoadedCourses(lines[..|lines| - 1]);
      match CourseOfLine(lines[|lines| - 1])
      case None => front
      case Some(c) => front + [c]
  }

  /**
    Loading as written is defined exactly when the evidently intended
    loader skips no line, and then both read the same courses.
   */
  lemma {:induction false} LoadedAsWrittenAgrees(lines: seq<string>)
    ensures LoadedAsWritten(lines).Some? <==> |LoadedCourses(lines)| == |lines|
    ensures LoadedAsWritten(lines).Some? ==> LoadedAsWritten(lines).value == LoadedCourses(lines)
  {
    if lines != [] {
      LoadedAsWrittenAgrees(lines[..|lines| - 1]);
    }
  }

  /**
    One pass of the outer loop of `loadCourses`: split the line, and when it
    has a number and a name, copy the remaining fields into the
    prerequisites and add the course.
   */
  method LoadLine(line: string, tree: CourseBinarySearchTree)
    requires tree.Valid()
    modifies tree.Repr
    ensures tree.Valid() && fresh(tree.Repr - old(tree.Repr))
    ensures tree.Model == match CourseOfLine(line)
                          case None => old(tree.Model)
                          case Some(c) => Insert(old(tree.Model), c)
  {
    var info := SplitFields(line);
    if |info| >= 2 {
      var prerequisite := [];
      for i := 2 to |info|
        invariant prerequisite == info[2..i]
      {
        prerequisite := prerequisite + [info[i]];
      }
      assert prerequisite == info[2..];
      var c := Course(info[0], info[1], prerequisite);
      assert CourseOfLine(line) == Some(c);
      tree.Add(c);
    } else {
      assert CourseOfLine(line) == None;
    }
  }

  /**
    `loadCourses` over the lines of the file, skipping lines without a
    number and a name: the catalogue ends as the old one with the courses
    of `LoadedCourses(lines)` added in order, and is still valid.
   */
  method LoadCourses(lines: seq<string>, tree: CourseBinarySearchTree)
    requires tree.Valid()
    modifies tree.Repr
    ensures tree.Valid() && fresh(tree.Repr - old(tree.Repr))
    ensures tree.Model == InsertAll(old(tree.Model), LoadedCourses(lines))
  {
    for n := 0 to |lines|
      invariant tree.Valid() && fresh(tree.Repr - old(tree.Repr))
      invariant tree.Model == InsertAll(old(tree.Model), LoadedCourses(lines[..n]))
    {
      assert lines[..n + 1][..n] == lines[..n];
      LoadLine(lines[n], tree);
    }
    assert lines[..|lines|] == lines;
  }
}
