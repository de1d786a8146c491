/**
  The course planner's catalogue as values: a `Course` record and the
  unbalanced binary search tree the planner keeps courses in, keyed by
  `courseNumber`. This module holds the tree as a datatype together with
  the functions that say what the planner's pointer-based operations
  compute; the heap version is in `CourseCatalog`.
 */
module CourseTree {
  import opened StringOrder

  /** `struct Course`. */
  datatype Course = Course(courseNumber: string, courseName: string, prerequisite: seq<string>)

  datatype Option<T> = None | Some(value: T)

  /** The shape and contents of the nodes reachable from one `Node*`. */
  datatype Tree = Leaf | Branch(course: Course, left: Tree, right: Tree)

  /** The courses held in `t`, with multiplicity (the tree keeps duplicates). */
  function Contents(t: Tree): multiset<Course> {
    match t
    case Leaf => multiset{}
    case Branch(c, l, r) => Contents(l) + multiset{c} + Contents(r)
  }

  /** Some course in `t` has number `key`. */
  predicate HasKey(t: Tree, key: string) {
    match t
    case Leaf => false
    case Branch(c, l, r) => c.courseNumber == key || HasKey(l, key) || HasKey(r, key)
  }

  /** Every course number in `t` is strictly below `k`. */
  predicate AllBelow(t: Tree, k: string) {
    match t
    case Leaf => true
    case Branch(c, l, r) => Less(c.courseNumber, k) && AllBelow(l, k) && AllBelow(r, k)
  }

  /** Every course number in `t` is at least `k`. */
  predicate AllAtLeast(t: Tree, k: string) {
    match t
    case Leaf => true
    case Branch(c, l, r) => LessEq(k, c.courseNumber) && AllAtLeast(l, k) && AllAtLeast(r, k)
  }

  /**
    The order `addNode` builds: every course number in a left subtree is
    strictly below the node's, every one in a right subtree at least the
    node's.
   */
  predicate IsBst(t: Tree) {
    match t
    case Leaf => true
    case Branch(c, l, r) =>
      IsBst(l) && IsBst(r) && AllBelow(l, c.courseNumber) && AllAtLeast(r, c.courseNumber)
  }

  /** Every course `Contents` lists obeys the bounds of its tree and is found by `HasKey`. */
  lemma {:induction false} ContentsObeyBounds(t: Tree, x: Course, k: string)
    requires x in Contents(t)
    ensures AllBelow(t, k) ==> Less(x.courseNumber, k)
    ensures AllAtLeast(t, k) ==> LessEq(k, x.courseNumber)
    ensures HasKey(t, x.courseNumber)
  {
    match t
    case Branch(c, l, r) =>
      if x in Contents(l) {
        ContentsObeyBounds(l, x, k);
      } else if x in Contents(r) {
        ContentsObeyBounds(r, x, k);
      }
  }

  /** A number `HasKey` finds belongs to a course `Contents` lists. */
  lemma {:induction false} HasKeyInContents(t: Tree, key: string)
    requires HasKey(t, key)
    ensures exists x :: x in Contents(t) && x.courseNumber == key
  {
    match t
    case Branch(c, l, r) =>
      if c.courseNumber == key {
        assert c in Contents(t);
      } else if HasKey(l, key) {
        HasKeyInContents(l, key);
        var x :| x in Contents(l) && x.courseNumber == key;
        assert x in Contents(t);
      } else {
        HasKeyInContents(r, key);
        var x :| x in Contents(r) && x.courseNumber == key;
        assert x in Contents(t);
      }
  }

  /** `HasKey` says exactly that some course of the tree has the number. */
  lemma HasKeyIsHeld(t: Tree, key: string)
    ensures HasKey(t, key) <==> exists x :: x in Contents(t) && x.courseNumber == key
  {
    if HasKey(t, key) {
      HasKeyInContents(t, key);
    } else {
      forall x | x in Contents(t)
        ensures x.courseNumber != key
      {
        ContentsObeyBounds(t, x, key);
      }
    }
  }

  /**
    `Add` followed by `addNode`: descend from the root, going left when the
    node's number compares greater than the new one and right otherwise
    (so an equal number goes right), and hang the course as a new leaf where
    the descent falls off the tree.
   */
  function Insert(t: Tree, c: Course): Tree {
    match t
    case Leaf => Branch(c, Leaf, Leaf)
    case Branch(x, l, r) =>
      if Compare(x.courseNumber, c.courseNumber) > 0 then Branch(x, Insert(l, c), r)
      else Branch(x, l, Insert(r, c))
  }

  /** Insertion adds exactly the new course: the rest of the tree's courses stay. */
  lemma {:induction false} InsertContents(t: Tree, c: Course)
    ensures Contents(Insert(t, c)) == Contents(t) + multiset{c}
  {
    match t
    case Leaf =>
    case Branch(x, l, r) =>
      InsertContents(l, c);
      InsertContents(r, c);
  }

  /** A bound that holds of the tree and of the new course holds after insertion. */
  lemma {:induction false} InsertKeepsBounds(t: Tree, c: Course, k: string)
    ensures AllBelow(t, k) && Less(c.courseNumber, k) ==> AllBelow(Insert(t, c), k)
    ensures AllAtLeast(t, k) && LessEq(k, c.courseNumber) ==> AllAtLeast(Insert(t, c), k)
  {
    match t
    case Leaf =>
    case Branch(x, l, r) =>
      InsertKeepsBounds(l, c, k);
      InsertKeepsBounds(r, c, k);
  }

  /** Insertion keeps the search-tree order. */
  lemma {:induction false} InsertPreservesBst(t: Tree, c: Course)
    requires IsBst(t)
    ensures IsBst(Insert(t, c))
  {
    match t
    case Leaf =>
    case Branch(x, l, r) =>
      CompareFlip(x.courseNumber, c.courseNumber);
      if Compare(x.courseNumber, c.courseNumber) > 0 {
        InsertPreservesBst(l, c);
        InsertKeepsBounds(l, c, x.courseNumber);
      } else {
        InsertPreservesBst(r, c);
        InsertKeepsBounds(r, c, x.courseNumber);
      }
  }

  /** Course numbers are non-decreasing along `s`. */
  predicate SortedByNumber(s: seq<Course>) {
    forall i, j :: 0 <= i < j < |s| ==> LessEq(s[i].courseNumber, s[j].courseNumber)
  }

  /**
    The order in which `sampleSchedule` visits the nodes: left subtree, the
    node, right subtree. Every course of the tree is listed, as often as it
    occurs.
   */
  function InOrder(t: Tree): (s: seq<Course>)
    ensures multiset(s) == Contents(t)
  {
    match t
    case Leaf => []
    case Branch(c, l, r) => InOrder(l) + [c] + InOrder(r)
  }

  /** An upper bound of a tree holds along its in-order listing. */
  lemma {:induction false} InOrderBelow(t: Tree, k: string)
    requires AllBelow(t, k)
    ensures forall i :: 0 <= i < |InOrder(t)| ==> Less(InOrder(t)[i].courseNumber, k)
  {
    match t
    case Leaf =>
    case Branch(c, l, r) =>
      InOrderBelow(l, k);
      InOrderBelow(r, k);
      var sl, sr := InOrder(l), InOrder(r);
      var s := InOrder(t);
      assert s == sl + [c] + sr;
      forall i | 0 <= i < |s|
        ensures Less(s[i].courseNumber, k)
      {
        if i < |sl| {
          assert s[i] == sl[i];
        } else if i > |sl| {
          assert s[i] == sr[i - |sl| - 1];
        }
      }
  }

  /** A lower bound of a tree holds along its in-order listing. */
  lemma {:induction false} InOrderAtLeast(t: Tree, k: string)
    requires AllAtLeast(t, k)
    ensures forall i :: 0 <= i < |InOrder(t)| ==> LessEq(k, InOrder(t)[i].courseNumber)
  {
    match t
    case Leaf =>
    case Branch(c, l, r) =>
      InOrderAtLeast(l, k);
      InOrderAtLeast(r, k);
      var sl, sr := InOrder(l), InOrder(r);
      var s := InOrder(t);
      assert s == sl + [c] + sr;
      forall i | 0 <= i < |s|
        ensures LessEq(k, s[i].courseNumber)
      {
        if i < |sl| {
          assert s[i] == sl[i];
        } else if i > |sl| {
          assert s[i] == sr[i - |sl| - 1];
        }
      }
  }

  /** The in-order listing of a search tree is sorted by course number. */
  lemma {:induction false} InOrderSorted(t: Tree)
    requires IsBst(t)
    ensures SortedByNumber(InOrder(t))
  {
    match t
    case Leaf =>
    case Branch(c, l, r) =>
      InOrderSorted(l);
      InOrderSorted(r);
      InOrderBelow(l, c.courseNumber);
      InOrderAtLeast(r, c.courseNumber);
      var sl, sr := InOrder(l), InOrder(r);
      var s := sl + [c] + sr;
      forall i, j | 0 <= i < j < |s|
        ensures LessEq(s[i].courseNumber, s[j].courseNumber)
      {
        assert s[i] == if i < |sl| then sl[i] else if i == |sl| then c else sr[i - |sl| - 1];
        assert s[j] == if j < |sl| then sl[j] else if j == |sl| then c else sr[j - |sl| - 1];
        if i < |sl| && |sl| < j {
          LessEqTransitive(s[i].courseNumber, c.courseNumber, s[j].courseNumber);
        }
      }
  }

  /**
    The descent of `courseInformation`: stop at the first node whose number
    compares equal to `key`; otherwise go left when `key` compares below the
    node's number and right when it does not. A result is always a course of
    the tree with number `key`.
   */
  function Find(t: Tree, key: string): (r: Option<Course>)
    ensures r.Some? ==> r.value in Contents(t) && r.value.courseNumber == key
  {
    match t
    case Leaf => None
    case Branch(c, l, r) =>
      if Compare(c.courseNumber, key) == 0 then Some(c)
      else if Compare(key, c.courseNumber) < 0 then Find(l, key)
      else Find(r, key)
  }

  /** No number below a tree's lower bound, or at least its strict upper bound, is in it. */
  lemma {:induction false} BoundsExcludeKey(t: Tree, k: string, key: string)
    ensures AllBelow(t, k) && LessEq(k, key) ==> !HasKey(t, key)
    ensures AllAtLeast(t, k) && Less(key, k) ==> !HasKey(t, key)
  {
    match t
    case Leaf =>
    case Branch(c, l, r) =>
      BoundsExcludeKey(l, k, key);
      BoundsExcludeKey(r, k, key);
      if AllBelow(t, k) && LessEq(k, key) && c.courseNumber == key {
        LessLessEqTransitive(key, k, key);
      }
      if AllAtLeast(t, k) && Less(key, k) && c.courseNumber == key {
        LessLessEqTransitive(key, k, key);
      }
  }

  /** In a search tree the descent misses only a number that is not there. */
  lemma {:induction false} FindComplete(t: Tree, key: string)
    requires IsBst(t)
    ensures Find(t, key).None? <==> !HasKey(t, key)
  {
    match t
    case Leaf =>
    case Branch(c, l, r) =>
      if c.courseNumber != key {
        NotLessIsLessEq(key, c.courseNumber);
        BoundsExcludeKey(l, c.courseNumber, key);
        BoundsExcludeKey(r, c.courseNumber, key);
        FindComplete(l, key);
        FindComplete(r, key);
      }
  }

  /**
    What the descent finds after one more insertion, in any tree: a course
    it found before is still the one found (an equal number is inserted
    further down, on the right); a number it missed is now found exactly
    when it is the inserted course's.
   */
  lemma {:induction false} FindAfterInsert(t: Tree, c: Course, key: string)
    ensures Find(Insert(t, c), key) ==
      if Find(t, key).Some? then Find(t, key)
      else if c.courseNumber == key then Some(c)
      else None
  {
    match t
    case Leaf =>
    case Branch(x, l, r) =>
      CompareFlip(x.courseNumber, c.courseNumber);
      CompareFlip(key, x.courseNumber);
      if x.courseNumber != key {
        FindAfterInsert(l, c, key);
        FindAfterInsert(r, c, key);
      }
  }

  /**
    The tree after `loadCourses` has added `cs` to `t`, one course at a
    time in the order given.
   */
  function InsertAll(t: Tree, cs: seq<Course>): Tree {
    if cs == [] then t
    else Insert(InsertAll(t, cs[..|cs| - 1]), cs[|cs| - 1])
  }

  /** The loaded tree holds the courses it started with and those of `cs`. */
  lemma {:induction false} InsertAllContents(t: Tree, cs: seq<Course>)
    ensures Contents(InsertAll(t, cs)) == Contents(t) + multiset(cs)
  {
    if cs != [] {
      var n := |cs| - 1;
      InsertAllContents(t, cs[..n]);
      InsertContents(InsertAll(t, cs[..n]), cs[n]);
      MultisetOfLast(cs);
    }
  }

  /** Splitting off the last element of a sequence splits its multiset. */
  lemma MultisetOfLast<T>(s: seq<T>)
    requires s != []
    ensures multiset(s) == multiset(s[..|s| - 1]) + multiset{s[|s| - 1]}
  {
    assert s == s[..|s| - 1] + [s[|s| - 1]];
  }

  /** Adding courses one by one keeps the search-tree order. */
  lemma {:induction false} InsertAllPreservesBst(t: Tree, cs: seq<Course>)
    requires IsBst(t)
    ensures IsBst(InsertAll(t, cs))
  {
    if cs != [] {
      InsertAllPreservesBst(t, cs[..|cs| - 1]);
      InsertPreservesBst(InsertAll(t, cs[..|cs| - 1]), cs[|cs| - 1]);
    }
  }

  /**
    The sample schedule of the loaded courses lists each of them once and
    in non-decreasing order of course number.
   */
  lemma ScheduleOfLoaded(cs: seq<Course>)
    ensures SortedByNumber(InOrder(InsertAll(Leaf, cs)))
    ensures multiset(InOrder(InsertAll(Leaf, cs))) == multiset(cs)
  {
    InsertAllPreservesBst(Leaf, cs);
    InOrderSorted(InsertAll(Leaf, cs));
    InsertAllContents(Leaf, cs);
  }

  /** The earliest course in `cs` with number `key`, if any. */
  function FirstWithKey(cs: seq<Course>, key: string): (r: Option<Course>)
    ensures r.None? <==> forall i :: 0 <= i < |cs| ==> cs[i].courseNumber != key
    ensures r.Some? ==> r.value in cs && r.value.courseNumber == key
  {
    if cs == [] then None
    else if cs[0].courseNumber == key then Some(cs[0])
    else
      assert forall i :: 0 < i < |cs| ==> cs[i] == cs[1..][i - 1];
      FirstWithKey(cs[1..], key)
  }

  /** A course with number `key` preceded by none is the one `FirstWithKey` picks. */
  lemma {:induction false} FirstWithKeyIsEarliest(cs: seq<Course>, key: string, i: int)
    requires 0 <= i < |cs| && cs[i].courseNumber == key
    requires forall j :: 0 <= j < i ==> cs[j].courseNumber != key
    ensures FirstWithKey(cs, key) == Some(cs[i])
  {
    if i > 0 {
      FirstWithKeyIsEarliest(cs[1..], key, i - 1);
    }
  }

  /**
    The earliest match in `cs` is the one among all but its last course, or
    else the last course if that matches.
   */
  lemma {:induction false} FirstWithKeyLast(cs: seq<Course>, key: string)
    requires cs != []
    ensures FirstWithKey(cs, key) ==
      if FirstWithKey(cs[..|cs| - 1], key).Some? then FirstWithKey(cs[..|cs| - 1], key)
      else if cs[|cs| - 1].courseNumber == key then Some(cs[|cs| - 1])
      else None
  {
    if |cs| > 1 {
      assert cs[1..][..|cs| - 2] == cs[..|cs| - 1][1..];
      FirstWithKeyLast(cs[1..], key);
    }
  }

  /**
    Looking a number up in the loaded tree gives the first course with that
    number in the order they were added; later duplicates are never found.
   */
  lemma {:induction false} FindLoaded(cs: seq<Course>, key: string)
    ensures Find(InsertAll(Leaf, cs), key) == FirstWithKey(cs, key)
  {
    if cs != [] {
      var front, last := cs[..|cs| - 1], cs[|cs| - 1];
      var t := InsertAll(Leaf, front);
      assert InsertAll(Leaf, cs) == Insert(t, last);
      FindLoaded(front, key);
      FindAfterInsert(t, last, key);
      FirstWithKeyLast(cs, key);
    }
  }

  // ---------------------------------------------------------------------
  // Prerequisites
  // ---------------------------------------------------------------------

  /** The non-empty entries of `p`, in their order. */
  function NonEmpty(p: seq<string>): (r: seq<string>)
    ensures |r| <= |p|
    ensures forall i :: 0 <= i < |r| ==> |r[i]| > 0
  {
    if p == [] then []
    else
      var front := NonEmpty(p[..|p| - 1]);
      assert p == p[..|p| - 1] + [p[|p| - 1]];
      if |p[|p| - 1]| > 0 then front + [p[|p| - 1]] else front
  }

  /** Positions of `p` holding a non-empty string. */
  function NonEmptySlots(p: seq<string>): set<int> {
    set i | 0 <= i < |p| && |p[i]| > 0
  }

  /**
    `NumberPrerequisiteCourses` counts, with `NonEmpty`, the same slots: the
    number of non-empty entries is the number of positions holding one.
   */
  lemma {:induction false} NonEmptyCountsSlots(p: seq<string>)
    ensures |NonEmpty(p)| == |NonEmptySlots(p)|
  {
    if p != [] {
      var n := |p| - 1;
      NonEmptyCountsSlots(p[..n]);
      var before := NonEmptySlots(p[..n]);
      assert n !in before;
      if |p[n]| > 0 {
        assert NonEmptySlots(p) == before + {n};
      } else {
        assert NonEmptySlots(p) == before;
      }
    }
  }

  /** Empty slots between and after the real prerequisites are not counted. */
  lemma NonEmptyExample()
    ensures NonEmpty(["", "CS101", "", "CS200"]) == ["CS101", "CS200"]
  {
    var p := ["", "CS101", "", "CS200"];
    assert p[..1][..0] == [];
    assert NonEmpty(p[..1]) == [];
    assert p[..2][..1] == p[..1];
    assert NonEmpty(p[..2]) == ["CS101"];
    assert p[..3][..2] == p[..2];
    assert NonEmpty(p[..3]) == ["CS101"];
    assert p[..3] == p[..|p| - 1];
  }

  /** Filtering a concatenation filters each part. */
  lemma {:induction false} NonEmptyAppend(p: seq<string>, q: seq<string>)
    ensures NonEmpty(p + q) == NonEmpty(p) + NonEmpty(q)
  {
    if q == [] {
      assert p + q == p;
    } else {
      var n := |q| - 1;
      assert (p + q)[..|p + q| - 1] == p + q[..n];
      NonEmptyAppend(p, q[..n]);
    }
  }

  /** A list holding no empty entry is its own filter. */
  lemma {:induction false} NonEmptyOfFull(p: seq<string>)
    requires forall i :: 0 <= i < |p| ==> |p[i]| > 0
    ensures NonEmpty(p) == p
  {
    if p != [] {
      var n := |p| - 1;
      NonEmptyOfFull(p[..n]);
      assert p == p[..n] + [p[n]];
    }
  }

  /** A list of empty entries filters to nothing. */
  lemma {:induction false} NonEmptyOfBlank(p: seq<string>)
    requires forall i :: 0 <= i < |p| ==> |p[i]| == 0
    ensures NonEmpty(p) == []
  {
    if p != [] {
      NonEmptyOfBlank(p[..|p| - 1]);
    }
  }

  /** Every non-empty entry survives the filter. */
  lemma {:induction false} NonEmptyKeeps(p: seq<string>, i: int)
    requires 0 <= i < |p| && |p[i]| > 0
    ensures p[i] in NonEmpty(p)
  {
    var n := |p| - 1;
    if i < n {
      NonEmptyKeeps(p[..n], i);
    }
  }

  /**
    The evidently intended listing of `courseInformation` is `NonEmpty`:
    it is empty, and "None." is printed, exactly when every slot is empty.
   */
  lemma NonEmptyIsEmptyIffBlank(p: seq<string>)
    ensures NonEmpty(p) == [] <==> forall i :: 0 <= i < |p| ==> |p[i]| == 0
  {
    if forall i :: 0 <= i < |p| ==> |p[i]| == 0 {
      NonEmptyOfBlank(p);
    } else {
      var i :| 0 <= i < |p| && |p[i]| > 0;
      NonEmptyKeeps(p, i);
    }
  }

  /**
    Empty entries come only after the non-empty ones: the layout under
    which printing the first `count` entries shows every prerequisite.
   */
  predicate BlanksTrail(p: seq<string>) {
    forall i, j :: 0 <= i < j < |p| && |p[i]| == 0 ==> |p[j]| == 0
  }

  /**
    The entries `courseInformation` prints as written: the first
    `NumberPrerequisiteCourses` slots, whatever they hold. There are as
    many as there are non-empty entries, taken from the front.
   */
  function ShownPrerequisitesAsWritten(p: seq<string>): (r: seq<string>)
    ensures |r| == |NonEmpty(p)| && r <= p
  {
    p[..|NonEmpty(p)|]
  }

  /**
    A course whose first prerequisite slot is empty and whose second names
    a course: the listing as written shows only the empty slot and never
    the prerequisite.
   */
  lemma ShownAsWrittenMissesPrerequisite()
    ensures ShownPrerequisitesAsWritten(["", "CS101"]) == [""]
    ensures "CS101" !in ShownPrerequisitesAsWritten(["", "CS101"])
    ensures NonEmpty(["", "CS101"]) == ["CS101"]
  {
    var p := ["", "CS101"];
    assert p[..1] == [""];
    assert p[..1][..0] == [];
  }

  /** When empty slots only trail, the listing as written shows the same entries. */
  lemma {:induction false} ShownAgreeWhenBlanksTrail(p: seq<string>)
    requires BlanksTrail(p)
    ensures ShownPrerequisitesAsWritten(p) == NonEmpty(p)
  {
    if p != [] {
      var n := |p| - 1;
      if |p[n]| == 0 {
        ShownAgreeWhenBlanksTrail(p[..n]);
        assert p[..n][..|NonEmpty(p[..n])|] == p[..|NonEmpty(p[..n])|];
      } else {
        NonEmptyOfFull(p);
      }
    }
  }
}
