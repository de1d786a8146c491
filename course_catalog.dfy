/**
  The course planner's binary search tree as the program keeps it: heap
  nodes linked by `left` and `right` pointers and a tree object holding
  the root. Each node carries, as ghost state, the `Tree` value of the
  subtree it roots (`Model`) and the set of nodes in that subtree (`Repr`),
  so every operation can be stated against the functions of `CourseTree`.
 */
module CourseCatalog {
  import opened StringOrder
  import opened CourseTree

  /** `struct Node`: one course and the two child pointers. */
  class Node {
    var course: Course
    var left: Node?
    var right: Node?
    ghost var Model: Tree
    ghost var Repr: set<object>

    /**
      The nodes below this one form a tree: each child's nodes lie inside
      this node's `Repr`, without this node, the two children share none,
      and `Model` is the course with the children's models.
     */
    ghost predicate Valid()
      reads this, Repr
      decreases Repr
    {
      && this in Repr
      && (left != null ==> left in Repr && left.Repr <= Repr && this !in left.Repr && left.Valid())
      && (right != null ==> right in Repr && right.Repr <= Repr && this !in right.Repr && right.Valid())
      && (left != null && right != null ==> left.Repr !! right.Repr)
      && Model == Branch(course, ModelOf(left), ModelOf(right))
    }

    /** `Node(Course firstCourse)`: a leaf holding the course. */
    constructor (c: Course)
      ensures Valid() && fresh(Repr)
      ensures Model == Branch(c, Leaf, Leaf)
    {
      course := c;
      left := null;
      right := null;
      Model := Branch(c, Leaf, Leaf);
      Repr := {this};
    }
  }

  /** The tree rooted at `n`; a null pointer is the empty tree. */
  ghost function ModelOf(n: Node?): Tree
    reads n
  {
    if n == null then Leaf else n.Model
  }

  /** `class CourseBinarySearchTree`. */
  class CourseBinarySearchTree {
    var root: Node?
    ghost var Model: Tree
    ghost var Repr: set<object>

    /** The nodes from `root` form a tree, modelled by `Model`, and it is a search tree. */
    ghost predicate Valid()
      reads this, Repr
    {
      && this in Repr
      && (root != null ==>
            root in Repr && root.Repr <= Repr && this !in root.Repr && root.Valid())
      && Model == ModelOf(root)
      && IsBst(Model)
    }

    /** The constructor: `root = nullptr`, an empty catalogue. */
    constructor ()
      ensures Valid() && fresh(Repr)
      ensures Model == Leaf
    {
      root := null;
      Model := Leaf;
      Repr := {this};
    }

    /**
      `Add`: an empty tree gets the course as its root; otherwise `addNode`
      inserts it below the root. The new tree is `Insert` of the old one,
      and still a search tree.
     */
    method Add(c: Course)
      requires Valid()
      modifies Repr
      ensures Valid() && fresh(Repr - old(Repr))
      ensures Model == Insert(old(Model), c)
    {
      if root == null {
        root := new Node(c);
      } else {
        AddNode(root, c);
      }
      InsertPreservesBst(Model, c);
      Model := root.Model;
      Repr := {this} + root.Repr;
    }

    /**
      `addNode`: go left when the node's number compares greater than the
      new one, right otherwise, and hang a new leaf on the first null child
      on the way.
     */
    method AddNode(node: Node, c: Course)
      requires node.Valid()
      modifies node.Repr
      ensures node.Valid() && fresh(node.Repr - old(node.Repr))
      ensures node.Model == Insert(old(node.Model), c)
      decreases node.Repr
    {
      if Compare(node.course.courseNumber, c.courseNumber) > 0 {
        if node.left == null {
          node.left := new Node(c);
        } else {
          AddNode(node.left, c);
        }
        node.Repr := node.Repr + node.left.Repr;
      } else {
        if node.right == null {
          node.right := new Node(c);
        } else {
          AddNode(node.right, c);
        }
        node.Repr := node.Repr + node.right.Repr;
      }
      node.Model := Branch(node.course, ModelOf(node.left), ModelOf(node.right));
    }

    /**
      `NumberPrerequisiteCourses`: the number of non-empty prerequisite
      slots, counted in one pass.
     */
    method NumberPrerequisiteCourses(c: Course) returns (count: int)
      ensures count == |NonEmpty(c.prerequisite)|
      ensures count == |NonEmptySlots(c.prerequisite)|
      ensures 0 <= count <= |c.prerequisite|
    {
      var p := c.prerequisite;
      count := 0;
      for i := 0 to |p|
        invariant count == |NonEmpty(p[..i])|
      {
        assert p[..i + 1][..i] == p[..i];
        if |p[i]| > 0 {
          count := count + 1;
        }
      }
      assert p[..|p|] == p;
      NonEmptyCountsSlots(p);
    }

    /**
      `SampleSchedule`: the courses in the order `sampleSchedule` prints
      them, which lists every course of the catalogue once, sorted by
      course number.
     */
    method SampleSchedule() returns (s: seq<Course>)
      requires Valid()
      ensures s == InOrder(Model)
      ensures SortedByNumber(s) && multiset(s) == Contents(Model)
    {
      s := SampleScheduleFrom(root);
      InOrderSorted(Model);
    }

    /** `sampleSchedule(node)`: left subtree, the node, right subtree. */
    method SampleScheduleFrom(node: Node?) returns (s: seq<Course>)
      requires node != null ==> node.Valid()
      ensures s == InOrder(ModelOf(node))
      decreases if node == null then {} else node.Repr
    {
      if node == null {
        s := [];
      } else {
        var l := SampleScheduleFrom(node.left);
        var r := SampleScheduleFrom(node.right);
        s := l + [node.course] + r;
      }
    }

    /**
      `CourseInformation(courseNumber)`: the course `courseInformation`
      displays, or `None` when it reports the number missing. It finds a
      course exactly when the catalogue holds one with that number, and the
      one it finds has it.
     */
    method CourseInformation(key: string) returns (r: Option<Course>)
      requires Valid()
      ensures r.Some? <==> HasKey(Model, key)
      ensures r.Some? <==> exists x :: x in Contents(Model) && x.courseNumber == key
      ensures r.Some? ==> r.value.courseNumber == key && r.value in Contents(Model)
      ensures r == Find(Model, key)
    {
      r := CourseInformationFrom(root, key);
      FindComplete(Model, key);
      HasKeyIsHeld(Model, key);
    }

    /**
      `courseInformation(curr, courseNumber)`: walk down from `curr`,
      stopping at a node whose number compares equal, else going left
      when the number sought compares below the node's and right when not.
     */
    method CourseInformationFrom(node: Node?, key: string) returns (r: Option<Course>)
      requires node != null ==> node.Valid()
      ensures r == Find(ModelOf(node), key)
    {
      var curr := node;
      while curr != null
        invariant curr != null ==> curr.Valid()
        invariant Find(ModelOf(node), key) == Find(ModelOf(curr), key)
        decreases if curr == null then {} else curr.Repr
      {
        if Compare(curr.course.courseNumber, key) == 0 {
          return Some(curr.course);
        } else if Compare(key, curr.course.courseNumber) < 0 {
          curr := curr.left;
        } else {
          curr := curr.right;
        }
      }
      return None;
    }
  }
}
