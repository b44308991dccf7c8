/**
 * The ordered course store: an unbalanced binary search tree of course
 * records keyed by course number, compared the way `std::string::operator<`
 * compares (lexicographically by character code).
 */
module CourseStore {

  datatype Option<T> = None | Some(value: T)

  /** One course: its number (the key), its title and its prerequisites in input order. */
  datatype Course = Course(number: string, title: string, prerequisites: seq<string>)

  // ---------------------------------------------------------------- key order

  /** `a < b` on strings: the first differing character decides; a proper prefix comes first. */
  function Less(a: string, b: string): (lt: bool)
    ensures |a| < |b| && a == b[..|a|] ==> lt
    decreases |a|
  {
    if a == [] then b != []
    else if b == [] then false
    else if a[0] != b[0] then a[0] < b[0]
    else Less(a[1..], b[1..])
  }

  /** No key is below itself. */
  lemma {:induction false} LessIrreflexive(a: string)
    ensures !Less(a, a)
    decreases |a|
  {
    if a != [] {
      LessIrreflexive(a[1..]);
    }
  }

  /** Two different keys are ordered one way, and never both ways. */
  lemma {:induction false} LessTrichotomy(a: string, b: string)
    ensures a == b || Less(a, b) || Less(b, a)
    ensures !(Less(a, b) && Less(b, a))
    decreases |a|
  {
    if a != [] && b != [] && a[0] == b[0] {
      LessTrichotomy(a[1..], b[1..]);
      if a[1..] == b[1..] {
        assert a == [a[0]] + a[1..] && b == [b[0]] + b[1..];
      }
    }
  }

  /** The key order is transitive. */
  lemma {:induction false} LessTransitive(a: string, b: string, c: string)
    requires Less(a, b) && Less(b, c)
    ensures Less(a, c)
    decreases |a|
  {
    if a != [] && a[0] == b[0] && b[0] == c[0] {
      LessTransitive(a[1..], b[1..], c[1..]);
    }
  }

  // ---------------------------------------------------------------- the tree

  /** A subtree: absent, or a node owning one course and its two subtrees. */
  datatype Tree = Leaf | Node(left: Tree, data: Course, right: Tree)

  /** The tree's structure with the keys but without the payloads. */
  datatype Shape = Tip | Fork(left: Shape, key: string, right: Shape)

  function ShapeOf(t: Tree): Shape {
    match t
    case Leaf => Tip
    case Node(l, d, r) => Fork(ShapeOf(l), d.number, ShapeOf(r))
  }

  /** The course numbers stored in t. */
  function Keys(t: Tree): set<string> {
    match t
    case Leaf => {}
    case Node(l, d, r) => Keys(l) + {d.number} + Keys(r)
  }

  /** The records stored in t, by course number. */
  function Contents(t: Tree): map<string, Course> {
    match t
    case Leaf => map[]
    case Node(l, d, r) => Contents(l) + Contents(r) + map[d.number := d]
  }

  /** The binary-search-tree invariant: left keys are below the node key, right keys above it. */
  predicate Ordered(t: Tree) {
    match t
    case Leaf => true
    case Node(l, d, r) =>
      && (forall k :: k in Keys(l) ==> Less(k, d.number))
      && (forall k :: k in Keys(r) ==> Less(d.number, k))
      && Ordered(l) && Ordered(r)
  }

  /** `countNodes`. */
  function CountNodes(t: Tree): (n: nat)
    ensures n == 0 <==> t == Leaf
  {
    match t
    case Leaf => 0
    case Node(l, _, r) => 1 + CountNodes(l) + CountNodes(r)
  }

  /** `insertRec`: overwrite title and prerequisites on a key match, else descend; a new key becomes a leaf. */
  function InsertRec(t: Tree, c: Course): (r: Tree)
    ensures r != Leaf
    ensures CountNodes(t) <= CountNodes(r) <= CountNodes(t) + 1
  {
    match t
    case Leaf => Node(Leaf, c, Leaf)
    case Node(l, d, r) =>
      if c.number == d.number then Node(l, d.(title := c.title, prerequisites := c.prerequisites), r)
      else if Less(c.number, d.number) then Node(InsertRec(l, c), d, r)
      else Node(l, d, InsertRec(r, c))
  }

  /** The exact-key walk of `find`, written recursively. */
  function Lookup(t: Tree, k: string): (r: Option<Course>)
    ensures r.Some? ==> r.value.number == k && k in Keys(t)
  {
    match t
    case Leaf => None
    case Node(l, d, r) =>
      if k == d.number then Some(d)
      else if Less(k, d.number) then Lookup(l, k)
      else Lookup(r, k)
  }

  /** The in-order sequence of records `toVectorRec` collects. */
  function InOrder(t: Tree): (cs: seq<Course>)
    ensures |cs| == CountNodes(t)
  {
    match t
    case Leaf => []
    case Node(l, d, r) => InOrder(l) + [d] + InOrder(r)
  }

  /** Records in strictly ascending course-number order (so no number twice). */
  predicate Ascending(cs: seq<Course>) {
    forall i, j :: 0 <= i < j < |cs| ==> Less(cs[i].number, cs[j].number)
  }

  // ---------------------------------------------------------------- facts about the tree

  /** The keys of the contents map are the keys of the tree, and each record sits under its own number. */
  lemma {:induction false} ContentsKeys(t: Tree)
    ensures Contents(t).Keys == Keys(t)
    ensures forall k :: k in Contents(t) ==> Contents(t)[k].number == k
  {
    match t
    case Leaf =>
    case Node(l, d, r) =>
      ContentsKeys(l);
      ContentsKeys(r);
  }

  /** In an ordered tree, a key below the node key can only be in the left subtree, one above only in the right. */
  lemma SideOfKey(t: Tree, k: string)
    requires t.Node? && Ordered(t)
    ensures Less(k, t.data.number) ==> k !in Keys(t.right) && k != t.data.number
    ensures Less(t.data.number, k) ==> k !in Keys(t.left) && k != t.data.number
  {
    LessIrreflexive(k);
    forall k' | k' in Keys(t.right) ensures Less(t.data.number, k') {}
    if Less(k, t.data.number) && k in Keys(t.right) {
      LessTrichotomy(k, t.data.number);
    }
    if Less(t.data.number, k) && k in Keys(t.left) {
      LessTrichotomy(k, t.data.number);
    }
  }

  /** Inserting adds exactly the new record's number to the keys. */
  lemma {:induction false} InsertKeys(t: Tree, c: Course)
    ensures Keys(InsertRec(t, c)) == Keys(t) + {c.number}
  {
    match t
    case Leaf =>
    case Node(l, d, r) =>
      if c.number == d.number {
      } else if Less(c.number, d.number) {
        InsertKeys(l, c);
      } else {
        InsertKeys(r, c);
      }
  }

  /** `insert` keeps the binary-search-tree invariant. */
  lemma {:induction false} InsertOrdered(t: Tree, c: Course)
    requires Ordered(t)
    ensures Ordered(InsertRec(t, c))
  {
    match t
    case Leaf =>
    case Node(l, d, r) =>
      if c.number == d.number {
      } else if Less(c.number, d.number) {
        InsertOrdered(l, c);
        InsertKeys(l, c);
      } else {
        InsertOrdered(r, c);
        InsertKeys(r, c);
        LessTrichotomy(c.number, d.number);
      }
  }

  /** Upsert: the record for c's number becomes c and every other record stays as it was. */
  lemma {:induction false} InsertContents(t: Tree, c: Course)
    requires Ordered(t)
    ensures Contents(InsertRec(t, c)) == Contents(t)[c.number := c]
  {
    match t
    case Leaf =>
    case Node(l, d, r) =>
      var k := c.number;
      if k == d.number {
        assert d.(title := c.title, prerequisites := c.prerequisites) == c;
        UpdateAtNode(Contents(l), Contents(r), k, d, c);
      } else if Less(k, d.number) {
        InsertContents(l, c);
        SideOfKey(t, k);
        ContentsKeys(r);
        UpdateInLeft(Contents(l), Contents(r), k, c, d);
      } else {
        InsertContents(r, c);
        UpdateInRight(Contents(l), Contents(r), k, c, d);
      }
  }

  /** Map algebra for the node case of `InsertContents`: the node's own entry is overwritten. */
  lemma UpdateAtNode(a: map<string, Course>, b: map<string, Course>, k: string, d: Course, c: Course)
    ensures a + b + map[k := c] == (a + b + map[k := d])[k := c]
  {
  }

  /** Map algebra for descending left: the update survives the union when the right side lacks the key. */
  lemma UpdateInLeft(a: map<string, Course>, b: map<string, Course>, k: string, c: Course, d: Course)
    requires k !in b && k != d.number
    ensures a[k := c] + b + map[d.number := d] == (a + b + map[d.number := d])[k := c]
  {
  }

  /** Map algebra for descending right: the right side of a union wins anyway. */
  lemma UpdateInRight(a: map<string, Course>, b: map<string, Course>, k: string, c: Course, d: Course)
    requires k != d.number
    ensures a + b[k := c] + map[d.number := d] == (a + b + map[d.number := d])[k := c]
  {
  }

  /** Re-inserting an existing number keeps the tree's shape and node count: only that node's payload changes. */
  lemma {:induction false} InsertExistingShape(t: Tree, c: Course)
    requires Ordered(t) && c.number in Keys(t)
    ensures ShapeOf(InsertRec(t, c)) == ShapeOf(t)
    ensures CountNodes(InsertRec(t, c)) == CountNodes(t)
  {
    match t
    case Leaf =>
    case Node(l, d, r) =>
      if c.number == d.number {
      } else if Less(c.number, d.number) {
        SideOfKey(t, c.number);
        InsertExistingShape(l, c);
      } else {
        LessTrichotomy(c.number, d.number);
        SideOfKey(t, c.number);
        InsertExistingShape(r, c);
      }
  }

  /** A new number adds exactly one node. */
  lemma {:induction false} InsertNewCount(t: Tree, c: Course)
    requires c.number !in Keys(t)
    ensures CountNodes(InsertRec(t, c)) == CountNodes(t) + 1
  {
    match t
    case Leaf =>
    case Node(l, d, r) =>
      if Less(c.number, d.number) {
        InsertNewCount(l, c);
      } else {
        InsertNewCount(r, c);
      }
  }

  /** The recursive walk finds a record exactly when its key is stored, and then finds the stored record. */
  lemma {:induction false} LookupCorrect(t: Tree, k: string)
    requires Ordered(t)
    ensures Lookup(t, k) == if k in Contents(t) then Some(Contents(t)[k]) else None
  {
    match t
    case Leaf =>
    case Node(l, d, r) =>
      if k == d.number {
      } else if Less(k, d.number) {
        LookupCorrect(l, k);
        SideOfKey(t, k);
        ContentsKeys(r);
      } else {
        LookupCorrect(r, k);
        LessTrichotomy(k, d.number);
        SideOfKey(t, k);
        ContentsKeys(l);
      }
  }

  /** After inserting c, looking up c's number gives c and every other lookup is unchanged. */
  lemma InsertThenLookup(t: Tree, c: Course, k: string)
    requires Ordered(t)
    ensures Lookup(InsertRec(t, c), k) == if k == c.number then Some(c) else Lookup(t, k)
  {
    InsertOrdered(t, c);
    InsertContents(t, c);
    LookupCorrect(t, k);
    LookupCorrect(InsertRec(t, c), k);
  }

  /** Every listed record is the stored record for its number. */
  lemma {:induction false} InOrderSound(t: Tree)
    requires Ordered(t)
    ensures forall c :: c in InOrder(t) ==> c.number in Contents(t) && Contents(t)[c.number] == c
  {
    match t
    case Leaf =>
    case Node(l, d, r) =>
      InOrderSound(l);
      InOrderSound(r);
      ContentsKeys(l);
      ContentsKeys(r);
      LessIrreflexive(d.number);
      forall c | c in InOrder(t) ensures c.number in Contents(t) && Contents(t)[c.number] == c {
        if c in InOrder(l) {
          SideOfKey(t, c.number);
        } else if c in InOrder(r) {
          SideOfKey(t, c.number);
        }
      }
  }

  /** Every stored record is listed. */
  lemma {:induction false} InOrderComplete(t: Tree)
    ensures forall k :: k in Contents(t) ==> Contents(t)[k] in InOrder(t)
  {
    match t
    case Leaf =>
    case Node(l, d, r) =>
      InOrderComplete(l);
      InOrderComplete(r);
  }

  /** The in-order listing holds exactly the stored records. */
  lemma InOrderMembers(t: Tree)
    requires Ordered(t)
    ensures forall c :: c in InOrder(t) <==> c.number in Contents(t) && Contents(t)[c.number] == c
  {
    InOrderSound(t);
    InOrderComplete(t);
  }

  /** The in-order listing is strictly ascending by course number. */
  lemma {:induction false} InOrderAscending(t: Tree)
    requires Ordered(t)
    ensures Ascending(InOrder(t))
  {
    match t
    case Leaf =>
    case Node(l, d, r) =>
      InOrderAscending(l);
      InOrderAscending(r);
      InOrderKeys(l);
      InOrderKeys(r);
      var s := InOrder(t);
      var nl := |InOrder(l)|;
      forall i, j | 0 <= i < j < |s| ensures Less(s[i].number, s[j].number) {
        if j < nl {
          assert s[i] == InOrder(l)[i] && s[j] == InOrder(l)[j];
        } else if j == nl {
          assert s[i] == InOrder(l)[i];
        } else if i > nl {
          assert s[i] == InOrder(r)[i - nl - 1] && s[j] == InOrder(r)[j - nl - 1];
        } else if i == nl {
          assert s[j] == InOrder(r)[j - nl - 1];
        } else {
          assert s[i] == InOrder(l)[i] && s[j] == InOrder(r)[j - nl - 1];
          LessTransitive(s[i].number, d.number, s[j].number);
        }
      }
  }

  /** Every listed record carries a key of the tree. */
  lemma {:induction false} InOrderKeys(t: Tree)
    ensures forall i :: 0 <= i < |InOrder(t)| ==> InOrder(t)[i].number in Keys(t)
  {
    match t
    case Leaf =>
    case Node(l, d, r) =>
      InOrderKeys(l);
      InOrderKeys(r);
      var s := InOrder(t);
      var nl := |InOrder(l)|;
      forall i | 0 <= i < |s| ensures s[i].number in Keys(t) {
        if i < nl {
          assert s[i] == InOrder(l)[i];
        } else if i > nl {
          assert s[i] == InOrder(r)[i - nl - 1];
        }
      }
  }

  /** Numbers are unique in an ordered tree: it has exactly one node per distinct key. */
  lemma {:induction false} CountDistinctKeys(t: Tree)
    requires Ordered(t)
    ensures CountNodes(t) == |Keys(t)|
  {
    match t
    case Leaf =>
    case Node(l, d, r) =>
      CountDistinctKeys(l);
      CountDistinctKeys(r);
      SideOfKey(t, d.number);
      LessIrreflexive(d.number);
      forall k | k in Keys(l) ensures k !in Keys(r) {
        SideOfKey(t, k);
      }
      assert Keys(l) !! Keys(r);
      assert Keys(t) == Keys(l) + Keys(r) + {d.number};
  }

  // ---------------------------------------------------------------- the class

  /** `CourseBST`: owns the root of the tree; every operation goes through it. */
  class CourseBST {
    var root: Tree

    ghost predicate Valid()
      reads this
    {
      Ordered(root)
    }

    /** The records the store holds, by course number. */
    ghost function Catalog(): map<string, Course>
      reads this
    {
      Contents(root)
    }

    constructor ()
      ensures Valid() && root == Leaf && Catalog() == map[]
    {
      root := Leaf;
    }

    /** `insert`: upsert c by its number. */
    method Insert(c: Course)
      requires Valid()
      modifies this
      ensures Valid()
      ensures root == InsertRec(old(root), c)
      ensures Catalog() == old(Catalog())[c.number := c]
      ensures Keys(root) == Keys(old(root)) + {c.number}
      ensures c.number in Keys(old(root)) ==>
                ShapeOf(root) == ShapeOf(old(root)) && CountNodes(root) == CountNodes(old(root))
      ensures c.number !in Keys(old(root)) ==> CountNodes(root) == CountNodes(old(root)) + 1
    {
      InsertOrdered(root, c);
      InsertContents(root, c);
      InsertKeys(root, c);
      if c.number in Keys(root) {
        InsertExistingShape(root, c);
      } else {
        InsertNewCount(root, c);
      }
      root := InsertRec(root, c);
    }

    /** `find`: walk `cur` down from the root; None plays the null pointer. */
    method Find(courseNum: string) returns (r: Option<Course>)
      requires Valid()
      ensures r.None? <==> courseNum !in Catalog()
      ensures r.Some? ==> r.value == Catalog()[courseNum]
    {
      var cur := root;
      LookupCorrect(root, courseNum);
      while cur.Node?
        invariant Lookup(cur, courseNum) == Lookup(root, courseNum)
        decreases cur
      {
        if courseNum == cur.data.number {
          return Some(cur.data);
        }
        if Less(courseNum, cur.data.number) {
          cur := cur.left;
        } else {
          cur := cur.right;
        }
      }
      return None;
    }

    /** `toVector`: all records, in ascending course-number order. */
    method ToVector() returns (out: seq<Course>)
      requires Valid()
      ensures out == InOrder(root)
      ensures Ascending(out)
      ensures |out| == CountNodes(root)
      ensures forall c :: c in out <==> c.number in Catalog() && Catalog()[c.number] == c
    {
      out := ToVectorRec(root, []);
      InOrderAscending(root);
      InOrderMembers(root);
    }

    /** `toVectorRec`: append the subtree's records to `out`, left subtree, node, right subtree. */
    static method ToVectorRec(node: Tree, out: seq<Course>) returns (res: seq<Course>)
      ensures res == out + InOrder(node)
    {
      match node
      case Leaf =>
        res := out;
      case Node(l, d, r) =>
        res := ToVectorRec(l, out);
        res := res + [d];
        res := ToVectorRec(r, res);
    }

    /** `empty`: the store holds no record. */
    function Empty(): (b: bool)
      reads this
      ensures b <==> CountNodes(root) == 0
      ensures b <==> Keys(root) == {}
    {
      root == Leaf
    }
  }
}
