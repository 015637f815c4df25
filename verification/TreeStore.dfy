/** The two binary search trees over byte blocks of a fixed size.  Both are heap nodes linked by
    pointers; `Tree` is the shape they are proved to have. */
module TreeStore {
  import opened Bytes

  datatype Tree = Leaf | Branch(left: Tree, item: bytes, right: Tree)

  /** `memcmp` on two blocks of the same size, from position `i` on: the sign of the difference. */
  function Compare(a: bytes, b: bytes, i: nat): (r: int)
    requires |a| == |b| && i <= |a|
    ensures r == 0 <==> a[i..] == b[i..]
    decreases |a| - i
  {
    if i == |a| then 0
    else if a[i] < b[i] then -1
    else if a[i] > b[i] then 1
    else
      assert a[i..] == [a[i]] + a[i + 1..] && b[i..] == [b[i]] + b[i + 1..];
      Compare(a, b, i + 1)
  }

  /** The first byte in which the blocks differ decides. */
  lemma {:induction false} FirstDifference(a: bytes, b: bytes, i: nat)
    requires |a| == |b| && i <= |a|
    ensures Compare(a, b, i) < 0 <==> exists j :: i <= j < |a| && a[i..j] == b[i..j] && a[j] < b[j]
    decreases |a| - i
  {
    if i < |a| {
      FirstDifference(a, b, i + 1);
      if a[i] < b[i] {
        assert a[i..i] == b[i..i];
      }
      forall j | i < j < |a| && a[i] == b[i] ensures a[i..j] == b[i..j] <==> a[i + 1..j] == b[i + 1..j] {
        assert a[i..j] == [a[i]] + a[i + 1..j] && b[i..j] == [b[i]] + b[i + 1..j];
      }
      forall j | i < j < |a| && a[i..j] == b[i..j] ensures a[i] == b[i] {
        assert a[i..j][0] == b[i..j][0];
      }
    }
  }

  predicate Less(a: bytes, b: bytes) {
    |a| == |b| && Compare(a, b, 0) < 0
  }

  lemma {:induction false} CompareFlips(a: bytes, b: bytes, i: nat)
    requires |a| == |b| && i <= |a|
    ensures Compare(b, a, i) == -Compare(a, b, i)
    decreases |a| - i
  {
    if i < |a| && a[i] == b[i] {
      CompareFlips(a, b, i + 1);
    }
  }

  lemma {:induction false} CompareTransitive(a: bytes, b: bytes, c: bytes, i: nat)
    requires |a| == |b| == |c| && i <= |a| && Compare(a, b, i) < 0 && Compare(b, c, i) < 0
    ensures Compare(a, c, i) < 0
    decreases |a| - i
  {
    if i < |a| && a[i] == b[i] == c[i] {
      CompareTransitive(a, b, c, i + 1);
    }
  }

  ghost function Items(t: Tree): set<bytes> {
    match t case Leaf => {} case Branch(l, x, r) => Items(l) + {x} + Items(r)
  }

  function Count(t: Tree): nat {
    match t case Leaf => 0 case Branch(l, _, r) => Count(l) + 1 + Count(r)
  }

  /** Strictly ordered, all blocks `n` bytes long. */
  ghost predicate Ordered(t: Tree, n: nat) {
    match t
    case Leaf => true
    case Branch(l, x, r) =>
      && |x| == n && Ordered(l, n) && Ordered(r, n)
      && (forall y :: y in Items(l) ==> |y| == n && Less(y, x))
      && (forall y :: y in Items(r) ==> |y| == n && Less(x, y))
  }

  predicate Sized(t: Tree, n: nat) {
    t.Branch? ==> |t.item| == n && Sized(t.left, n) && Sized(t.right, n)
  }

  function Inserted(t: Tree, x: bytes): Tree
    requires Sized(t, |x|)
  {
    match t
    case Leaf => Branch(Leaf, x, Leaf)
    case Branch(l, y, r) =>
      if Compare(x, y, 0) == 0 then t
      else if Compare(x, y, 0) < 0 then Branch(Inserted(l, x), y, r)
      else Branch(l, y, Inserted(r, x))
  }

  predicate Found(t: Tree, x: bytes)
    requires Sized(t, |x|)
  {
    match t
    case Leaf => false
    case Branch(l, y, r) =>
      if Compare(x, y, 0) == 0 then true
      else if Compare(x, y, 0) < 0 then Found(l, x)
      else Found(r, x)
  }

  lemma {:induction false} OrderedIsSized(t: Tree, n: nat)
    requires Ordered(t, n)
    ensures Sized(t, n)
  {
    match t
    case Leaf =>
    case Branch(l, _, r) =>
      OrderedIsSized(l, n);
      OrderedIsSized(r, n);
  }

  lemma {:induction false} InsertedIsSized(t: Tree, x: bytes)
    requires Sized(t, |x|)
    ensures Sized(Inserted(t, x), |x|)
  {
    match t
    case Leaf =>
    case Branch(l, _, r) =>
      InsertedIsSized(l, x);
      InsertedIsSized(r, x);
  }

  lemma SameBlock(x: bytes, y: bytes)
    requires |x| == |y| && Compare(x, y, 0) == 0
    ensures x == y
  {
    assert x == x[0..] == y[0..] == y;
  }

  /** A larger subtree below `y` on one side keeps the order, if what is new is on that side. */
  lemma GrownLeft(l: Tree, y: bytes, r: Tree, x: bytes, l': Tree)
    requires Ordered(Branch(l, y, r), |x|) && |x| == |y| && Less(x, y)
    requires Ordered(l', |x|) && Items(l') == Items(l) + {x}
    ensures Ordered(Branch(l', y, r), |x|)
    ensures Items(Branch(l', y, r)) == Items(Branch(l, y, r)) + {x}
  {
    hide Less;
  }

  lemma GrownRight(l: Tree, y: bytes, r: Tree, x: bytes, r': Tree)
    requires Ordered(Branch(l, y, r), |x|) && |x| == |y| && Less(y, x)
    requires Ordered(r', |x|) && Items(r') == Items(r) + {x}
    ensures Ordered(Branch(l, y, r'), |x|)
    ensures Items(Branch(l, y, r')) == Items(Branch(l, y, r)) + {x}
  {
    hide Less;
  }

  /** Insertion adds the block to the set of stored ones and keeps the order. */
  lemma {:induction false} InsertAddsItem(t: Tree, x: bytes)
    requires Ordered(t, |x|)
    ensures Sized(t, |x|)
    ensures Items(Inserted(t, x)) == Items(t) + {x} && Ordered(Inserted(t, x), |x|)
  {
    hide Compare;
    OrderedIsSized(t, |x|);
    match t
    case Leaf =>
    case Branch(l, y, r) =>
      if Compare(x, y, 0) == 0 {
        SameBlock(x, y);
      } else if Compare(x, y, 0) < 0 {
        InsertAddsItem(l, x);
        GrownLeft(l, y, r, x, Inserted(l, x));
      } else {
        CompareFlips(x, y, 0);
        InsertAddsItem(r, x);
        GrownRight(l, y, r, x, Inserted(r, x));
      }
  }

  /** Search answers membership. */
  lemma {:induction false} FoundIsMember(t: Tree, x: bytes)
    requires Ordered(t, |x|)
    ensures Sized(t, |x|)
    ensures Found(t, x) <==> x in Items(t)
  {
    OrderedIsSized(t, |x|);
    match t
    case Leaf =>
    case Branch(l, y, r) =>
      FoundIsMember(l, x);
      FoundIsMember(r, x);
      CompareFlips(x, y, 0);
      if Compare(x, y, 0) == 0 {
        assert x == x[0..] == y[0..] == y;
      } else {
        assert x[0..] == x && y[0..] == y;
        assert x in Items(r) ==> Less(y, x);
        assert x in Items(l) ==> Less(x, y);
      }
  }

  /** Nothing is stored twice. */
  lemma {:induction false} CountIsCardinality(t: Tree, n: nat)
    requires Ordered(t, n)
    ensures Count(t) == |Items(t)|
  {
    match t
    case Leaf =>
    case Branch(l, x, r) =>
      CountIsCardinality(l, n);
      CountIsCardinality(r, n);
      NotBelowItself(x);
      forall y | y in Items(l) ensures y !in Items(r) {
        if y in Items(r) {
          CompareFlips(x, y, 0);
        }
      }
      assert Items(l) !! {x} && (Items(l) + {x}) !! Items(r);
  }

  lemma NotBelowItself(x: bytes)
    ensures !Less(x, x)
  {
    CompareFlips(x, x, 0);
  }

  /** All the insertions of a run into an empty store. */
  function Grown(xs: seq<bytes>, n: nat): (t: Tree)
    requires forall i :: 0 <= i < |xs| ==> |xs[i]| == n
    ensures Sized(t, n)
  {
    if xs == [] then Leaf
    else
      var t := Grown(xs[..|xs| - 1], n);
      InsertedIsSized(t, xs[|xs| - 1]);
      Inserted(t, xs[|xs| - 1])
  }

  lemma {:induction false} GrownIsOrdered(xs: seq<bytes>, n: nat)
    requires forall i :: 0 <= i < |xs| ==> |xs[i]| == n
    ensures Ordered(Grown(xs, n), n)
    ensures Items(Grown(xs, n)) == set y | y in xs
    decreases |xs|
  {
    hide Inserted, Ordered, Sized;
    if xs == [] {
      NothingStored(n);
    } else {
      var init, last := xs[..|xs| - 1], xs[|xs| - 1];
      GrownIsOrdered(init, n);
      InsertAddsItem(Grown(init, n), last);
      assert xs == init + [last];
      assert (set y | y in xs) == (set y | y in init) + {last};
    }
  }

  lemma NothingStored(n: nat)
    ensures Ordered(Leaf, n) && Items(Leaf) == {}
  {
  }

  /** After any run of insertions the store is the ordered set of the distinct blocks inserted:
      search answers membership and the count is the number of different blocks. */
  lemma StoreIsSet(xs: seq<bytes>, n: nat, x: bytes)
    requires forall i :: 0 <= i < |xs| ==> |xs[i]| == n
    requires |x| == n
    ensures Ordered(Grown(xs, n), n)
    ensures Found(Grown(xs, n), x) <==> x in xs
    ensures Count(Grown(xs, n)) == |set y | y in xs|
  {
    hide Grown, Ordered, Found, Count;
    GrownIsOrdered(xs, n);
    FoundIsMember(Grown(xs, n), x);
    CountIsCardinality(Grown(xs, n), n);
  }

  // ---------------------------------------------------------------- nodes

  class Node {
    const data: bytes
    var left: Node?
    var right: Node?
    ghost var shape: Tree
    ghost var repr: set<Node>

    constructor (data: bytes)
      ensures Valid() && fresh(repr) && shape == Branch(Leaf, data, Leaf)
    {
      this.data := data;
      left, right := null, null;
      shape, repr := Branch(Leaf, data, Leaf), {this};
    }

    ghost predicate Valid()
      reads this, repr
      decreases repr
    {
      && this in repr
      && (left != null ==> left in repr && left.repr <= repr && this !in left.repr && left.Valid())
      && (right != null ==> right in repr && right.repr <= repr && this !in right.repr && right.Valid())
      && (left != null && right != null ==> left.repr !! right.repr)
      && shape == Branch(if left == null then Leaf else left.shape, data, if right == null then Leaf else right.shape)
    }

    /** Hang a subtree below on the left; the right one is still as it was. */
    method LinkLeft(child: Node?)
      requires ValidAt(child) && ValidAt(right) && ReprOf(child) !! ReprOf(right)
      requires this !in ReprOf(child) && this !in ReprOf(right)
      modifies this
      ensures Valid() && shape == Branch(ShapeOf(child), data, ShapeOf(right))
      ensures repr == {this} + ReprOf(child) + ReprOf(right) && right == old(right)
    {
      left := child;
      repr := {this} + ReprOf(child) + ReprOf(right);
      shape := Branch(ShapeOf(child), data, ShapeOf(right));
    }

    method LinkRight(child: Node?)
      requires ValidAt(child) && ValidAt(left) && ReprOf(child) !! ReprOf(left)
      requires this !in ReprOf(child) && this !in ReprOf(left)
      modifies this
      ensures Valid() && shape == Branch(ShapeOf(left), data, ShapeOf(child))
      ensures repr == {this} + ReprOf(left) + ReprOf(child) && left == old(left)
    {
      right := child;
      repr := {this} + ReprOf(left) + ReprOf(child);
      shape := Branch(ShapeOf(left), data, ShapeOf(child));
    }

    /** The two subtrees of a valid node are valid and apart. */
    lemma Subtrees()
      requires Valid()
      ensures ValidAt(left) && ValidAt(right) && ReprOf(left) !! ReprOf(right)
      ensures this !in ReprOf(left) && this !in ReprOf(right)
      ensures ReprOf(left) < repr && ReprOf(right) < repr
      ensures shape == Branch(ShapeOf(left), data, ShapeOf(right))
    {
      assert this in repr;
    }
  }

  ghost function ShapeOf(n: Node?): Tree
    reads n
  {
    if n == null then Leaf else n.shape
  }

  ghost function ReprOf(n: Node?): set<Node>
    reads n
  {
    if n == null then {} else n.repr
  }

  ghost predicate ValidAt(n: Node?)
    reads n, ReprOf(n)
  {
    n != null ==> n.Valid()
  }

  // ---------------------------------------------------------------- the plain store

  /** `BTreeStore`. */
  class BTreeStore {
    const sz: nat
    var root: Node?
    var unitCounter: nat

    constructor (size: nat)
      ensures Valid() && sz == size && ShapeOf(root) == Leaf && fresh(ReprOf(root))
    {
      sz := size;
      root, unitCounter := null, 0;
    }

    ghost predicate Valid()
      reads this, root, ReprOf(root)
    {
      ValidAt(root) && Ordered(ShapeOf(root), sz) && unitCounter == Count(ShapeOf(root))
    }

    /** `insert`: nothing happens when the block is stored already. */
    method Insert(data: bytes)
      requires Valid() && |data| == sz
      modifies this, ReprOf(root)
      ensures Valid() && fresh(ReprOf(root) - old(ReprOf(root)))
      ensures Sized(old(ShapeOf(root)), sz) && ShapeOf(root) == Inserted(old(ShapeOf(root)), data)
      ensures Items(ShapeOf(root)) == old(Items(ShapeOf(root))) + {data}
    {
      ghost var t := ShapeOf(root);
      InsertAddsItem(t, data);
      root := InsertAt(data, root);
      assert ShapeOf(root) == Inserted(t, data);
      assert Ordered(ShapeOf(root), sz);
      assert ValidAt(root);
    }

    method Search(data: bytes) returns (found: bool)
      requires Valid() && |data| == sz
      ensures found <==> data in Items(ShapeOf(root))
    {
      FoundIsMember(ShapeOf(root), data);
      var n := SearchAt(data, root);
      found := n != null;
    }

    method InsertAt(data: bytes, n: Node?) returns (m: Node)
      requires |data| == sz && ValidAt(n) && Sized(ShapeOf(n), sz)
      modifies this`unitCounter, ReprOf(n)
      ensures m.Valid() && m.shape == Inserted(old(ShapeOf(n)), data)
      ensures (n != null ==> m == n) && fresh(m.repr - old(ReprOf(n)))
      ensures unitCounter == old(unitCounter) + Count(m.shape) - Count(old(ShapeOf(n)))
      decreases ReprOf(n), 1
    {
      hide Compare;
      if n == null {
        m := Create(data);
        return;
      }
      m := n;
      var cmpres := Compare(data, n.data, 0);
      if cmpres == 0 {
        return;
      }
      if cmpres < 0 {
        InsertLeft(data, n);
      } else {
        InsertRight(data, n);
      }
    }

    method InsertLeft(data: bytes, n: Node)
      requires |data| == sz && n.Valid() && Sized(n.shape, sz)
      modifies this`unitCounter, n.repr
      ensures n.Valid() && fresh(n.repr - old(n.repr))
      ensures n.shape == Branch(Inserted(old(n.shape.left), data), n.data, old(n.shape.right))
      ensures unitCounter == old(unitCounter) + Count(n.shape) - Count(old(n.shape))
      decreases n.repr, 0
    {
      hide Inserted;
      n.Subtrees();
      ghost var right := n.right;
      var l := InsertAt(data, n.left);
      assert n.right == right;
      n.LinkLeft(l);
    }

    method InsertRight(data: bytes, n: Node)
      requires |data| == sz && n.Valid() && Sized(n.shape, sz)
      modifies this`unitCounter, n.repr
      ensures n.Valid() && fresh(n.repr - old(n.repr))
      ensures n.shape == Branch(old(n.shape.left), n.data, Inserted(old(n.shape.right), data))
      ensures unitCounter == old(unitCounter) + Count(n.shape) - Count(old(n.shape))
      decreases n.repr, 0
    {
      hide Inserted;
      n.Subtrees();
      ghost var left := n.left;
      var r := InsertAt(data, n.right);
      assert n.left == left;
      n.LinkRight(r);
    }

    method SearchAt(data: bytes, n: Node?) returns (found: Node?)
      requires |data| == sz && ValidAt(n) && Sized(ShapeOf(n), sz)
      ensures found != null <==> Found(ShapeOf(n), data)
      decreases ReprOf(n)
    {
      hide Compare;
      if n == null {
        return null;
      }
      var cmpres := Compare(data, n.data, 0);
      if cmpres == 0 {
        return n;
      }
      if cmpres < 0 {
        found := SearchAt(data, n.left);
      } else {
        found := SearchAt(data, n.right);
      }
    }

    method Create(data: bytes) returns (m: Node)
      modifies this`unitCounter
      ensures m.Valid() && fresh(m.repr) && m.shape == Branch(Leaf, data, Leaf)
      ensures unitCounter == old(unitCounter) + 1
    {
      m := new Node(data);
      unitCounter := unitCounter + 1;
    }
  }

  // ---------------------------------------------------------------- the fused store

  /** `btreeCpp::BTreeStore`, whose search also inserts. */
  class FusedStore {
    const dataSize: nat
    var root: Node?
    var unitCounter: nat

    constructor (size: nat)
      ensures Valid() && dataSize == size && ShapeOf(root) == Leaf && fresh(ReprOf(root))
    {
      dataSize := size;
      root, unitCounter := null, 0;
    }

    ghost predicate Valid()
      reads this, root, ReprOf(root)
    {
      ValidAt(root) && Ordered(ShapeOf(root), dataSize) && unitCounter == Count(ShapeOf(root))
    }

    /** `insert(const std::string &)`: a block of another size is refused. */
    method Insert(data: bytes) returns (ok: bool)
      requires Valid()
      modifies this, ReprOf(root)
      ensures Valid() && fresh(ReprOf(root) - old(ReprOf(root))) && (ok <==> |data| == dataSize)
      ensures ok ==> Sized(old(ShapeOf(root)), dataSize) && ShapeOf(root) == Inserted(old(ShapeOf(root)), data)
      ensures Items(ShapeOf(root)) == old(Items(ShapeOf(root))) + if ok then {data} else {}
    {
      if |data| != dataSize {
        return false;
      }
      InsertAddsItem(ShapeOf(root), data);
      var found;
      root, found := SearchAt(data, root, true);
      ok := true;
    }

    method Search(data: bytes) returns (found: bool)
      requires Valid() && |data| == dataSize
      modifies this, ReprOf(root)
      ensures Valid() && ShapeOf(root) == old(ShapeOf(root)) && unitCounter == old(unitCounter)
      ensures found <==> data in Items(ShapeOf(root))
    {
      FoundIsMember(ShapeOf(root), data);
      root, found := SearchAt(data, root, false);
    }

    /** `_search` with `add_new`. */
    method SearchAt(data: bytes, n: Node?, addNew: bool) returns (m: Node?, found: bool)
      requires |data| == dataSize && ValidAt(n) && Sized(ShapeOf(n), dataSize)
      modifies this`unitCounter, ReprOf(n)
      ensures ValidAt(m) && (n != null ==> m == n) && fresh(ReprOf(m) - old(ReprOf(n)))
      ensures ShapeOf(m) == if addNew then Inserted(old(ShapeOf(n)), data) else old(ShapeOf(n))
      ensures found == (addNew || Found(old(ShapeOf(n)), data))
      ensures unitCounter == old(unitCounter) + Count(ShapeOf(m)) - Count(old(ShapeOf(n)))
      decreases ReprOf(n), 1
    {
      hide Compare;
      m := n;
      if n == null {
        if addNew {
          m := Create(data);
        }
        return m, addNew;
      }
      var cmpres := Compare(data, n.data, 0);
      if cmpres == 0 {
        return m, true;
      }
      if cmpres < 0 {
        found := SearchLeft(data, n, addNew);
      } else {
        found := SearchRight(data, n, addNew);
      }
    }

    method SearchLeft(data: bytes, n: Node, addNew: bool) returns (found: bool)
      requires |data| == dataSize && n.Valid() && Sized(n.shape, dataSize)
      modifies this`unitCounter, n.repr
      ensures n.Valid() && fresh(n.repr - old(n.repr))
      ensures n.shape == Branch(if addNew then Inserted(old(n.shape.left), data) else old(n.shape.left), n.data,
                                old(n.shape.right))
      ensures found == (addNew || Found(old(n.shape.left), data))
      ensures unitCounter == old(unitCounter) + Count(n.shape) - Count(old(n.shape))
      decreases n.repr, 0
    {
      hide Inserted, Found;
      n.Subtrees();
      ghost var right := n.right;
      var child;
      child, found := SearchAt(data, n.left, addNew);
      assert n.right == right;
      n.LinkLeft(child);
    }

    method SearchRight(data: bytes, n: Node, addNew: bool) returns (found: bool)
      requires |data| == dataSize && n.Valid() && Sized(n.shape, dataSize)
      modifies this`unitCounter, n.repr
      ensures n.Valid() && fresh(n.repr - old(n.repr))
      ensures n.shape == Branch(old(n.shape.left), n.data,
                                if addNew then Inserted(old(n.shape.right), data) else old(n.shape.right))
      ensures found == (addNew || Found(old(n.shape.right), data))
      ensures unitCounter == old(unitCounter) + Count(n.shape) - Count(old(n.shape))
      decreases n.repr, 0
    {
      hide Inserted, Found;
      n.Subtrees();
      ghost var left := n.left;
      var child;
      child, found := SearchAt(data, n.right, addNew);
      assert n.left == left;
      n.LinkRight(child);
    }

    method Create(data: bytes) returns (m: Node)
      modifies this`unitCounter
      ensures m.Valid() && fresh(m.repr) && m.shape == Branch(Leaf, data, Leaf)
      ensures unitCounter == old(unitCounter) + 1
    {
      m := new Node(data);
      unitCounter := unitCounter + 1;
    }
  }
}
