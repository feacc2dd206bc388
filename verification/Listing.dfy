/** What `fs_list` reports: the children of a directory in slot order, and how the listings
    of all directories divide the live nodes between them. */
module Listing {
  import opened Table
  import opened NodeTree
  import opened Refinement

  predicate ListedIn(t: Nodes, dir: int, i: int) {
    Live(t, i) && t[i].parent == dir && i != dir
  }

  /** The listed slots below `k`, in ascending order. */
  function ChildrenBelow(t: Nodes, dir: int, k: nat): (s: seq<int>)
    requires k <= |t|
    ensures |s| <= k
  {
    if k == 0 then []
    else ChildrenBelow(t, dir, k - 1) + (if ListedIn(t, dir, k - 1) then [k - 1] else [])
  }

  function Children(t: Nodes, dir: int): seq<int> {
    ChildrenBelow(t, dir, |t|)
  }

  lemma {:induction false} ChildrenBelowExact(t: Nodes, dir: int, k: nat)
    requires k <= |t|
    ensures forall i :: i in ChildrenBelow(t, dir, k) <==> 0 <= i < k && ListedIn(t, dir, i)
    ensures forall a, b :: 0 <= a < b < |ChildrenBelow(t, dir, k)|
                       ==> ChildrenBelow(t, dir, k)[a] < ChildrenBelow(t, dir, k)[b]
  {
    if k > 0 {
      ChildrenBelowExact(t, dir, k - 1);
      var s := ChildrenBelow(t, dir, k - 1);
      assert forall a :: 0 <= a < |s| ==> s[a] in s;
    }
  }

  /** A listing holds exactly the nodes whose path is one component longer than the
      directory's, each once and in slot order. */
  lemma ListingIsDirectory(t: Nodes, dir: nat, i: nat)
    requires Tree(t) && LiveDir(t, dir) && Live(t, i)
    ensures i in Children(t, dir) <==> exists c :: PathOf(t, i) == PathOf(t, dir) + [c]
    ensures forall a, b :: 0 <= a < b < |Children(t, dir)| ==> Children(t, dir)[a] < Children(t, dir)[b]
  {
    ChildrenBelowExact(t, dir, |t|);
    assert RootOk(t[0]);
    if i in Children(t, dir) {
      PathOfChild(t, i);
      assert PathOf(t, i) == PathOf(t, dir) + [t[i].Title()];
    }
    if exists c :: PathOf(t, i) == PathOf(t, dir) + [c] {
      var c :| PathOf(t, i) == PathOf(t, dir) + [c];
      PathOfChild(t, i);
      PathOfInjective(t, t[i].parent, dir);
      ParentFacts(t, i);
    }
  }

  /** Every live non-root node is listed by its parent and by no other slot. */
  lemma ListedOnce(t: Nodes, i: nat, dir: nat)
    requires Tree(t) && Live(t, i) && dir < |t|
    ensures i in Children(t, dir) <==> i != 0 && dir == t[i].parent
    ensures i != 0 ==> LiveDir(t, t[i].parent)
  {
    ChildrenBelowExact(t, dir, |t|);
    assert RootOk(t[0]);
    if i != 0 { ParentFacts(t, i); }
  }

  ghost function ListedBy(t: Nodes, dir: int, k: nat): set<nat>
    requires k <= |t|
  {
    set i: nat | i < k && ListedIn(t, dir, i)
  }

  lemma {:induction false} ChildrenCount(t: Nodes, dir: int, k: nat)
    requires k <= |t|
    ensures |ChildrenBelow(t, dir, k)| == |ListedBy(t, dir, k)|
  {
    if k > 0 {
      ChildrenCount(t, dir, k - 1);
      var r := ListedBy(t, dir, k - 1);
      assert ListedBy(t, dir, k) == if ListedIn(t, dir, k - 1) then r + {k - 1} else r;
    }
  }

  /** The sum of the `fs_list` counts of the directories in slots below `k`. */
  ghost function CountBelow(t: Nodes, k: nat): nat
    requires k <= |t|
  {
    if k == 0 then 0
    else CountBelow(t, k - 1) + (if LiveDir(t, k - 1) then |Children(t, k - 1)| else 0)
  }

  /** The nodes listed by a slot below `k`. */
  ghost function ListedBelow(t: Nodes, k: nat): set<nat>
    requires k <= |t|
  {
    set i: nat | i < |t| && t[i].used && t[i].parent != i && 0 <= t[i].parent < k
  }

  lemma OnlyDirsList(t: Nodes, d: nat)
    requires Tree(t) && d < |t| && !LiveDir(t, d)
    ensures ListedBy(t, d, |t|) == {}
  {
    assert RootOk(t[0]);
    forall i: nat | i < |t| ensures !ListedIn(t, d, i) {
      if Live(t, i) && i != 0 { ParentFacts(t, i); }
    }
  }

  lemma SplitBelow(t: Nodes, k: nat)
    requires k < |t|
    ensures |ListedBelow(t, k + 1)| == |ListedBelow(t, k)| + |ListedBy(t, k, |t|)|
  {
    var a, b := ListedBelow(t, k), ListedBy(t, k, |t|);
    assert ListedBelow(t, k + 1) == a + b;
    assert a * b == {};
  }

  lemma {:induction false} CountIsUnion(t: Nodes, k: nat)
    requires Tree(t) && k <= |t|
    ensures CountBelow(t, k) == |ListedBelow(t, k)|
  {
    if k > 0 {
      CountIsUnion(t, k - 1);
      ChildrenCount(t, k - 1, |t|);
      if !LiveDir(t, k - 1) { OnlyDirsList(t, k - 1); }
      SplitBelow(t, k - 1);
    } else {
      assert ListedBelow(t, 0) == {};
    }
  }

  lemma AllListed(t: Nodes)
    requires Tree(t)
    ensures ListedBelow(t, |t|) == LiveSet(t) - {0} && 0 in LiveSet(t)
  {
    assert RootOk(t[0]);
    forall i: nat | Live(t, i) && i != 0 ensures i in ListedBelow(t, |t|) {
      ParentFacts(t, i);
    }
  }

  /** The counts of all directories add up to the live nodes without the root. */
  lemma CountsSumToLive(t: Nodes)
    requires Tree(t)
    ensures CountBelow(t, |t|) == |LiveSet(t)| - 1 == |Abs(t)| - 1
  {
    CountIsUnion(t, |t|);
    AllListed(t);
    AbsSize(t);
  }
}
