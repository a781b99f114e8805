/**
 * The editor's list, recast as an immutable value.
 *
 * The page keeps its list as nested `<ul class="sub-list">` elements: a
 * top-level list, and inside it `li` elements of three classes. An `item`
 * has a checkbox and a sub-list of its own, a `radio-group` has a disabled
 * checkbox (its flag), a `data-group-name` and a sub-list of options, and a
 * `radio-option` holds one radio input and no sub-list. This module gives
 * that structure as a datatype, addresses nodes by index paths, and provides
 * the few structural edits the event handlers are made of, with the frame
 * and accounting facts about them.
 */
module Tree {

  /** A group's name attribute is formed from one reading of the page clock;
      two names are equal exactly when the readings are. */
  type GroupName = nat

  /** The index in the top-level list, then the index in each nested list. */
  type Path = seq<nat>

  datatype Node =
    | Item(text: string, checked: bool, children: seq<Node>)
    | Group(text: string, name: GroupName, flag: bool, children: seq<Node>)
    | Option(text: string, name: GroupName, selected: bool)

  /** The nodes of a node's own sub-list; an option has none. */
  function ChildrenOf(n: Node): seq<Node>
  {
    if n.Option? then [] else n.children
  }

  /** The node with its sub-list replaced; an option has no sub-list to replace. */
  function WithChildren(n: Node, cs: seq<Node>): Node
  {
    if n.Option? then n else n.(children := cs)
  }

  /** The node's own attributes, without its descendants. */
  function Shell(n: Node): Node
  {
    WithChildren(n, [])
  }

  // ---------------------------------------------------------------------
  // Addressing
  // ---------------------------------------------------------------------

  predicate ValidPath(f: seq<Node>, p: Path)
    decreases |p|
  {
    |p| > 0 && p[0] < |f| && (|p| == 1 || ValidPath(ChildrenOf(f[p[0]]), p[1..]))
  }

  function NodeAt(f: seq<Node>, p: Path): Node
    requires ValidPath(f, p)
    decreases |p|
  {
    if |p| == 1 then f[p[0]] else NodeAt(ChildrenOf(f[p[0]]), p[1..])
  }

  /** A list is named by the path of the node that owns it, [] naming the
      top-level list. Only items and groups own a sub-list. */
  predicate ValidList(f: seq<Node>, l: Path)
  {
    l == [] || (ValidPath(f, l) && !NodeAt(f, l).Option?)
  }

  function ListAt(f: seq<Node>, l: Path): seq<Node>
    requires ValidList(f, l)
  {
    if l == [] then f else ChildrenOf(NodeAt(f, l))
  }

  function Parent(p: Path): Path
    requires |p| > 0
  {
    p[..|p| - 1]
  }

  function Last(p: Path): nat
    requires |p| > 0
  {
    p[|p| - 1]
  }

  // ---------------------------------------------------------------------
  // Structural edits
  // ---------------------------------------------------------------------

  /** The forest with the node at `p` (and its subtree) replaced by `n`. */
  function ReplaceAt(f: seq<Node>, p: Path, n: Node): (r: seq<Node>)
    requires ValidPath(f, p)
    ensures |r| == |f|
    decreases |p|
  {
    var i := p[0];
    if |p| == 1 then f[i := n]
    else f[i := WithChildren(f[i], ReplaceAt(ChildrenOf(f[i]), p[1..], n))]
  }

  /** The forest with the list `l` replaced by `cs`. */
  function ReplaceList(f: seq<Node>, l: Path, cs: seq<Node>): seq<Node>
    requires ValidList(f, l)
  {
    if l == [] then cs else ReplaceAt(f, l, WithChildren(NodeAt(f, l), cs))
  }

  /** `s` with its element `i` taken out. */
  function Without<T>(s: seq<T>, i: nat): (r: seq<T>)
    requires i < |s|
    ensures |r| == |s| - 1
    ensures forall j :: 0 <= j < i ==> r[j] == s[j]
    ensures forall j :: i <= j < |r| ==> r[j] == s[j + 1]
  {
    s[..i] + s[i + 1..]
  }

  /** The forest with the node at `p` and its whole subtree taken out of its list. */
  function RemoveAt(f: seq<Node>, p: Path): seq<Node>
    requires ValidPath(f, p)
  {
    ChildPath(f, p);
    ReplaceList(f, Parent(p), Without(ListAt(f, Parent(p)), Last(p)))
  }

  /** The forest with `n` appended as the last node of the list `l`. */
  function AppendAt(f: seq<Node>, l: Path, n: Node): seq<Node>
    requires ValidList(f, l)
  {
    ReplaceList(f, l, ListAt(f, l) + [n])
  }

  // ---------------------------------------------------------------------
  // Additive measures: a weight per node, summed over a forest
  // ---------------------------------------------------------------------

  /** The sum of `w` over the node and its descendants, each weighed without
      its descendants. */
  function NodeWeight(n: Node, w: Node -> nat): nat
    decreases n
  {
    match n
    case Option(_, _, _) => w(n)
    case Item(_, _, cs) => w(Shell(n)) + Weight(cs, w)
    case Group(_, _, _, cs) => w(Shell(n)) + Weight(cs, w)
  }

  function Weight(f: seq<Node>, w: Node -> nat): nat
    decreases f
  {
    if f == [] then 0 else NodeWeight(f[0], w) + Weight(f[1..], w)
  }

  function CountOne(n: Node): nat { 1 }

  function CountOptions(n: Node): nat { if n.Option? then 1 else 0 }

  /** The number of nodes in a forest. */
  function Size(f: seq<Node>): nat { Weight(f, CountOne) }

  /** The number of nodes in a node's subtree, itself included. */
  function SubtreeSize(n: Node): nat { NodeWeight(n, CountOne) }

  // ---------------------------------------------------------------------
  // Path lemmas
  // ---------------------------------------------------------------------

  lemma PrefixTail(p: Path, q: Path)
    requires |p| > 0 && |q| > 0 && p[0] == q[0]
    ensures p <= q <==> p[1..] <= q[1..]
  {
    assert p == [p[0]] + p[1..];
    assert q == [q[0]] + q[1..];
  }

  /** A proper prefix of a path is a prefix of the path's parent. */
  lemma StrictPrefixParent(q: Path, p: Path)
    requires q < p
    ensures q <= Parent(p)
  {
    assert p[..|q|] == Parent(p)[..|q|];
  }

  /** A path extended by `s` addresses, inside the node at `p`, the path `s`. */
  lemma {:induction false} PathConcat(f: seq<Node>, p: Path, s: Path)
    requires ValidPath(f, p) && |s| > 0
    ensures ValidPath(f, p + s) <==> ValidPath(ChildrenOf(NodeAt(f, p)), s)
    ensures ValidPath(f, p + s) ==> NodeAt(f, p + s) == NodeAt(ChildrenOf(NodeAt(f, p)), s)
    decreases |p|
  {
    var ps := p + s;
    assert ps[0] == p[0];
    if |p| == 1 {
      assert ps[1..] == s;
    } else {
      assert ps[1..] == p[1..] + s;
      PathConcat(ChildrenOf(f[p[0]]), p[1..], s);
    }
  }

  /** Every non-empty prefix of a valid path is valid. */
  lemma {:induction false} PrefixValid(f: seq<Node>, p: Path, q: Path)
    requires ValidPath(f, p) && |q| > 0 && q <= p
    ensures ValidPath(f, q)
    decreases |p|
  {
    if |q| > 1 {
      PrefixTail(q, p);
      PrefixValid(ChildrenOf(f[p[0]]), p[1..], q[1..]);
    }
  }

  /** A path that goes deeper than one level passes through an item or a group. */
  lemma DeepPathOwner(f: seq<Node>, p: Path)
    requires ValidPath(f, p)
    ensures |p| > 1 ==> !f[p[0]].Option?
  {
  }

  /** Every proper ancestor of a valid path is an item or a group. */
  lemma AncestorNotOption(f: seq<Node>, p: Path, q: Path)
    requires ValidPath(f, p) && |q| > 0 && q < p
    ensures ValidPath(f, q) && !NodeAt(f, q).Option?
  {
    PrefixValid(f, p, q);
    assert p == q + p[|q|..];
    PathConcat(f, q, p[|q|..]);
  }

  /** A valid path names a node of the list that its parent path names. */
  lemma ChildPath(f: seq<Node>, p: Path)
    requires ValidPath(f, p)
    ensures ValidList(f, Parent(p))
    ensures Last(p) < |ListAt(f, Parent(p))|
    ensures NodeAt(f, p) == ListAt(f, Parent(p))[Last(p)]
  {
    if |p| == 1 {
      assert p == [Last(p)];
    } else {
      ChildPathDeep(f, p);
    }
  }

  lemma ChildPathDeep(f: seq<Node>, p: Path)
    requires ValidPath(f, p) && |p| > 1
    ensures ValidPath(f, Parent(p))
    ensures ValidPath(ChildrenOf(NodeAt(f, Parent(p))), [Last(p)])
    ensures NodeAt(f, p) == ChildrenOf(NodeAt(f, Parent(p)))[Last(p)]
  {
    var l, i := Parent(p), Last(p);
    PrefixValid(f, p, l);
    assert p == l + [i];
    PathConcat(f, l, [i]);
  }

  /** Conversely, an index into a list extends the list's path to a node. */
  lemma ChildPathConverse(f: seq<Node>, l: Path, i: nat)
    requires ValidList(f, l) && i < |ListAt(f, l)|
    ensures ValidPath(f, l + [i]) && Parent(l + [i]) == l && Last(l + [i]) == i
    ensures NodeAt(f, l + [i]) == ListAt(f, l)[i]
  {
    assert Parent(l + [i]) == l;
    if l != [] {
      PathConcat(f, l, [i]);
    }
  }

  // ---------------------------------------------------------------------
  // Frame lemmas
  // ---------------------------------------------------------------------

  /** After a replacement, the new node sits at its path. */
  lemma {:induction false} ReplaceAtHit(f: seq<Node>, p: Path, n: Node)
    requires ValidPath(f, p)
    ensures ValidPath(ReplaceAt(f, p, n), p)
    ensures NodeAt(ReplaceAt(f, p, n), p) == n
    decreases |p|
  {
    if |p| > 1 {
      ReplaceAtHit(ChildrenOf(f[p[0]]), p[1..], n);
    }
  }

  /** A replacement at `p` changes nothing outside the subtree at `p`, except
      that the ancestors of `p` carry the new subtree: their own attributes
      stay as they were. */
  lemma {:induction false} ReplaceAtFrame(f: seq<Node>, p: Path, n: Node, q: Path)
    requires ValidPath(f, p) && !(p <= q)
    ensures ValidPath(ReplaceAt(f, p, n), q) <==> ValidPath(f, q)
    ensures ValidPath(f, q) ==> Shell(NodeAt(ReplaceAt(f, p, n), q)) == Shell(NodeAt(f, q))
    ensures ValidPath(f, q) && !(q <= p) ==> NodeAt(ReplaceAt(f, p, n), q) == NodeAt(f, q)
    decreases |p|
  {
    var r := ReplaceAt(f, p, n);
    if |q| == 0 || q[0] >= |f| {
      return;
    }
    var i := p[0];
    if q[0] != i {
      assert r[q[0]] == f[q[0]];
    } else {
      PrefixTail(p, q);
      assert |p| > 1;
      var kids := ChildrenOf(f[i]);
      assert ChildrenOf(r[i]) == ReplaceAt(kids, p[1..], n);
      if |q| > 1 {
        PrefixTail(q, p);
        ReplaceAtFrame(kids, p[1..], n, q[1..]);
      }
    }
  }

  /** After a list replacement, the list holds the new nodes and its owner
      keeps its own attributes. */
  lemma ReplaceListHit(f: seq<Node>, l: Path, cs: seq<Node>)
    requires ValidList(f, l)
    ensures ValidList(ReplaceList(f, l, cs), l)
    ensures ListAt(ReplaceList(f, l, cs), l) == cs
    ensures l != [] ==> Shell(NodeAt(ReplaceList(f, l, cs), l)) == Shell(NodeAt(f, l))
  {
    if l != [] {
      ReplaceAtHit(f, l, WithChildren(NodeAt(f, l), cs));
    }
  }

  /** A list replacement changes nothing outside the owner's subtree, and
      leaves the attributes of the owner and of its ancestors alone. */
  lemma ReplaceListFrame(f: seq<Node>, l: Path, cs: seq<Node>, q: Path)
    requires ValidList(f, l) && !(l < q)
    ensures ValidPath(ReplaceList(f, l, cs), q) <==> ValidPath(f, q)
    ensures ValidPath(f, q) ==> Shell(NodeAt(ReplaceList(f, l, cs), q)) == Shell(NodeAt(f, q))
    ensures ValidPath(f, q) && !(q <= l) ==> NodeAt(ReplaceList(f, l, cs), q) == NodeAt(f, q)
  {
    if l != [] {
      var n := WithChildren(NodeAt(f, l), cs);
      if l <= q {
        assert q == l;
        ReplaceAtHit(f, l, n);
      } else {
        ReplaceAtFrame(f, l, n, q);
      }
    }
  }


  /** A replacement that keeps the node's sub-list, such as a change of the
      node's own attributes, leaves every path valid as before and every node
      that is not the replaced one or one of its ancestors as it was. */
  lemma ReplaceShellFrame(f: seq<Node>, p: Path, n: Node, q: Path)
    requires ValidPath(f, p)
    requires n.Option? == NodeAt(f, p).Option? && ChildrenOf(n) == ChildrenOf(NodeAt(f, p))
    ensures ValidPath(ReplaceAt(f, p, n), q) <==> ValidPath(f, q)
    ensures ValidPath(f, q) && q != p ==> Shell(NodeAt(ReplaceAt(f, p, n), q)) == Shell(NodeAt(f, q))
    ensures ValidPath(f, q) && !(q <= p) ==> NodeAt(ReplaceAt(f, p, n), q) == NodeAt(f, q)
  {
    var r := ReplaceAt(f, p, n);
    ReplaceAtHit(f, p, n);
    if !(p <= q) {
      ReplaceAtFrame(f, p, n, q);
    } else if p != q {
      var s := q[|p|..];
      assert q == p + s;
      PathConcat(f, p, s);
      PathConcat(r, p, s);
    }
  }

  /** Replacing a node and then one of its ancestors is the same as replacing
      the ancestor alone. */
  lemma {:induction false} ReplaceAtOverwrite(f: seq<Node>, q: Path, a: Node, l: Path, n: Node)
    requires ValidPath(f, q) && |l| > 0 && l <= q
    ensures ValidPath(f, l) && ValidPath(ReplaceAt(f, q, a), l)
    ensures ReplaceAt(ReplaceAt(f, q, a), l, n) == ReplaceAt(f, l, n)
    decreases |l|
  {
    PrefixValid(f, q, l);
    if l == q {
      ReplaceAtHit(f, q, a);
    } else {
      ReplaceAtFrame(f, q, a, l);
    }
    if |l| > 1 {
      PrefixTail(l, q);
      ReplaceAtOverwrite(ChildrenOf(f[q[0]]), q[1..], a, l[1..], n);
    }
  }

  /** Replacing the node at `l + [j]` replaces entry `j` of the list `l`. */
  lemma {:induction false} ReplaceChild(f: seq<Node>, l: Path, j: nat, x: Node)
    requires ValidList(f, l) && j < |ListAt(f, l)|
    ensures ValidPath(f, l + [j])
    ensures ReplaceAt(f, l + [j], x) == ReplaceList(f, l, ListAt(f, l)[j := x])
    decreases |l|
  {
    ChildPathConverse(f, l, j);
    if l != [] {
      var lj := l + [j];
      assert lj[0] == l[0] && lj[1..] == l[1..] + [j];
      var kids := ChildrenOf(f[l[0]]);
      if |l| > 1 {
        ReplaceChild(kids, l[1..], j, x);
      } else {
        assert l[1..] + [j] == [j];
      }
    }
  }


  /** Two nodes with the same own attributes take the same sub-list alike. */
  lemma WithChildrenShell(a: Node, b: Node, cs: seq<Node>)
    requires Shell(a) == Shell(b)
    ensures WithChildren(a, cs) == WithChildren(b, cs)
  {
  }

  /** Removing a node discards whatever was written at its place. */
  lemma RemoveAtOwnEntry(f: seq<Node>, p: Path, y: Node)
    requires ValidPath(f, p)
    ensures ValidPath(ReplaceAt(f, p, y), p)
    ensures RemoveAt(ReplaceAt(f, p, y), p) == RemoveAt(f, p)
  {
    var l := Parent(p);
    var i := Last(p);
    ChildPath(f, p);
    assert p == l + [i];
    ReplaceChild(f, l, i, y);
    var f1 := ReplaceAt(f, p, y);
    ReplaceListHit(f, l, ListAt(f, l)[i := y]);
    ReplaceAtHit(f, p, y);
    assert Without(ListAt(f1, l), i) == Without(ListAt(f, l), i);
    var cs := Without(ListAt(f, l), i);
    if l != [] {
      var n := WithChildren(NodeAt(f, l), cs);
      WithChildrenShell(NodeAt(f1, l), NodeAt(f, l), cs);
      ReplaceAtOverwrite(f, p, y, l, n);
    }
  }

  // ---------------------------------------------------------------------
  // Weight lemmas
  // ---------------------------------------------------------------------

  lemma NodeWeightShell(n: Node, w: Node -> nat)
    ensures NodeWeight(n, w) == w(Shell(n)) + Weight(ChildrenOf(n), w)
  {
  }

  lemma {:induction false} WeightConcat(a: seq<Node>, b: seq<Node>, w: Node -> nat)
    ensures Weight(a + b, w) == Weight(a, w) + Weight(b, w)
    decreases |a|
  {
    if a != [] {
      assert (a + b)[0] == a[0];
      assert (a + b)[1..] == a[1..] + b;
      WeightConcat(a[1..], b, w);
    } else {
      assert a + b == b;
    }
  }

  lemma WeightSingle(n: Node, w: Node -> nat)
    ensures Weight([n], w) == NodeWeight(n, w)
  {
    assert [n][1..] == [];
  }

  /** Taking one node out of a list takes out exactly that node's weight. */
  lemma {:induction false} WeightWithout(s: seq<Node>, i: nat, w: Node -> nat)
    requires i < |s|
    ensures Weight(Without(s, i), w) + NodeWeight(s[i], w) == Weight(s, w)
    decreases i
  {
    var r := Without(s, i);
    if i == 0 {
      assert r == s[1..];
    } else {
      assert r[0] == s[0];
      assert r[1..] == Without(s[1..], i - 1);
      WeightWithout(s[1..], i - 1, w);
    }
  }

  lemma WeightUpdate(s: seq<Node>, i: nat, x: Node, w: Node -> nat)
    requires i < |s|
    ensures Weight(s[i := x], w) + NodeWeight(s[i], w) == Weight(s, w) + NodeWeight(x, w)
  {
    WeightWithout(s, i, w);
    WeightWithout(s[i := x], i, w);
    assert Without(s[i := x], i) == Without(s, i);
  }

  /** A replacement trades the weight of the old subtree for the new one's. */
  lemma {:induction false} ReplaceAtWeight(f: seq<Node>, p: Path, n: Node, w: Node -> nat)
    requires ValidPath(f, p)
    ensures Weight(ReplaceAt(f, p, n), w) + NodeWeight(NodeAt(f, p), w)
         == Weight(f, w) + NodeWeight(n, w)
    decreases |p|
  {
    var i := p[0];
    if |p| == 1 {
      WeightUpdate(f, i, n, w);
    } else {
      var kids := ChildrenOf(f[i]);
      var x := WithChildren(f[i], ReplaceAt(kids, p[1..], n));
      ReplaceAtWeight(kids, p[1..], n, w);
      NodeWeightShell(x, w);
      NodeWeightShell(f[i], w);
      WeightUpdate(f, i, x, w);
    }
  }

  /** A list replacement trades the weight of the old list for the new one's. */
  lemma ReplaceListWeight(f: seq<Node>, l: Path, cs: seq<Node>, w: Node -> nat)
    requires ValidList(f, l)
    ensures Weight(ReplaceList(f, l, cs), w) + Weight(ListAt(f, l), w)
         == Weight(f, w) + Weight(cs, w)
  {
    if l != [] {
      var x := NodeAt(f, l);
      ReplaceAtWeight(f, l, WithChildren(x, cs), w);
      NodeWeightShell(x, w);
      NodeWeightShell(WithChildren(x, cs), w);
    }
  }



  /** A list of options counts one radio per entry. */
  lemma {:induction false} AllOptionsCount(cs: seq<Node>)
    requires forall i :: 0 <= i < |cs| ==> cs[i].Option?
    ensures Weight(cs, CountOptions) == |cs|
    decreases |cs|
  {
    if cs != [] {
      AllOptionsCount(cs[1..]);
    }
  }

  /** A node of a list weighs no more than the list. */
  lemma WeightAtLeastOne(s: seq<Node>, i: nat, w: Node -> nat)
    requires i < |s|
    ensures NodeWeight(s[i], w) <= Weight(s, w)
  {
    WeightWithout(s, i, w);
  }

  /** Two different nodes of a list weigh together no more than the list. */
  lemma WeightAtLeastTwo(s: seq<Node>, i: nat, j: nat, w: Node -> nat)
    requires i < |s| && j < |s| && i != j
    ensures NodeWeight(s[i], w) + NodeWeight(s[j], w) <= Weight(s, w)
  {
    WeightWithout(s, i, w);
    var t := Without(s, i);
    var j' := if j < i then j else j - 1;
    assert t[j'] == s[j];
    WeightAtLeastOne(t, j', w);
  }

  /** A subtree weighs no more than the forest it sits in. */
  lemma {:induction false} WeightSubtree(f: seq<Node>, p: Path, w: Node -> nat)
    requires ValidPath(f, p)
    ensures NodeWeight(NodeAt(f, p), w) <= NodeWeight(f[p[0]], w) <= Weight(f, w)
    decreases |p|
  {
    WeightAtLeastOne(f, p[0], w);
    if |p| > 1 {
      var kids := ChildrenOf(f[p[0]]);
      WeightSubtree(kids, p[1..], w);
      NodeWeightShell(f[p[0]], w);
    }
  }

  /** Two different positions of a forest weigh, each on its own, no more
      than the whole forest. */
  lemma {:induction false} WeightDistinctPaths(f: seq<Node>, p: Path, q: Path, w: Node -> nat)
    requires ValidPath(f, p) && ValidPath(f, q) && p != q
    ensures w(Shell(NodeAt(f, p))) + w(Shell(NodeAt(f, q))) <= Weight(f, w)
    decreases |p|
  {
    NodeWeightShell(NodeAt(f, p), w);
    NodeWeightShell(NodeAt(f, q), w);
    WeightSubtree(f, p, w);
    WeightSubtree(f, q, w);
    if p[0] != q[0] {
      WeightAtLeastTwo(f, p[0], q[0], w);
    } else {
      var x := f[p[0]];
      var kids := ChildrenOf(x);
      NodeWeightShell(x, w);
      if |p| == 1 {
        WeightSubtree(kids, q[1..], w);
        NodeWeightShell(NodeAt(kids, q[1..]), w);
      } else if |q| == 1 {
        WeightSubtree(kids, p[1..], w);
        NodeWeightShell(NodeAt(kids, p[1..]), w);
      } else {
        assert p == [p[0]] + p[1..] && q == [q[0]] + q[1..];
        WeightDistinctPaths(kids, p[1..], q[1..], w);
      }
    }
  }

  // ---------------------------------------------------------------------
  // Unchecking a radio button group
  // ---------------------------------------------------------------------

  /** The node with every radio named `m` in its subtree unchecked. */
  function UncheckNode(n: Node, m: GroupName): Node
    decreases n
  {
    match n
    case Option(t, nm, sel) => if nm == m then Option(t, nm, false) else n
    case Item(t, c, cs) => Item(t, c, UncheckAll(cs, m))
    case Group(t, nm, fl, cs) => Group(t, nm, fl, UncheckAll(cs, m))
  }

  function UncheckAll(f: seq<Node>, m: GroupName): (r: seq<Node>)
    ensures |r| == |f|
    decreases f
  {
    seq(|f|, i requires 0 <= i < |f| => UncheckNode(f[i], m))
  }

  /** Unchecking keeps the shape of the forest: every path stays valid and
      addresses the unchecked version of the node it addressed. */
  lemma {:induction false} UncheckShape(f: seq<Node>, m: GroupName, q: Path)
    ensures ValidPath(UncheckAll(f, m), q) <==> ValidPath(f, q)
    ensures ValidPath(f, q) ==> NodeAt(UncheckAll(f, m), q) == UncheckNode(NodeAt(f, q), m)
    decreases |q|
  {
    if |q| > 1 && q[0] < |f| {
      var x := f[q[0]];
      assert ChildrenOf(UncheckNode(x, m)) == UncheckAll(ChildrenOf(x), m);
      UncheckShape(ChildrenOf(x), m, q[1..]);
    }
  }

  /** Unchecking leaves any measure alone that does not look at the radios
      it unchecks. */
  lemma {:induction false} UncheckWeight(f: seq<Node>, m: GroupName, w: Node -> nat)
    requires forall x: Node :: w(UncheckNode(x, m)) == w(x)
    ensures Weight(UncheckAll(f, m), w) == Weight(f, w)
    decreases f
  {
    if f != [] {
      var u := UncheckAll(f, m);
      assert u[0] == UncheckNode(f[0], m);
      assert u[1..] == UncheckAll(f[1..], m);
      UncheckWeight(f[1..], m, w);
      match f[0]
      case Option(_, _, _) =>
      case Item(t, c, cs) =>
        UncheckWeight(cs, m, w);
        assert Shell(u[0]) == UncheckNode(Shell(f[0]), m);
      case Group(t, nm, fl, cs) =>
        UncheckWeight(cs, m, w);
        assert Shell(u[0]) == UncheckNode(Shell(f[0]), m);
    }
  }

  /** Unchecking zeroes any measure that counts only the radios it unchecks. */
  lemma {:induction false} UncheckWeightZero(f: seq<Node>, m: GroupName, w: Node -> nat)
    requires forall x: Node :: w(UncheckNode(x, m)) == 0
    ensures Weight(UncheckAll(f, m), w) == 0
    decreases f
  {
    if f != [] {
      var u := UncheckAll(f, m);
      assert u[0] == UncheckNode(f[0], m);
      assert u[1..] == UncheckAll(f[1..], m);
      UncheckWeightZero(f[1..], m, w);
      match f[0]
      case Option(_, _, _) =>
      case Item(t, c, cs) =>
        UncheckWeightZero(cs, m, w);
        assert Shell(u[0]) == UncheckNode(Shell(f[0]), m);
      case Group(t, nm, fl, cs) =>
        UncheckWeightZero(cs, m, w);
        assert Shell(u[0]) == UncheckNode(Shell(f[0]), m);
    }
  }

  // ---------------------------------------------------------------------
  // Removal and appending
  // ---------------------------------------------------------------------

  /** Removing the node at `p` takes exactly its subtree out of the forest:
      its list loses that one entry, every other entry of the list is the same
      subtree as before, nothing outside the list owner's subtree changes, and
      the owner and its ancestors keep their own attributes. */
  lemma {:induction false} RemoveAtSpec(f: seq<Node>, p: Path, w: Node -> nat)
    requires ValidPath(f, p)
    ensures ValidList(f, Parent(p)) && Last(p) < |ListAt(f, Parent(p))|
    ensures ValidList(RemoveAt(f, p), Parent(p))
    ensures ListAt(RemoveAt(f, p), Parent(p)) == Without(ListAt(f, Parent(p)), Last(p))
    ensures Weight(RemoveAt(f, p), w) + NodeWeight(NodeAt(f, p), w) == Weight(f, w)
  {
    var l := Parent(p);
    ChildPath(f, p);
    var cs := Without(ListAt(f, l), Last(p));
    ReplaceListHit(f, l, cs);
    ReplaceListWeight(f, l, cs, w);
    WeightWithout(ListAt(f, l), Last(p), w);
  }

  /** Everything outside the subtree of the removed node's list owner is
      unchanged, and the owner and its ancestors keep their own attributes. */
  lemma RemoveAtFrame(f: seq<Node>, p: Path, q: Path)
    requires ValidPath(f, p) && !(Parent(p) < q)
    ensures ValidPath(RemoveAt(f, p), q) <==> ValidPath(f, q)
    ensures ValidPath(f, q) ==> Shell(NodeAt(RemoveAt(f, p), q)) == Shell(NodeAt(f, q))
    ensures ValidPath(f, q) && !(q <= Parent(p)) ==> NodeAt(RemoveAt(f, p), q) == NodeAt(f, q)
  {
    ChildPath(f, p);
    ReplaceListFrame(f, Parent(p), Without(ListAt(f, Parent(p)), Last(p)), q);
  }

  /** Appending puts `n` last in the list, keeps the earlier entries and adds
      exactly the weight of `n`. */
  lemma AppendAtSpec(f: seq<Node>, l: Path, n: Node, w: Node -> nat)
    requires ValidList(f, l)
    ensures ValidList(AppendAt(f, l, n), l)
    ensures ListAt(AppendAt(f, l, n), l) == ListAt(f, l) + [n]
    ensures Weight(AppendAt(f, l, n), w) == Weight(f, w) + NodeWeight(n, w)
  {
    var cs := ListAt(f, l) + [n];
    ReplaceListHit(f, l, cs);
    ReplaceListWeight(f, l, cs, w);
    WeightConcat(ListAt(f, l), [n], w);
    WeightSingle(n, w);
  }
}
