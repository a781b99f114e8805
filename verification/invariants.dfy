/**
 * What the editor keeps true of its list, and how each kind of structural
 * edit keeps it.
 *
 *  - Structure: the top-level list and every item's sub-list hold items and
 *    groups; a group's sub-list holds only options, each carrying the group's
 *    name. An option has no sub-list at all (the datatype has no place for one).
 *  - Exclusivity: at most one checked radio per name, the radio button group
 *    rule of the HTML Living Standard (section 4.10.5.1.16, Radio Button state).
 *  - Flag soundness: a group with a checked option has its flag set. The
 *    converse is NOT kept: see the properties module.
 *  - Unique names: no two groups share a name, as long as every clock reading
 *    used for a new group is one no group in the list carries.
 */
module Invariants {
  import opened Tree

  // ---------------------------------------------------------------------
  // Structure
  // ---------------------------------------------------------------------

  predicate NodeOk(n: Node)
    decreases n
  {
    match n
    case Item(_, _, cs) => forall i :: 0 <= i < |cs| ==> !cs[i].Option? && NodeOk(cs[i])
    case Group(_, nm, _, cs) => forall i :: 0 <= i < |cs| ==> cs[i].Option? && cs[i].name == nm
    case Option(_, _, _) => true
  }

  /** Every node of the list is well formed (used for a group's options too). */
  predicate AllOk(f: seq<Node>)
  {
    forall i :: 0 <= i < |f| ==> NodeOk(f[i])
  }

  /** The top-level list: well formed, and holding no bare option. */
  predicate ForestOk(f: seq<Node>)
  {
    forall i :: 0 <= i < |f| ==> !f[i].Option? && NodeOk(f[i])
  }

  /** `n` may take the place of `prev` in its list. */
  predicate Fits(prev: Node, n: Node)
  {
    prev.Option? == n.Option? && (prev.Option? ==> n.name == prev.name)
  }

  lemma KidsOk(n: Node)
    requires NodeOk(n)
    ensures AllOk(ChildrenOf(n))
  {
  }

  lemma {:induction false} NodeOkAt(f: seq<Node>, p: Path)
    requires AllOk(f) && ValidPath(f, p)
    ensures NodeOk(NodeAt(f, p))
    decreases |p|
  {
    if |p| > 1 {
      KidsOk(f[p[0]]);
      NodeOkAt(ChildrenOf(f[p[0]]), p[1..]);
    }
  }

  lemma ForestOkAt(f: seq<Node>, p: Path)
    requires ForestOk(f) && ValidPath(f, p)
    ensures NodeOk(NodeAt(f, p))
  {
    assert AllOk(f);
    NodeOkAt(f, p);
  }

  /** A well-formed node may replace one it fits for. */
  lemma {:induction false} ReplaceAtOk(f: seq<Node>, p: Path, n: Node)
    requires AllOk(f) && ValidPath(f, p) && NodeOk(n) && Fits(NodeAt(f, p), n)
    ensures AllOk(ReplaceAt(f, p, n))
    ensures forall j :: 0 <= j < |f| ==> Fits(f[j], ReplaceAt(f, p, n)[j])
    decreases |p|
  {
    var i := p[0];
    if |p| > 1 {
      var x := f[i];
      var kids := ChildrenOf(x);
      KidsOk(x);
      ReplaceAtOk(kids, p[1..], n);
      var kids' := ReplaceAt(kids, p[1..], n);
      assert ReplaceAt(f, p, n)[i] == WithChildren(x, kids');
      if x.Group? {
        DeepPathOwner(kids, p[1..]);
        assert |p| == 2;
        assert kids' == kids[p[1] := n];
      }
    }
  }

  lemma ForestReplaceAtOk(f: seq<Node>, p: Path, n: Node)
    requires ForestOk(f) && ValidPath(f, p) && NodeOk(n) && Fits(NodeAt(f, p), n)
    ensures ForestOk(ReplaceAt(f, p, n))
  {
    assert AllOk(f);
    ReplaceAtOk(f, p, n);
  }

  /** The list `l` may be replaced by `cs`. */
  predicate ListFits(f: seq<Node>, l: Path, cs: seq<Node>)
    requires ValidList(f, l)
  {
    if l == [] then ForestOk(cs) else NodeOk(WithChildren(NodeAt(f, l), cs))
  }

  lemma ReplaceListOk(f: seq<Node>, l: Path, cs: seq<Node>)
    requires ForestOk(f) && ValidList(f, l) && ListFits(f, l, cs)
    ensures ForestOk(ReplaceList(f, l, cs))
  {
    if l != [] {
      ForestReplaceAtOk(f, l, WithChildren(NodeAt(f, l), cs));
    }
  }

  /** In a well-formed list an option sits directly in a group of its name. */
  lemma OptionInGroup(f: seq<Node>, p: Path)
    requires ForestOk(f) && ValidPath(f, p) && NodeAt(f, p).Option?
    ensures |p| > 1 && ValidPath(f, Parent(p))
    ensures NodeAt(f, Parent(p)).Group? && NodeAt(f, Parent(p)).name == NodeAt(f, p).name
  {
    ChildPath(f, p);
    if Parent(p) != [] {
      ForestOkAt(f, Parent(p));
    }
  }

  /** In a well-formed list every ancestor of an item or a group is an item. */
  lemma ItemAncestors(f: seq<Node>, p: Path, q: Path)
    requires ForestOk(f) && ValidPath(f, p) && !NodeAt(f, p).Option?
    requires 0 < |q| && q < p
    ensures ValidPath(f, q) && NodeAt(f, q).Item?
    decreases |p|
  {
    ChildPath(f, p);
    var l := Parent(p);
    PrefixValid(f, p, q);
    ForestOkAt(f, l);
    if q != l {
      assert q < l;
      ItemAncestors(f, l, q);
    }
  }

  // ---------------------------------------------------------------------
  // Flag soundness
  // ---------------------------------------------------------------------

  predicate HasSelected(cs: seq<Node>)
  {
    exists i :: 0 <= i < |cs| && cs[i].Option? && cs[i].selected
  }

  /** A group with a checked option has its flag set. */
  predicate NodeFlagOk(n: Node)
    decreases n
  {
    match n
    case Item(_, _, cs) => forall i :: 0 <= i < |cs| ==> NodeFlagOk(cs[i])
    case Group(_, _, flag, cs) =>
      (HasSelected(cs) ==> flag) && forall i :: 0 <= i < |cs| ==> NodeFlagOk(cs[i])
    case Option(_, _, _) => true
  }

  predicate FlagsSound(f: seq<Node>)
  {
    forall i :: 0 <= i < |f| ==> NodeFlagOk(f[i])
  }

  /** `n` checks no radio that `prev` did not. */
  predicate NoNewSelection(prev: Node, n: Node)
  {
    n.Option? && n.selected ==> prev.Option? && prev.selected
  }

  lemma {:induction false} ReplaceAtFlags(f: seq<Node>, p: Path, n: Node)
    requires FlagsSound(f) && ValidPath(f, p) && NodeFlagOk(n) && NoNewSelection(NodeAt(f, p), n)
    ensures FlagsSound(ReplaceAt(f, p, n))
    ensures forall j :: 0 <= j < |f| ==> NoNewSelection(f[j], ReplaceAt(f, p, n)[j])
    decreases |p|
  {
    var i := p[0];
    if |p| > 1 {
      var x := f[i];
      var kids := ChildrenOf(x);
      ReplaceAtFlags(kids, p[1..], n);
      var kids' := ReplaceAt(kids, p[1..], n);
      assert ReplaceAt(f, p, n)[i] == WithChildren(x, kids');
      if HasSelected(kids') {
        var k :| 0 <= k < |kids'| && kids'[k].Option? && kids'[k].selected;
        assert kids[k].Option? && kids[k].selected;
      }
    }
  }

  /** The list `l` may be replaced by `cs` as far as flags go. */
  predicate ListFlagFits(f: seq<Node>, l: Path, cs: seq<Node>)
    requires ValidList(f, l)
  {
    if l == [] then FlagsSound(cs) else NodeFlagOk(WithChildren(NodeAt(f, l), cs))
  }

  lemma ReplaceListFlags(f: seq<Node>, l: Path, cs: seq<Node>)
    requires FlagsSound(f) && ValidList(f, l) && ListFlagFits(f, l, cs)
    ensures FlagsSound(ReplaceList(f, l, cs))
  {
    if l != [] {
      ReplaceAtFlags(f, l, WithChildren(NodeAt(f, l), cs));
    }
  }

  lemma {:induction false} FlagOkAt(f: seq<Node>, p: Path)
    requires FlagsSound(f) && ValidPath(f, p)
    ensures NodeFlagOk(NodeAt(f, p))
    decreases |p|
  {
    if |p| > 1 {
      FlagOkAt(ChildrenOf(f[p[0]]), p[1..]);
    }
  }

  /** Unchecking radios never breaks flag soundness. */
  lemma {:induction false} UncheckFlags(f: seq<Node>, m: GroupName)
    requires FlagsSound(f)
    ensures FlagsSound(UncheckAll(f, m))
    decreases f
  {
    var u := UncheckAll(f, m);
    forall i | 0 <= i < |f|
      ensures NodeFlagOk(u[i])
    {
      assert u[i] == UncheckNode(f[i], m);
      match f[i]
      case Option(_, _, _) =>
      case Item(t, c, cs) =>
        UncheckFlags(cs, m);
      case Group(t, nm, fl, cs) =>
        UncheckFlags(cs, m);
        var cs' := UncheckAll(cs, m);
        if HasSelected(cs') {
          var k :| 0 <= k < |cs'| && cs'[k].Option? && cs'[k].selected;
          assert cs'[k] == UncheckNode(cs[k], m);
          assert cs[k].Option? && cs[k].selected;
        }
    }
  }

  /** Unchecking radios keeps the structure. */
  lemma {:induction false} UncheckOk(f: seq<Node>, m: GroupName)
    requires AllOk(f)
    ensures AllOk(UncheckAll(f, m))
    ensures forall j :: 0 <= j < |f| ==> Fits(f[j], UncheckAll(f, m)[j])
    decreases f
  {
    var u := UncheckAll(f, m);
    forall i | 0 <= i < |f|
      ensures NodeOk(u[i]) && Fits(f[i], u[i])
    {
      assert u[i] == UncheckNode(f[i], m);
      match f[i]
      case Option(_, _, _) =>
      case Item(t, c, cs) =>
        UncheckOk(cs, m);
      case Group(t, nm, fl, cs) =>
        UncheckOk(cs, m);
    }
  }

  lemma UncheckForestOk(f: seq<Node>, m: GroupName)
    requires ForestOk(f)
    ensures ForestOk(UncheckAll(f, m))
  {
    assert AllOk(f);
    UncheckOk(f, m);
  }


  /** Removing a node keeps the structure. */
  lemma RemoveAtOk(f: seq<Node>, p: Path)
    requires ForestOk(f) && ValidPath(f, p)
    ensures ForestOk(RemoveAt(f, p))
  {
    var l := Parent(p);
    ChildPath(f, p);
    var cs := Without(ListAt(f, l), Last(p));
    if l != [] {
      ForestOkAt(f, l);
    }
    assert ListFits(f, l, cs);
    ReplaceListOk(f, l, cs);
  }

  /** Removing a node keeps flag soundness. */
  lemma RemoveAtFlags(f: seq<Node>, p: Path)
    requires FlagsSound(f) && ValidPath(f, p)
    ensures FlagsSound(RemoveAt(f, p))
  {
    var l := Parent(p);
    var i := Last(p);
    ChildPath(f, p);
    var kids := ListAt(f, l);
    var cs := Without(kids, i);
    if l != [] {
      FlagOkAt(f, l);
      if HasSelected(cs) {
        var k :| 0 <= k < |cs| && cs[k].Option? && cs[k].selected;
        if k < i {
          assert kids[k] == cs[k];
        } else {
          assert kids[k + 1] == cs[k];
        }
      }
    }
    assert ListFlagFits(f, l, cs);
    ReplaceListFlags(f, l, cs);
  }

  // ---------------------------------------------------------------------
  // Exclusivity and unique names
  // ---------------------------------------------------------------------

  /** Weighs a checked radio named `m` as one. */
  function CheckedNamed(m: GroupName): Node -> nat
  {
    (n: Node) => if n.Option? && n.selected && n.name == m then 1 else 0
  }

  /** Weighs a group named `m` as one. */
  function GroupNamed(m: GroupName): Node -> nat
  {
    (n: Node) => if n.Group? && n.name == m then 1 else 0
  }

  /** The number of checked radios named `m`. */
  function CheckedCount(f: seq<Node>, m: GroupName): nat
  {
    Weight(f, CheckedNamed(m))
  }

  /** The number of groups named `m`. */
  function GroupCount(f: seq<Node>, m: GroupName): nat
  {
    Weight(f, GroupNamed(m))
  }

  ghost predicate Exclusive(f: seq<Node>)
  {
    forall m :: CheckedCount(f, m) <= 1
  }

  ghost predicate NamesUnique(f: seq<Node>)
  {
    forall m :: GroupCount(f, m) <= 1
  }

  /** A name no group in the list carries. */
  predicate FreshName(f: seq<Node>, m: GroupName)
  {
    GroupCount(f, m) == 0
  }
}
