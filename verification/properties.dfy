/**
 * What the handlers keep true, and what they do to the flags of the groups.
 *
 * The editor keeps the structure of its list (groups hold only options of
 * their own name, the top level and item sub-lists hold no bare option), at
 * most one checked radio per name, and a set flag on every group with a
 * checked option. It does NOT keep the converse: a group's flag is set when
 * one of its radios is chosen and cleared only when a checked radio is
 * deleted from a group holding at most that one radio, so a group can keep
 * its flag with no radio checked (`StaleFlagReachable`).
 */
module Properties {
  import opened Tree
  import opened Invariants
  import opened Labels
  import opened Editor

  /** What every reachable list satisfies. */
  ghost predicate TreeInv(f: seq<Node>)
  {
    ForestOk(f) && FlagsSound(f) && Exclusive(f)
  }

  ghost predicate Inv(s: State)
  {
    TreeInv(s.tree) && PendingOk(s)
  }

  lemma InitialInv()
    ensures Inv(Initial) && NamesUnique(Initial.tree)
  {
  }

  // ---------------------------------------------------------------------
  // Helpers
  // ---------------------------------------------------------------------

  /** The flag of a group is invisible to counts of checked radios, of groups
      by name and of nodes. */
  lemma SetFlagWeights(f: seq<Node>, g: Path, b: bool)
    requires ValidPath(f, g) && NodeAt(f, g).Group?
    ensures forall m :: CheckedCount(SetFlag(f, g, b), m) == CheckedCount(f, m)
    ensures forall m :: GroupCount(SetFlag(f, g, b), m) == GroupCount(f, m)
    ensures Size(SetFlag(f, g, b)) == Size(f)
  {
    var x := NodeAt(f, g);
    var y := x.(flag := b);
    forall m
      ensures CheckedCount(SetFlag(f, g, b), m) == CheckedCount(f, m)
      ensures GroupCount(SetFlag(f, g, b), m) == GroupCount(f, m)
    {
      ReplaceAtWeight(f, g, y, CheckedNamed(m));
      NodeWeightShell(x, CheckedNamed(m));
      NodeWeightShell(y, CheckedNamed(m));
      ReplaceAtWeight(f, g, y, GroupNamed(m));
      NodeWeightShell(x, GroupNamed(m));
      NodeWeightShell(y, GroupNamed(m));
    }
    ReplaceAtWeight(f, g, y, CountOne);
    NodeWeightShell(x, CountOne);
    NodeWeightShell(y, CountOne);
  }

  /** Strictly below a group of a well-formed list there are only options. */
  lemma BelowGroup(f: seq<Node>, g: Path, q: Path)
    requires ForestOk(f) && ValidPath(f, g) && NodeAt(f, g).Group?
    requires ValidPath(f, q) && g < q
    ensures NodeAt(f, q).Option?
  {
    if !NodeAt(f, q).Option? {
      ItemAncestors(f, q, g);
    }
  }

  /** In a well-formed list the group a radio's change handler finds is the
      one holding the radio. */
  lemma NearestOfOption(f: seq<Node>, p: Path)
    requires ForestOk(f) && ValidPath(f, p) && NodeAt(f, p).Option?
    ensures NearestGroup(f, p) == GroupAt(Parent(p))
  {
    OptionInGroup(f, p);
  }

  /** In a well-formed list no group lies above an item or a group. */
  lemma NearestOfNonOption(f: seq<Node>, p: Path)
    requires ForestOk(f) && ValidPath(f, p) && !NodeAt(f, p).Option?
    ensures NearestGroup(f, p) == NoGroup
  {
    if NearestGroup(f, p).GroupAt? {
      ItemAncestors(f, p, NearestGroup(f, p).path);
    }
  }

  // ---------------------------------------------------------------------
  // The menu and the add-option button keep the invariant
  // ---------------------------------------------------------------------

  /** A menu choice keeps the invariant; it keeps names unique when a new
      group's clock reading is one no group carries yet. */
  lemma ChooseKeepsInv(s: State, kind: string, stamp: GroupName)
    requires Inv(s)
    ensures Inv(ChooseFromMenu(s, kind, stamp))
    ensures NamesUnique(s.tree) && (kind != "item" ==> FreshName(s.tree, stamp))
            ==> NamesUnique(ChooseFromMenu(s, kind, stamp).tree)
  {
    if s.pending.Target? {
      var f := s.tree;
      var l := s.pending.list;
      var n := MenuNode(kind, s.counter, stamp);
      var cs := ListAt(f, l) + [n];
      var r := AppendAt(f, l, n);
      if l != [] {
        ForestOkAt(f, l);
        FlagOkAt(f, l);
      }
      assert ListFits(f, l, cs);
      ReplaceListOk(f, l, cs);
      assert ListFlagFits(f, l, cs);
      ReplaceListFlags(f, l, cs);
      var o := NewOption(stamp);
      forall m
        ensures CheckedCount(r, m) == CheckedCount(f, m)
        ensures GroupCount(r, m) == GroupCount(f, m) + (if kind != "item" && m == stamp then 1 else 0)
      {
        AppendAtSpec(f, l, n, CheckedNamed(m));
        AppendAtSpec(f, l, n, GroupNamed(m));
        NodeWeightShell(n, CheckedNamed(m));
        NodeWeightShell(n, GroupNamed(m));
        WeightSingle(o, CheckedNamed(m));
        WeightSingle(o, GroupNamed(m));
      }
    }
  }

  /** The add-option button keeps the invariant and the names. */
  lemma AddOptionKeepsInv(s: State, g: Path)
    requires Inv(s) && ValidPath(s.tree, g) && NodeAt(s.tree, g).Group?
    ensures Inv(AddOption(s, g))
    ensures NamesUnique(s.tree) ==> NamesUnique(AddOption(s, g).tree)
  {
    var f := s.tree;
    var x := NodeAt(f, g);
    var o := NewOption(x.name);
    var cs := x.children + [o];
    var r := AppendAt(f, g, o);
    ForestOkAt(f, g);
    FlagOkAt(f, g);
    assert ListFits(f, g, cs);
    ReplaceListOk(f, g, cs);
    if HasSelected(cs) {
      var k :| 0 <= k < |cs| && cs[k].Option? && cs[k].selected;
      assert k < |x.children|;
    }
    assert ListFlagFits(f, g, cs);
    ReplaceListFlags(f, g, cs);
    forall m
      ensures CheckedCount(r, m) == CheckedCount(f, m)
      ensures GroupCount(r, m) == GroupCount(f, m)
    {
      AppendAtSpec(f, g, o, CheckedNamed(m));
      AppendAtSpec(f, g, o, GroupNamed(m));
    }
    if s.pending.Target? && s.pending.list != [] {
      var l := s.pending.list;
      if g < l {
        BelowGroup(f, g, l);
      }
      ReplaceListFrame(f, g, cs, l);
    }
  }

  /** A menu choice changes nothing outside the target list: a node elsewhere
      is untouched, and the target's owner and the nodes above it keep their
      own attributes. */
  lemma ChooseFrame(s: State, kind: string, stamp: GroupName, q: Path)
    requires PendingOk(s) && s.pending.Target? && ValidPath(s.tree, q) && !(s.pending.list < q)
    ensures ValidPath(ChooseFromMenu(s, kind, stamp).tree, q)
    ensures !(q <= s.pending.list) ==> NodeAt(ChooseFromMenu(s, kind, stamp).tree, q) == NodeAt(s.tree, q)
    ensures Shell(NodeAt(ChooseFromMenu(s, kind, stamp).tree, q)) == Shell(NodeAt(s.tree, q))
  {
    var l := s.pending.list;
    ReplaceListFrame(s.tree, l, ListAt(s.tree, l) + [MenuNode(kind, s.counter, stamp)], q);
  }

  /** The add-option button changes nothing outside the group: a node
      elsewhere is untouched, the nodes above the group keep their own
      attributes, and the group's earlier options stay as they were. */
  lemma AddOptionFrame(s: State, g: Path, q: Path)
    requires ValidPath(s.tree, g) && NodeAt(s.tree, g).Group? && ValidPath(s.tree, q) && !(g < q)
    ensures ValidPath(AddOption(s, g).tree, q)
    ensures !(q <= g) ==> NodeAt(AddOption(s, g).tree, q) == NodeAt(s.tree, q)
    ensures Shell(NodeAt(AddOption(s, g).tree, q)) == Shell(NodeAt(s.tree, q))
  {
    var x := NodeAt(s.tree, g);
    ReplaceListFrame(s.tree, g, x.children + [NewOption(x.name)], q);
  }

  // ---------------------------------------------------------------------
  // Choosing a radio
  // ---------------------------------------------------------------------

  /** Choosing an unchecked radio leaves exactly one checked radio of its
      name, leaves the radios of every other name, the groups and the size
      alone. */
  lemma SelectCounts(s: State, p: Path)
    requires ValidPath(s.tree, p) && NodeAt(s.tree, p).Option?
    ensures !NodeAt(s.tree, p).selected ==> CheckedCount(Select(s, p).tree, NodeAt(s.tree, p).name) == 1
    ensures forall m :: m != NodeAt(s.tree, p).name ==> CheckedCount(Select(s, p).tree, m) == CheckedCount(s.tree, m)
    ensures forall m :: GroupCount(Select(s, p).tree, m) == GroupCount(s.tree, m)
    ensures Size(Select(s, p).tree) == Size(s.tree)
  {
    var f := s.tree;
    var o := NodeAt(f, p);
    if !o.selected {
      var m := o.name;
      var u := UncheckAll(f, m);
      var o' := o.(selected := true);
      var t := CheckRadio(f, p);
      UncheckShape(f, m, p);
      assert NodeAt(u, p) == o;
      assert forall x: Node :: CheckedNamed(m)(UncheckNode(x, m)) == 0;
      UncheckWeightZero(f, m, CheckedNamed(m));
      ReplaceAtWeight(u, p, o', CheckedNamed(m));
      forall m' | m' != m
        ensures CheckedCount(t, m') == CheckedCount(f, m')
      {
        assert forall x: Node :: CheckedNamed(m')(UncheckNode(x, m)) == CheckedNamed(m')(x);
        UncheckWeight(f, m, CheckedNamed(m'));
        ReplaceAtWeight(u, p, o', CheckedNamed(m'));
      }
      forall m'
        ensures GroupCount(t, m') == GroupCount(f, m')
      {
        assert forall x: Node :: GroupNamed(m')(UncheckNode(x, m)) == GroupNamed(m')(x);
        UncheckWeight(f, m, GroupNamed(m'));
        ReplaceAtWeight(u, p, o', GroupNamed(m'));
      }
      UncheckWeight(f, m, CountOne);
      ReplaceAtWeight(u, p, o', CountOne);
      match NearestGroup(t, p)
      case NoGroup =>
      case GroupAt(g) =>
        SetFlagWeights(t, g, true);
    }
  }

  /** In a well-formed list, choosing an unchecked radio makes the list the
      one obtained from the radios' unchecking by a single replacement of the
      chosen radio's group: that radio checked, the flag set. */
  lemma SelectTree(s: State, p: Path)
    requires ForestOk(s.tree) && ValidPath(s.tree, p) && NodeAt(s.tree, p).Option?
    requires !NodeAt(s.tree, p).selected
    ensures ForestOk(UncheckAll(s.tree, NodeAt(s.tree, p).name))
    ensures |p| > 1 && ValidPath(UncheckAll(s.tree, NodeAt(s.tree, p).name), Parent(p))
    ensures
      var u := UncheckAll(s.tree, NodeAt(s.tree, p).name);
      var G := NodeAt(u, Parent(p));
      && G.Group? && G.name == NodeAt(s.tree, p).name && Last(p) < |G.children|
      && Select(s, p).tree
         == ReplaceAt(u, Parent(p),
                      Group(G.text, G.name, true, G.children[Last(p) := NodeAt(s.tree, p).(selected := true)]))
  {
    var f := s.tree;
    var o := NodeAt(f, p);
    var m := o.name;
    var u := UncheckAll(f, m);
    var o' := o.(selected := true);
    UncheckForestOk(f, m);
    UncheckShape(f, m, p);
    assert NodeAt(u, p) == o;
    OptionInGroup(u, p);
    var g := Parent(p);
    var i := Last(p);
    var G := NodeAt(u, g);
    ChildPath(u, p);
    assert p == g + [i];
    var t := ReplaceAt(u, p, o');
    ForestReplaceAtOk(u, p, o');
    ReplaceAtHit(u, p, o');
    NearestOfOption(t, p);
    ReplaceChild(u, g, i, o');
    var n0 := WithChildren(G, G.children[i := o']);
    ReplaceAtHit(u, g, n0);
    var n := Group(G.text, G.name, true, G.children[i := o']);
    assert n == n0.(flag := true);
    ReplaceAtOverwrite(u, g, n0, g, n);
  }

  /** Choosing a radio keeps the invariant and the names. */
  lemma SelectKeepsInv(s: State, p: Path)
    requires Inv(s) && ValidPath(s.tree, p) && NodeAt(s.tree, p).Option?
    ensures Inv(Select(s, p))
    ensures NamesUnique(s.tree) ==> NamesUnique(Select(s, p).tree)
  {
    var f := s.tree;
    var o := NodeAt(f, p);
    SelectCounts(s, p);
    if !o.selected {
      var m := o.name;
      var u := UncheckAll(f, m);
      SelectTree(s, p);
      var g := Parent(p);
      var G := NodeAt(u, g);
      var n := Group(G.text, G.name, true, G.children[Last(p) := o.(selected := true)]);
      ForestOkAt(u, g);
      ForestReplaceAtOk(u, g, n);
      UncheckFlags(f, m);
      ReplaceAtFlags(u, g, n);
      var r := Select(s, p);
      forall m' ensures CheckedCount(r.tree, m') <= 1 {
        if m' != m {
          assert CheckedCount(f, m') <= 1;
        }
      }
      if s.pending.Target? && s.pending.list != [] {
        var l := s.pending.list;
        UncheckShape(f, m, l);
        assert NodeAt(u, l).Item?;
        if g <= l && g != l {
          assert g < l;
          BelowGroup(u, g, l);
        }
        ReplaceAtFrame(u, g, n, l);
      }
    }
  }

  /** In a well-formed list choosing a radio keeps every path and the kind,
      name and label of every group; it sets the flag of the chosen radio's
      group when the radio was unchecked, and changes no other flag. */
  lemma SelectFlags(s: State, p: Path, q: Path)
    requires ForestOk(s.tree) && ValidPath(s.tree, p) && NodeAt(s.tree, p).Option?
    ensures ValidPath(Select(s, p).tree, q) <==> ValidPath(s.tree, q)
    ensures ValidPath(s.tree, q) && NodeAt(s.tree, q).Group? ==>
      var x := NodeAt(s.tree, q);
      var y := NodeAt(Select(s, p).tree, q);
      && y.Group? && y.name == x.name && y.text == x.text
      && y.flag == (x.flag || (q == Parent(p) && !NodeAt(s.tree, p).selected))
    ensures ValidPath(s.tree, q) && NodeAt(s.tree, q).Option? ==>
      NodeAt(Select(s, p).tree, q).Option? && NodeAt(Select(s, p).tree, q).name == NodeAt(s.tree, q).name
  {
    var f := s.tree;
    var o := NodeAt(f, p);
    if !o.selected {
      var m := o.name;
      var u := UncheckAll(f, m);
      var o' := o.(selected := true);
      UncheckForestOk(f, m);
      UncheckShape(f, m, p);
      UncheckShape(f, m, q);
      var t := ReplaceAt(u, p, o');
      ForestReplaceAtOk(u, p, o');
      ReplaceAtHit(u, p, o');
      ReplaceShellFrame(u, p, o', q);
      NearestOfOption(t, p);
      OptionInGroup(t, p);
      var g := Parent(p);
      var y := NodeAt(t, g).(flag := true);
      ReplaceShellFrame(t, g, y, q);
      if ValidPath(f, q) && NodeAt(f, q).Group? && q != g {
        assert Shell(NodeAt(u, q)) == Shell(NodeAt(f, q));
      }
      if ValidPath(f, q) && NodeAt(f, q).Option? {
        var r := Select(s, p).tree;
        assert q != g;
        assert NodeAt(t, q).Option? && NodeAt(t, q).name == NodeAt(f, q).name;
        assert Shell(NodeAt(r, q)) == NodeAt(t, q);
      }
    }
  }

  /** After a radio is chosen, no other radio of its name is checked. */
  lemma SelectUnchecksOthers(s: State, p: Path, q: Path)
    requires Exclusive(s.tree) && ValidPath(s.tree, p) && NodeAt(s.tree, p).Option?
    requires ValidPath(Select(s, p).tree, q) && q != p
    requires NodeAt(Select(s, p).tree, q).Option?
    requires NodeAt(Select(s, p).tree, q).name == NodeAt(s.tree, p).name
    ensures !NodeAt(Select(s, p).tree, q).selected
  {
    var m := NodeAt(s.tree, p).name;
    var r := Select(s, p).tree;
    SelectCounts(s, p);
    assert CheckedCount(r, m) <= 1;
    WeightDistinctPaths(r, p, q, CheckedNamed(m));
  }

  /** Two groups made at the same clock reading share a name, and so one
      radio button group: choosing a radio of one unchecks the checked radio
      of the other, whose flag stays set. */
  lemma SharedNameInterference(s: State, p: Path, q: Path)
    requires TreeInv(s.tree)
    requires ValidPath(s.tree, p) && NodeAt(s.tree, p).Option? && !NodeAt(s.tree, p).selected
    requires ValidPath(s.tree, q) && NodeAt(s.tree, q).Option? && NodeAt(s.tree, q).selected
    requires NodeAt(s.tree, q).name == NodeAt(s.tree, p).name && Parent(q) != Parent(p)
    ensures ValidPath(Select(s, p).tree, q) && NodeAt(Select(s, p).tree, q).Option?
    ensures !NodeAt(Select(s, p).tree, q).selected
    ensures |q| > 1 && ValidPath(Select(s, p).tree, Parent(q))
    ensures NodeAt(Select(s, p).tree, Parent(q)).Group? && NodeAt(Select(s, p).tree, Parent(q)).flag
  {
    var f := s.tree;
    OptionInGroup(f, q);
    FlagOkAt(f, Parent(q));
    ChildPath(f, q);
    assert HasSelected(NodeAt(f, Parent(q)).children);
    SelectFlags(s, p, q);
    SelectFlags(s, p, Parent(q));
    SelectUnchecksOthers(s, p, q);
  }

  /** With unique names, choosing a radio leaves every radio of the other
      groups as it was. */
  lemma SelectIsolated(s: State, p: Path, q: Path)
    requires ForestOk(s.tree) && NamesUnique(s.tree)
    requires ValidPath(s.tree, p) && NodeAt(s.tree, p).Option?
    requires ValidPath(s.tree, q) && NodeAt(s.tree, q).Option? && Parent(q) != Parent(p)
    ensures ValidPath(Select(s, p).tree, q) && NodeAt(Select(s, p).tree, q) == NodeAt(s.tree, q)
  {
    var f := s.tree;
    var o := NodeAt(f, p);
    var x := NodeAt(f, q);
    OptionInGroup(f, p);
    OptionInGroup(f, q);
    if x.name == o.name {
      assert GroupCount(f, o.name) <= 1;
      WeightDistinctPaths(f, Parent(p), Parent(q), GroupNamed(o.name));
    }
    assert x.name != o.name;
    SelectFlags(s, p, q);
    if !o.selected {
      var m := o.name;
      var u := UncheckAll(f, m);
      var o' := o.(selected := true);
      UncheckForestOk(f, m);
      UncheckShape(f, m, p);
      UncheckShape(f, m, q);
      var t := ReplaceAt(u, p, o');
      ForestReplaceAtOk(u, p, o');
      ReplaceAtHit(u, p, o');
      ReplaceShellFrame(u, p, o', q);
      NearestOfOption(t, p);
      OptionInGroup(t, p);
      var g := Parent(p);
      var y := NodeAt(t, g).(flag := true);
      ReplaceShellFrame(t, g, y, q);
      assert NodeAt(u, q) == x;
      assert q != p && q != g;
      var r := Select(s, p).tree;
      assert Shell(NodeAt(t, q)) == x;
      assert NodeAt(t, q) == x;
      assert Shell(NodeAt(r, q)) == x;
    }
  }

  // ---------------------------------------------------------------------
  // Deleting a node
  // ---------------------------------------------------------------------

  /** Deleting never adds a checked radio or a group of any name, and takes
      out exactly the nodes of the deleted subtree. */
  lemma DeleteCounts(s: State, p: Path)
    requires ValidPath(s.tree, p)
    ensures forall m :: CheckedCount(Delete(s, p).tree, m) <= CheckedCount(s.tree, m)
    ensures forall m :: GroupCount(Delete(s, p).tree, m) <= GroupCount(s.tree, m)
  {
    var f := s.tree;
    var f1 := FlagBeforeRemoval(f, p);
    var g := ClosestGroup(f, p);
    if FirstRadioChecked(NodeAt(f, p)) && g.GroupAt? && RadioCount(NodeAt(f, g.path)) <= 1 {
      SetFlagWeights(f, g.path, false);
    }
    forall m
      ensures CheckedCount(Delete(s, p).tree, m) <= CheckedCount(s.tree, m)
      ensures GroupCount(Delete(s, p).tree, m) <= GroupCount(s.tree, m)
    {
      RemoveAtSpec(f1, p, CheckedNamed(m));
      RemoveAtSpec(f1, p, GroupNamed(m));
    }
  }

  /** In a well-formed list, deleting an item or a group is the plain
      removal of its subtree: a flag the handler clears on a group being
      deleted leaves with the group. */
  lemma DeleteNonOption(s: State, p: Path)
    requires ForestOk(s.tree) && ValidPath(s.tree, p) && !NodeAt(s.tree, p).Option?
    ensures Delete(s, p).tree == RemoveAt(s.tree, p)
  {
    var f := s.tree;
    var x := NodeAt(f, p);
    if x.Item? {
      NearestOfNonOption(f, p);
    } else {
      RemoveAtOwnEntry(f, p, x.(flag := false));
    }
  }

  /** The group that is left when the option at `p` of a well-formed list is
      deleted: the option is gone from its sub-list, and its flag is cleared
      when the deleted option was checked and was the group's only radio;
      otherwise the flag is kept, whether or not a checked radio remains. */
  function GroupAfterDelete(G: Node, i: nat, selected: bool): (n: Node)
    requires G.Group? && i < |G.children|
    ensures n.Group? && n.text == G.text && n.name == G.name
    ensures n.children == Without(G.children, i)
  {
    Group(G.text, G.name, if selected && |G.children| <= 1 then false else G.flag, Without(G.children, i))
  }

  /** In a well-formed list, deleting an option replaces its group by
      `GroupAfterDelete` and changes nothing else. */
  lemma DeleteOption(s: State, p: Path)
    requires ForestOk(s.tree) && ValidPath(s.tree, p) && NodeAt(s.tree, p).Option?
    ensures |p| > 1 && ValidPath(s.tree, Parent(p)) && NodeAt(s.tree, Parent(p)).Group?
    ensures Last(p) < |NodeAt(s.tree, Parent(p)).children|
    ensures Delete(s, p).tree
         == ReplaceAt(s.tree, Parent(p),
                      GroupAfterDelete(NodeAt(s.tree, Parent(p)), Last(p), NodeAt(s.tree, p).selected))
  {
    var f := s.tree;
    var x := NodeAt(f, p);
    OptionInGroup(f, p);
    NearestOfOption(f, p);
    var g := Parent(p);
    var i := Last(p);
    var G := NodeAt(f, g);
    ChildPath(f, p);
    ForestOkAt(f, g);
    AllOptionsCount(G.children);
    var n := GroupAfterDelete(G, i, x.selected);
    if x.selected && |G.children| <= 1 {
      var y := G.(flag := false);
      ReplaceAtHit(f, g, y);
      ReplaceAtOverwrite(f, g, y, g, n);
    }
  }

  /** The flag rule of the delete handler, as the page applies it to the
      group that held a deleted option. */
  lemma DeleteOptionFlagRule(s: State, p: Path)
    requires ForestOk(s.tree) && ValidPath(s.tree, p) && NodeAt(s.tree, p).Option?
    ensures |p| > 1 && ValidPath(s.tree, Parent(p)) && ValidPath(Delete(s, p).tree, Parent(p))
    ensures NodeAt(s.tree, Parent(p)).Group?
    ensures
      var G := NodeAt(s.tree, Parent(p));
      var H := NodeAt(Delete(s, p).tree, Parent(p));
      && H.Group? && H.name == G.name && H.text == G.text
      && H.children == Without(G.children, Last(p))
      && (!H.flag <==> (NodeAt(s.tree, p).selected && |G.children| == 1) || !G.flag)
  {
    DeleteOption(s, p);
    var G := NodeAt(s.tree, Parent(p));
    ReplaceAtHit(s.tree, Parent(p), GroupAfterDelete(G, Last(p), NodeAt(s.tree, p).selected));
  }

  /** Deleting keeps the invariant of the list and the names. */
  lemma DeleteKeepsInv(s: State, p: Path)
    requires TreeInv(s.tree) && ValidPath(s.tree, p)
    ensures TreeInv(Delete(s, p).tree)
    ensures NamesUnique(s.tree) ==> NamesUnique(Delete(s, p).tree)
  {
    var f := s.tree;
    var r := Delete(s, p).tree;
    DeleteCounts(s, p);
    forall m ensures CheckedCount(r, m) <= 1 {
      assert CheckedCount(f, m) <= 1;
    }
    if NamesUnique(f) {
      forall m ensures GroupCount(r, m) <= 1 {
        assert GroupCount(f, m) <= 1;
      }
    }
    if NodeAt(f, p).Option? {
      DeleteOptionShape(s, p);
    } else {
      DeleteNonOption(s, p);
      RemoveAtOk(f, p);
      RemoveAtFlags(f, p);
    }
  }

  /** Deleting an option keeps the structure and flag soundness. */
  lemma DeleteOptionShape(s: State, p: Path)
    requires TreeInv(s.tree) && ValidPath(s.tree, p) && NodeAt(s.tree, p).Option?
    ensures ForestOk(Delete(s, p).tree) && FlagsSound(Delete(s, p).tree)
  {
    var f := s.tree;
    DeleteOption(s, p);
    var g := Parent(p);
    var i := Last(p);
    var G := NodeAt(f, g);
    var x := NodeAt(f, p);
    var n := GroupAfterDelete(G, i, x.selected);
    ForestOkAt(f, g);
    FlagOkAt(f, g);
    ForestReplaceAtOk(f, g, n);
    if HasSelected(n.children) {
      var k :| 0 <= k < |n.children| && n.children[k].Option? && n.children[k].selected;
      if k < i {
        assert G.children[k] == n.children[k];
      } else {
        assert G.children[k + 1] == n.children[k];
      }
    }
    ReplaceAtFlags(f, g, n);
  }

  /** Deleting changes nothing outside the list the node was in: a node
      elsewhere is untouched, and the nodes above keep their own attributes;
      so does the list's owner, unless the node was an option, whose group
      may lose its flag. */
  lemma DeleteFrame(s: State, p: Path, q: Path)
    requires ForestOk(s.tree) && ValidPath(s.tree, p) && ValidPath(s.tree, q)
    requires !(Parent(p) < q)
    ensures ValidPath(Delete(s, p).tree, q)
    ensures !(q <= Parent(p)) ==> NodeAt(Delete(s, p).tree, q) == NodeAt(s.tree, q)
    ensures q < Parent(p) ==> Shell(NodeAt(Delete(s, p).tree, q)) == Shell(NodeAt(s.tree, q))
    ensures q == Parent(p) && !NodeAt(s.tree, p).Option? ==>
              Shell(NodeAt(Delete(s, p).tree, q)) == Shell(NodeAt(s.tree, q))
  {
    var f := s.tree;
    if NodeAt(f, p).Option? {
      DeleteOption(s, p);
      var g := Parent(p);
      var n := GroupAfterDelete(NodeAt(f, g), Last(p), NodeAt(f, p).selected);
      if q == g {
        ReplaceAtHit(f, g, n);
      } else {
        ReplaceAtFrame(f, g, n, q);
      }
    } else {
      DeleteNonOption(s, p);
      RemoveAtFrame(f, p, q);
    }
  }

  // ---------------------------------------------------------------------
  // Clicks
  // ---------------------------------------------------------------------

  /** Every click keeps the invariant. */
  lemma StepKeepsInv(s: State, e: Event)
    requires Inv(s) && Enabled(s, e)
    ensures Inv(Step(s, e))
  {
    match e
    case AddButton(l) =>
    case MenuButton(kind, stamp) => ChooseKeepsInv(s, kind, stamp);
    case AddOptionButton(g) => AddOptionKeepsInv(s, g);
    case RadioClick(p) => SelectKeepsInv(s, p);
    case DeleteButton(p) => DeleteKeepsInv(s, p);
    case ClickElsewhere =>
  }

  /** A new group's clock reading that no group of the list carries. */
  predicate FreshStamp(s: State, e: Event)
  {
    e.MenuButton? && e.kind != "item" ==> FreshName(s.tree, e.stamp)
  }

  /** Every click keeps the group names unique, provided each new group gets
      a clock reading no group carries yet. */
  lemma StepKeepsNames(s: State, e: Event)
    requires Inv(s) && Enabled(s, e) && NamesUnique(s.tree) && FreshStamp(s, e)
    ensures NamesUnique(Step(s, e).tree)
  {
    match e
    case AddButton(l) =>
    case MenuButton(kind, stamp) => ChooseKeepsInv(s, kind, stamp);
    case AddOptionButton(g) => AddOptionKeepsInv(s, g);
    case RadioClick(p) => SelectKeepsInv(s, p);
    case DeleteButton(p) => DeleteKeepsInv(s, p);
    case ClickElsewhere =>
  }

  /** Every sequence of clicks keeps the invariant. */
  lemma {:induction false} RunKeepsInv(s: State, es: seq<Event>)
    requires Inv(s) && Runs(s, es)
    ensures Inv(Run(s, es))
    decreases |es|
  {
    if es != [] {
      StepKeepsInv(s, es[0]);
      RunKeepsInv(Step(s, es[0]), es[1..]);
    }
  }

  /** Every list the page can reach from the loaded one is well formed, has
      at most one checked radio per name, and a set flag on each group with a
      checked radio. */
  lemma Reachable(es: seq<Event>)
    requires Runs(Initial, es)
    ensures Inv(Run(Initial, es))
  {
    InitialInv();
    RunKeepsInv(Initial, es);
  }

  /** Each new group's clock reading is fresh when its turn comes. */
  predicate FreshRun(s: State, es: seq<Event>)
    requires Runs(s, es)
    decreases |es|
  {
    es == [] || (FreshStamp(s, es[0]) && FreshRun(Step(s, es[0]), es[1..]))
  }

  /** Group names stay unique along a run whose new groups all get fresh
      clock readings. */
  lemma {:induction false} RunKeepsNames(s: State, es: seq<Event>)
    requires Inv(s) && NamesUnique(s.tree) && Runs(s, es) && FreshRun(s, es)
    ensures NamesUnique(Run(s, es).tree)
    decreases |es|
  {
    if es != [] {
      StepKeepsNames(s, es[0]);
      StepKeepsInv(s, es[0]);
      RunKeepsNames(Step(s, es[0]), es[1..]);
    }
  }

  // ---------------------------------------------------------------------
  // What the invariant says about a single group
  // ---------------------------------------------------------------------

  /** Below a group there are only options of the group's name. */
  lemma GroupsHoldOnlyOptions(f: seq<Node>, g: Path, j: nat)
    requires ForestOk(f) && ValidPath(f, g) && NodeAt(f, g).Group? && ValidPath(f, g + [j])
    ensures NodeAt(f, g + [j]).Option? && NodeAt(f, g + [j]).name == NodeAt(f, g).name
  {
    PathConcat(f, g, [j]);
    ForestOkAt(f, g);
  }

  /** An option has no children: no path goes through it. */
  lemma OptionsAreLeaves(f: seq<Node>, q: Path, j: nat)
    requires ValidPath(f, q) && NodeAt(f, q).Option?
    ensures !ValidPath(f, q + [j])
  {
    PathConcat(f, q, [j]);
  }

  /** Options of one name weigh the same whether their name is looked at. */
  lemma {:induction false} CheckedOfName(cs: seq<Node>, nm: GroupName)
    requires forall i :: 0 <= i < |cs| ==> cs[i].Option? && cs[i].name == nm
    ensures Weight(cs, CheckedAny) == Weight(cs, CheckedNamed(nm))
    decreases |cs|
  {
    if cs != [] {
      CheckedOfName(cs[1..], nm);
    }
  }

  /** A group of a reachable list has at most one checked radio. */
  lemma OneCheckedPerGroup(f: seq<Node>, g: Path)
    requires TreeInv(f) && ValidPath(f, g) && NodeAt(f, g).Group?
    ensures Weight(NodeAt(f, g).children, CheckedAny) <= 1
  {
    var G := NodeAt(f, g);
    ForestOkAt(f, g);
    CheckedOfName(G.children, G.name);
    WeightSubtree(f, g, CheckedNamed(G.name));
    NodeWeightShell(G, CheckedNamed(G.name));
    assert CheckedCount(f, G.name) <= 1;
  }

  /** Deleting the checked radio of a group that holds other radios leaves
      the group's flag set with none of its radios checked. */
  lemma StaleFlagAfterDelete(s: State, p: Path)
    requires TreeInv(s.tree) && ValidPath(s.tree, p) && NodeAt(s.tree, p).Option? && NodeAt(s.tree, p).selected
    requires |p| > 1 && ValidPath(s.tree, Parent(p)) && !NodeAt(s.tree, Parent(p)).Option?
    requires |ChildrenOf(NodeAt(s.tree, Parent(p)))| >= 2
    ensures ValidPath(Delete(s, p).tree, Parent(p))
    ensures NodeAt(Delete(s, p).tree, Parent(p)).Group?
    ensures NodeAt(Delete(s, p).tree, Parent(p)).flag
    ensures !HasSelected(NodeAt(Delete(s, p).tree, Parent(p)).children)
  {
    var f := s.tree;
    var g := Parent(p);
    var i := Last(p);
    DeleteOptionFlagRule(s, p);
    var G := NodeAt(f, g);
    ChildPath(f, p);
    FlagOkAt(f, g);
    assert G.children[i].Option? && G.children[i].selected;
    var H := NodeAt(Delete(s, p).tree, g);
    if HasSelected(H.children) {
      var k :| 0 <= k < |H.children| && H.children[k].Option? && H.children[k].selected;
      var k' := if k < i then k else k + 1;
      assert G.children[k'] == H.children[k];
      WeightAtLeastTwo(G.children, i, k', CheckedAny);
      OneCheckedPerGroup(f, g);
    }
  }

  // ---------------------------------------------------------------------
  // Clicks repeated, the menu
  // ---------------------------------------------------------------------

  /** A second click on the same radio changes nothing. */
  lemma RadioClickIdempotent(s: State, p: Path)
    requires PendingOk(s) && Enabled(s, RadioClick(p))
    ensures Enabled(Step(s, RadioClick(p)), RadioClick(p))
    ensures Step(Step(s, RadioClick(p)), RadioClick(p)) == Step(s, RadioClick(p))
  {
  }

  /** A menu choice after a click elsewhere does nothing: the click forgot
      the target. */
  lemma DismissedMenuInert(s: State, kind: string, stamp: GroupName)
    requires PendingOk(s)
    ensures Step(Step(s, ClickElsewhere), MenuButton(kind, stamp)) == Step(s, ClickElsewhere)
  {
  }

  /** An add button followed by a menu choice appends the chosen node to the
      list of that add button, and leaves the menu closed. */
  lemma AddThenChoose(s: State, l: Path, kind: string, stamp: GroupName)
    requires PendingOk(s) && Enabled(s, AddButton(l))
    ensures
      var r := Step(Step(s, AddButton(l)), MenuButton(kind, stamp));
      && r.pending.Idle? && ValidList(s.tree, l) && ValidList(r.tree, l)
      && ListAt(r.tree, l) == ListAt(s.tree, l) + [MenuNode(kind, s.counter, stamp)]
  {
  }

  // ---------------------------------------------------------------------
  // Two runs from the loaded page
  // ---------------------------------------------------------------------

  /** The group of the run below, named 7 and labelled "Radio Group 1",
      with the given flag and options. */
  function Demo(flag: bool, options: seq<Node>): State
  {
    State([Group(GroupLabel(1), 7, flag, options)], Idle, 2)
  }

  lemma DemoCreate()
    ensures Enabled(Initial, AddButton([]))
    ensures Step(Initial, AddButton([])) == State([], Target([]), 1)
    ensures Step(State([], Target([]), 1), MenuButton("radio-group", 7)) == Demo(false, [NewOption(7)])
  {
  }

  lemma DemoAddOption()
    ensures Enabled(Demo(false, [NewOption(7)]), AddOptionButton([0]))
    ensures Step(Demo(false, [NewOption(7)]), AddOptionButton([0])) == Demo(false, [NewOption(7), NewOption(7)])
  {
    var o := NewOption(7);
    var s := Demo(false, [o]);
    var r := Step(s, AddOptionButton([0])).tree;
    assert |r| == 1;
    var x := r[0];
    assert NodeAt(r, [0]) == x;
    assert Shell(x) == Group(GroupLabel(1), 7, false, []);
    assert x.children == [o, o];
    assert r == [Group(GroupLabel(1), 7, false, [o, o])];
  }

  lemma DemoSelect()
    ensures Enabled(Demo(false, [NewOption(7), NewOption(7)]), RadioClick([0, 0]))
    ensures Step(Demo(false, [NewOption(7), NewOption(7)]), RadioClick([0, 0]))
         == Demo(true, [Option(OptionLabel, 7, true), NewOption(7)])
  {
    var o := NewOption(7);
    var s := Demo(false, [o, o]);
    var G := s.tree[0];
    SelectTree(s, [0, 0]);
    var u := UncheckAll(s.tree, 7);
    assert UncheckAll([o, o], 7) == [o, o];
    assert u[0] == UncheckNode(G, 7) == G;
    assert u == [G];
    var n := Group(GroupLabel(1), 7, true, [Option(OptionLabel, 7, true), o]);
    assert G.children[0 := Option(OptionLabel, 7, true)] == n.children;
    assert ReplaceAt(u, [0], n) == [n];
  }

  lemma DemoDelete()
    ensures Enabled(Demo(true, [Option(OptionLabel, 7, true), NewOption(7)]), DeleteButton([0, 0]))
    ensures Step(Demo(true, [Option(OptionLabel, 7, true), NewOption(7)]), DeleteButton([0, 0]))
         == Demo(true, [NewOption(7)])
  {
    var s := Demo(true, [Option(OptionLabel, 7, true), NewOption(7)]);
    DeleteOption(s, [0, 0]);
    assert Without(s.tree[0].children, 0) == [NewOption(7)];
  }

  /** A group keeps its flag after its checked radio is deleted while another
      radio remains: the flag claims a choice that no radio shows. */
  lemma StaleFlagReachable()
    ensures
      var es := [AddButton([]), MenuButton("radio-group", 7), AddOptionButton([0]),
                 RadioClick([0, 0]), DeleteButton([0, 0])];
      && Runs(Initial, es)
      && Run(Initial, es) == Demo(true, [NewOption(7)])
      && !HasSelected(Run(Initial, es).tree[0].children)
  {
    var es := [AddButton([]), MenuButton("radio-group", 7), AddOptionButton([0]),
               RadioClick([0, 0]), DeleteButton([0, 0])];
    DemoCreate();
    DemoAddOption();
    DemoSelect();
    DemoDelete();
    var o := NewOption(7);
    var e5 := es[4..];
    var e4 := es[3..];
    var e3 := es[2..];
    var e2 := es[1..];
    assert e5[1..] == [];
    assert e4[1..] == e5 && e3[1..] == e4 && e2[1..] == e3 && es[1..] == e2;
    var s4 := Demo(true, [Option(OptionLabel, 7, true), o]);
    var s3 := Demo(false, [o, o]);
    var s2 := Demo(false, [o]);
    var s1 := State([], Target([]), 1);
    assert Runs(s4, e5) && Run(s4, e5) == Demo(true, [o]);
    assert Runs(s3, e4) && Run(s3, e4) == Demo(true, [o]);
    assert Runs(s2, e3) && Run(s2, e3) == Demo(true, [o]);
    assert Runs(s1, e2) && Run(s1, e2) == Demo(true, [o]);
  }
}
