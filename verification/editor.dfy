/**
 * The editor's event handlers as transitions of an explicit state: the list,
 * the pending add target (the list the add menu will append to, if the menu
 * is open) and the counter that numbers new radio groups.
 *
 * Each handler of the page is one function here. `Step` puts them together
 * the way the browser dispatches a click: the handler of the element clicked
 * runs first, then the click bubbles to the document, whose listener hides
 * the add menu and forgets the target, except for the add buttons, which stop
 * the click from bubbling.
 */
module Editor {
  import opened Tree
  import opened Invariants
  import opened Labels

  /** The list the next menu choice is appended to ([] is the top-level list),
      or none when the add menu is hidden. */
  datatype Pending = Idle | Target(list: Path)

  datatype State = State(tree: seq<Node>, pending: Pending, counter: nat)

  /** The page as loaded: an empty list, the menu hidden, the counter at one. */
  const Initial: State := State([], Idle, 1)

  /** The pending target is the top-level list or an item's sub-list. */
  predicate PendingOk(s: State)
  {
    match s.pending
    case Idle => true
    case Target(l) => l == [] || (ValidPath(s.tree, l) && NodeAt(s.tree, l).Item?)
  }

  /** The result of looking for a group: none, or the path of one. */
  datatype Found = NoGroup | GroupAt(path: Path)

  // ---------------------------------------------------------------------
  // New nodes
  // ---------------------------------------------------------------------

  /** A new item: the given label, an unchecked box, an empty sub-list. */
  function NewItem(text: string): (n: Node)
    ensures n.Item? && n.text == text && !n.checked && n.children == []
    ensures NodeOk(n) && NodeFlagOk(n) && SubtreeSize(n) == 1
  {
    NodeWeightShell(Item(text, false, []), CountOne);
    Item(text, false, [])
  }

  /** A new option of the group named `name`: unchecked, labelled "Option".
      It is a single node holding one radio, none checked, and a well-formed
      group of that name stays well formed with it appended. */
  function NewOption(name: GroupName): (n: Node)
    ensures n.Option? && n.text == OptionLabel && n.name == name && !n.selected
    ensures NodeOk(n) && NodeFlagOk(n) && SubtreeSize(n) == 1
    ensures NodeWeight(n, CountOptions) == 1 && NodeWeight(n, CheckedAny) == 0
    ensures forall t, fl, cs :: NodeOk(Group(t, name, fl, cs)) ==> NodeOk(Group(t, name, fl, cs + [n]))
  {
    var n := Option(OptionLabel, name, false);
    NodeWeightShell(n, CountOne);
    NodeWeightShell(n, CountOptions);
    NodeWeightShell(n, CheckedAny);
    n
  }

  /** A new group: its flag clear and one new option carrying its name. */
  function NewGroup(text: string, name: GroupName): (n: Node)
    ensures n.Group? && n.text == text && n.name == name && !n.flag
    ensures |n.children| == 1 && n.children[0] == NewOption(name)
    ensures NodeOk(n) && NodeFlagOk(n) && SubtreeSize(n) == 2
  {
    NodeWeightShell(Group(text, name, false, [NewOption(name)]), CountOne);
    WeightSingle(NewOption(name), CountOne);
    Group(text, name, false, [NewOption(name)])
  }

  /** What a menu button of type `kind` creates: an item for "item", a group
      for any other type, labelled with the counter. */
  function MenuNode(kind: string, counter: nat, stamp: GroupName): (n: Node)
    ensures kind == "item" ==> n == NewItem(ItemLabel)
    ensures kind != "item" ==> n == NewGroup(GroupLabel(counter), stamp)
    ensures !n.Option? && NodeOk(n) && NodeFlagOk(n)
    ensures SubtreeSize(n) == (if kind == "item" then 1 else 2)
  {
    if kind == "item" then NewItem(ItemLabel) else NewGroup(GroupLabel(counter), stamp)
  }

  // ---------------------------------------------------------------------
  // Looking around a node
  // ---------------------------------------------------------------------

  /** The nearest group strictly above the node at `p`, as `closest` finds
      it when started from the node's parent. */
  function NearestGroup(f: seq<Node>, p: Path): (r: Found)
    requires ValidPath(f, p)
    ensures r.GroupAt? ==> r.path < p && ValidPath(f, r.path) && NodeAt(f, r.path).Group?
    ensures r.GroupAt? ==> forall q :: r.path < q && q < p ==> ValidPath(f, q) && !NodeAt(f, q).Group?
    ensures r.NoGroup? ==> forall q :: 0 < |q| && q < p ==> ValidPath(f, q) && !NodeAt(f, q).Group?
    decreases |p|
  {
    if |p| == 1 then NoGroup
    else
      var q := Parent(p);
      PrefixValid(f, p, q);
      assert forall q' :: 0 < |q'| && q' < p ==> q' == q || q' < q by {
        forall q' | 0 < |q'| && q' < p {
          StrictPrefixParent(q', p);
        }
      }
      if NodeAt(f, q).Group? then GroupAt(q) else NearestGroup(f, q)
  }

  /** The node itself when it is a group, or else the nearest group above it:
      `closest` started from the node. */
  function ClosestGroup(f: seq<Node>, p: Path): (r: Found)
    requires ValidPath(f, p)
    ensures r.GroupAt? ==> r.path <= p && ValidPath(f, r.path) && NodeAt(f, r.path).Group?
    ensures r.GroupAt? ==> forall q :: r.path < q && q <= p ==> ValidPath(f, q) && !NodeAt(f, q).Group?
    ensures r.NoGroup? ==> forall q :: 0 < |q| && q <= p ==> ValidPath(f, q) && !NodeAt(f, q).Group?
    ensures NodeAt(f, p).Group? ==> r == GroupAt(p)
  {
    forall q | 0 < |q| && q <= p
      ensures ValidPath(f, q) && (q == p || q < p)
    {
      PrefixValid(f, p, q);
    }
    if NodeAt(f, p).Group? then GroupAt(p) else NearestGroup(f, p)
  }

  /** Weighs a checked radio as one, whatever its name. */
  function CheckedAny(n: Node): nat
  {
    if n.Option? && n.selected then 1 else 0
  }

  /** The radios inside a node in document order (a pre-order walk); an
      option is its own radio. */
  function Radios(n: Node): (r: seq<Node>)
    ensures |r| == NodeWeight(n, CountOptions)
    ensures forall i :: 0 <= i < |r| ==> r[i].Option?
    decreases n
  {
    match n
    case Option(_, _, _) => [n]
    case Item(_, _, cs) => RadiosOf(cs)
    case Group(_, _, _, cs) => RadiosOf(cs)
  }

  function RadiosOf(cs: seq<Node>): (r: seq<Node>)
    ensures |r| == Weight(cs, CountOptions)
    ensures forall i :: 0 <= i < |r| ==> r[i].Option?
    decreases cs
  {
    if cs == [] then [] else Radios(cs[0]) + RadiosOf(cs[1..])
  }

  /** Whether the first radio inside the node, in document order, exists and
      is checked; for an option, its own radio. */
  function FirstRadioChecked(n: Node): (r: bool)
    ensures r == (|Radios(n)| > 0 && Radios(n)[0].selected)
    ensures n.Option? ==> r == n.selected
    ensures r ==> NodeWeight(n, CheckedAny) > 0
    decreases n
  {
    match n
    case Option(_, _, sel) => sel
    case Item(_, _, cs) => FirstChecked(cs)
    case Group(_, _, _, cs) => FirstChecked(cs)
  }

  function FirstChecked(cs: seq<Node>): (r: bool)
    ensures r == (|RadiosOf(cs)| > 0 && RadiosOf(cs)[0].selected)
    ensures r ==> Weight(cs, CheckedAny) > 0
    decreases cs
  {
    if cs == [] then false
    else if NodeWeight(cs[0], CountOptions) > 0 then FirstRadioChecked(cs[0])
    else FirstChecked(cs[1..])
  }

  /** The number of radios inside a node; in a well-formed group, one per
      option. */
  function RadioCount(n: Node): (r: nat)
    ensures r == |RadiosOf(ChildrenOf(n))|
    ensures n.Group? && NodeOk(n) ==> r == |n.children|
  {
    if n.Group? && NodeOk(n) then
      AllOptionsCount(n.children);
      Weight(n.children, CountOptions)
    else
      Weight(ChildrenOf(n), CountOptions)
  }

  // ---------------------------------------------------------------------
  // Edits made of the structural ones
  // ---------------------------------------------------------------------

  /** The forest with the flag of the group at `g` set to `b`. */
  function SetFlag(f: seq<Node>, g: Path, b: bool): (r: seq<Node>)
    requires ValidPath(f, g) && NodeAt(f, g).Group?
    ensures ValidPath(r, g) && NodeAt(r, g).Group? && NodeAt(r, g).flag == b
    ensures ChildrenOf(NodeAt(r, g)) == ChildrenOf(NodeAt(f, g))
    ensures NodeAt(r, g).name == NodeAt(f, g).name && NodeAt(r, g).text == NodeAt(f, g).text
    ensures forall q :: ValidPath(r, q) <==> ValidPath(f, q)
    ensures forall q :: ValidPath(f, q) && q != g ==> Shell(NodeAt(r, q)) == Shell(NodeAt(f, q))
    ensures forall q :: ValidPath(f, q) && !(q <= g) ==> NodeAt(r, q) == NodeAt(f, q)
  {
    var x := NodeAt(f, g).(flag := b);
    ReplaceAtHit(f, g, x);
    forall q {
      ReplaceShellFrame(f, g, x, q);
    }
    ReplaceAt(f, g, x)
  }

  /** The forest after the radio at `p` is checked: every radio of its name
      unchecked, then that one checked. */
  function CheckRadio(f: seq<Node>, p: Path): (r: seq<Node>)
    requires ValidPath(f, p) && NodeAt(f, p).Option?
    ensures ValidPath(r, p) && NodeAt(r, p) == NodeAt(f, p).(selected := true)
    ensures forall q :: ValidPath(r, q) <==> ValidPath(f, q)
    ensures forall q :: ValidPath(f, q) && !(q <= p) ==>
              NodeAt(r, q) == UncheckNode(NodeAt(f, q), NodeAt(f, p).name)
    ensures forall q :: ValidPath(f, q) && q < p ==> Shell(NodeAt(r, q)) == Shell(NodeAt(f, q))
  {
    var m := NodeAt(f, p).name;
    var u := UncheckAll(f, m);
    var o' := NodeAt(f, p).(selected := true);
    UncheckShape(f, m, p);
    ReplaceAtHit(u, p, o');
    forall q
      ensures ValidPath(ReplaceAt(u, p, o'), q) <==> ValidPath(f, q)
      ensures ValidPath(f, q) && !(q <= p) ==> NodeAt(ReplaceAt(u, p, o'), q) == UncheckNode(NodeAt(f, q), m)
      ensures ValidPath(f, q) && q < p ==> Shell(NodeAt(ReplaceAt(u, p, o'), q)) == Shell(NodeAt(f, q))
    {
      UncheckShape(f, m, q);
      ReplaceShellFrame(u, p, o', q);
      if ValidPath(f, q) && q < p {
        AncestorNotOption(f, p, q);
      }
    }
    ReplaceAt(u, p, o')
  }

  /** The flag update the delete handler makes before the node goes: when the
      first radio inside the node is checked and the closest group holds at
      most one radio, that group's flag is cleared. Only the node's own list
      entry and the lists above it can change, and not in size. */
  function FlagBeforeRemoval(f: seq<Node>, p: Path): (r: seq<Node>)
    requires ValidPath(f, p)
    ensures ValidPath(r, p) && SubtreeSize(NodeAt(r, p)) == SubtreeSize(NodeAt(f, p))
    ensures ValidList(f, Parent(p)) && ValidList(r, Parent(p))
    ensures Last(p) < |ListAt(f, Parent(p))|
    ensures ListAt(r, Parent(p)) == ListAt(f, Parent(p))[Last(p) := NodeAt(r, p)]
    ensures Size(r) == Size(f)
  {
    var g := ClosestGroup(f, p);
    if FirstRadioChecked(NodeAt(f, p)) && g.GroupAt? && RadioCount(NodeAt(f, g.path)) <= 1 then
      SetFlagKeepsList(f, g.path, false, p);
      SetFlag(f, g.path, false)
    else
      ChildPath(f, p);
      f
  }

  // ---------------------------------------------------------------------
  // Handlers
  // ---------------------------------------------------------------------

  /** An add button: the main one (`l` = []) or an item's, whose target is
      that item's sub-list. It opens the menu with that target. */
  function OpenAddMenu(s: State, l: Path): (r: State)
    requires l == [] || (ValidPath(s.tree, l) && NodeAt(s.tree, l).Item?)
    ensures PendingOk(r) && r.pending == Target(l)
    ensures r.tree == s.tree && r.counter == s.counter
  {
    s.(pending := Target(l))
  }

  /** A button of the add menu, of type `kind`; `stamp` is the clock reading
      a new group's name is formed from. Without a target nothing happens.
      Otherwise the new node goes last into the target list, a group takes
      the counter's number and moves the counter on, and the menu closes. */
  function ChooseFromMenu(s: State, kind: string, stamp: GroupName): (r: State)
    requires PendingOk(s)
    ensures s.pending.Idle? ==> r == s
    ensures s.pending.Target? ==>
      && r.pending.Idle?
      && ValidList(s.tree, s.pending.list) && ValidList(r.tree, s.pending.list)
      && ListAt(r.tree, s.pending.list)
         == ListAt(s.tree, s.pending.list) + [MenuNode(kind, s.counter, stamp)]
      && r.counter == (if kind == "item" then s.counter else s.counter + 1)
      && Size(r.tree) == Size(s.tree) + (if kind == "item" then 1 else 2)
  {
    match s.pending
    case Idle => s
    case Target(l) =>
      var n := MenuNode(kind, s.counter, stamp);
      AppendAtSpec(s.tree, l, n, CountOne);
      State(AppendAt(s.tree, l, n), Idle, if kind == "item" then s.counter else s.counter + 1)
  }

  /** The add-option button of the group at `g`: a new option carrying the
      group's name goes last into the group. */
  function AddOption(s: State, g: Path): (r: State)
    requires ValidPath(s.tree, g) && NodeAt(s.tree, g).Group?
    ensures r.pending == s.pending && r.counter == s.counter
    ensures ValidPath(r.tree, g) && Shell(NodeAt(r.tree, g)) == Shell(NodeAt(s.tree, g))
    ensures ChildrenOf(NodeAt(r.tree, g))
         == ChildrenOf(NodeAt(s.tree, g)) + [NewOption(NodeAt(s.tree, g).name)]
    ensures Size(r.tree) == Size(s.tree) + 1
  {
    var n := NewOption(NodeAt(s.tree, g).name);
    AppendAtSpec(s.tree, g, n, CountOne);
    ReplaceListHit(s.tree, g, ChildrenOf(NodeAt(s.tree, g)) + [n]);
    s.(tree := AppendAt(s.tree, g, n))
  }

  /** A click on the radio at `p`. An unchecked radio becomes checked and
      every other radio of its name unchecked, after which the change
      handler sets the flag of the nearest group above it. A checked radio
      fires no change, and nothing happens. */
  function Select(s: State, p: Path): (r: State)
    requires ValidPath(s.tree, p) && NodeAt(s.tree, p).Option?
    ensures NodeAt(s.tree, p).selected ==> r == s
    ensures r.pending == s.pending && r.counter == s.counter
    ensures ValidPath(r.tree, p) && NodeAt(r.tree, p) == NodeAt(s.tree, p).(selected := true)
  {
    var o := NodeAt(s.tree, p);
    if o.selected then s
    else
      var t := CheckRadio(s.tree, p);
      match NearestGroup(t, p)
      case NoGroup => s.(tree := t)
      case GroupAt(g) =>
        ReplaceShellFrame(t, g, NodeAt(t, g).(flag := true), p);
        s.(tree := SetFlag(t, g, true))
  }

  /** The delete button of the node at `p`: the flag update, then the node
      and its whole subtree leave the list. The page removes the element when
      its removal animation ends; here that happens at once. */
  function Delete(s: State, p: Path): (r: State)
    requires ValidPath(s.tree, p)
    ensures r.pending == s.pending && r.counter == s.counter
    ensures ValidList(s.tree, Parent(p)) && Last(p) < |ListAt(s.tree, Parent(p))|
    ensures ValidList(r.tree, Parent(p))
    ensures ListAt(r.tree, Parent(p)) == Without(ListAt(s.tree, Parent(p)), Last(p))
    ensures Size(r.tree) + SubtreeSize(NodeAt(s.tree, p)) == Size(s.tree)
  {
    var f1 := FlagBeforeRemoval(s.tree, p);
    ChildPath(s.tree, p);
    RemoveAtSpec(f1, p, CountOne);
    assert Without(ListAt(f1, Parent(p)), Last(p)) == Without(ListAt(s.tree, Parent(p)), Last(p));
    s.(tree := RemoveAt(f1, p))
  }

  /** The document's click listener: the menu hides and the target is forgotten. */
  function Dismiss(s: State): (r: State)
    ensures r.pending.Idle? && r.tree == s.tree && r.counter == s.counter
  {
    s.(pending := Idle)
  }

  // ---------------------------------------------------------------------
  // Events
  // ---------------------------------------------------------------------

  datatype Event =
    | AddButton(list: Path)
    | MenuButton(kind: string, stamp: GroupName)
    | AddOptionButton(group: Path)
    | RadioClick(option: Path)
    | DeleteButton(node: Path)
    | ClickElsewhere

  /** The element the event is about is on the page: every item has an add
      button, every group an add-option button, every option a radio, every
      node a delete button. */
  predicate Enabled(s: State, e: Event)
  {
    match e
    case AddButton(l) => l == [] || (ValidPath(s.tree, l) && NodeAt(s.tree, l).Item?)
    case MenuButton(_, _) => true
    case AddOptionButton(g) => ValidPath(s.tree, g) && NodeAt(s.tree, g).Group?
    case RadioClick(p) => ValidPath(s.tree, p) && NodeAt(s.tree, p).Option?
    case DeleteButton(p) => ValidPath(s.tree, p)
    case ClickElsewhere => true
  }

  /** One click, with the document's listener run after the element's own
      handler unless an add button stopped the click. Only an add button
      leaves a pending target. */
  function Step(s: State, e: Event): (r: State)
    requires PendingOk(s) && Enabled(s, e)
    ensures PendingOk(r)
    ensures r.pending.Target? <==> e.AddButton?
  {
    match e
    case AddButton(l) => OpenAddMenu(s, l)
    case MenuButton(kind, stamp) => Dismiss(ChooseFromMenu(s, kind, stamp))
    case AddOptionButton(g) => Dismiss(AddOption(s, g))
    case RadioClick(p) => Dismiss(Select(s, p))
    case DeleteButton(p) => Dismiss(Delete(s, p))
    case ClickElsewhere => Dismiss(s)
  }

  /** Every event of `es` can happen when its turn comes. */
  predicate Runs(s: State, es: seq<Event>)
    decreases |es|
  {
    es == [] || (PendingOk(s) && Enabled(s, es[0]) && Runs(Step(s, es[0]), es[1..]))
  }

  function Run(s: State, es: seq<Event>): State
    requires Runs(s, es)
    decreases |es|
  {
    if es == [] then s else Run(Step(s, es[0]), es[1..])
  }

  // ---------------------------------------------------------------------
  // Lemmas the handlers lean on
  // ---------------------------------------------------------------------

  /** Setting the flag of a group at or above `p` leaves `p` valid, changes
      the list entry of `p` at most in its flag, and keeps the size. */
  lemma SetFlagKeepsList(f: seq<Node>, g: Path, b: bool, p: Path)
    requires ValidPath(f, g) && NodeAt(f, g).Group? && ValidPath(f, p) && g <= p
    ensures ValidPath(SetFlag(f, g, b), p)
    ensures SubtreeSize(NodeAt(SetFlag(f, g, b), p)) == SubtreeSize(NodeAt(f, p))
    ensures ValidList(f, Parent(p)) && ValidList(SetFlag(f, g, b), Parent(p))
    ensures Last(p) < |ListAt(f, Parent(p))|
    ensures ListAt(SetFlag(f, g, b), Parent(p)) == ListAt(f, Parent(p))[Last(p) := NodeAt(SetFlag(f, g, b), p)]
    ensures Size(SetFlag(f, g, b)) == Size(f)
  {
    var x := NodeAt(f, g).(flag := b);
    ReplaceAtWeight(f, g, x, CountOne);
    NodeWeightShell(x, CountOne);
    NodeWeightShell(NodeAt(f, g), CountOne);
    if g == p {
      SetFlagOwnEntry(f, g, b);
    } else {
      SetFlagBelowEntry(f, g, b, p);
      ChildPath(f, p);
      assert ListAt(f, Parent(p))[Last(p) := NodeAt(f, p)] == ListAt(f, Parent(p));
    }
  }

  /** The list holding a group changes, under a new flag, only in the group's
      own entry. */
  lemma SetFlagOwnEntry(f: seq<Node>, g: Path, b: bool)
    requires ValidPath(f, g) && NodeAt(f, g).Group?
    ensures ValidList(f, Parent(g)) && ValidList(SetFlag(f, g, b), Parent(g))
    ensures Last(g) < |ListAt(f, Parent(g))|
    ensures ListAt(SetFlag(f, g, b), Parent(g)) == ListAt(f, Parent(g))[Last(g) := NodeAt(SetFlag(f, g, b), g)]
  {
    var x := NodeAt(f, g).(flag := b);
    var l := Parent(g);
    ChildPath(f, g);
    ReplaceChild(f, l, Last(g), x);
    assert g == l + [Last(g)];
    ReplaceListHit(f, l, ListAt(f, l)[Last(g) := x]);
  }

  /** Below a group, a new flag changes no list and no node. */
  lemma SetFlagBelowEntry(f: seq<Node>, g: Path, b: bool, p: Path)
    requires ValidPath(f, g) && NodeAt(f, g).Group? && ValidPath(f, p) && g < p
    ensures ValidPath(SetFlag(f, g, b), p) && NodeAt(SetFlag(f, g, b), p) == NodeAt(f, p)
    ensures ValidList(f, Parent(p)) && ValidList(SetFlag(f, g, b), Parent(p))
    ensures Last(p) < |ListAt(f, Parent(p))|
    ensures ListAt(SetFlag(f, g, b), Parent(p)) == ListAt(f, Parent(p))
  {
    var x := NodeAt(f, g).(flag := b);
    var r := SetFlag(f, g, b);
    var l := Parent(p);
    ChildPath(f, p);
    ReplaceShellFrame(f, g, x, p);
    ChildPath(r, p);
    ReplaceShellFrame(f, g, x, l);
    if l != [] && l != g {
      assert !(l <= g);
    }
  }
}
