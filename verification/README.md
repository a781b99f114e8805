# Listree editing core in Dafny

Listree is a browser page for editing a nested list. The list holds three kinds of node:

- **Items**: a label, a checkbox and a sub-list.
- **Radio groups**: a label, a radio-group name, a disabled checkbox (the group's *flag*) and a sub-list of options.
- **Radio options**: a label and a radio button that carries the group's name.

All the page's logic sits in the event handlers of `script.js`. This project recasts them as pure transitions over an immutable tree. The state is made of:

- the tree;
- the pending add target, which is the list the add menu appends to;
- the counter that numbers new radio groups.

The project then proves what the handlers keep true.

Files:

- `tree.dfy` (`Tree`): the node datatype and path addressing (`NodeAt`, `ListAt`). It also holds the structural edits (`ReplaceAt`, `RemoveAt`, `AppendAt`), additive measures over a forest (`Weight`, `Size`), and the browser's unchecking of every radio of a name (`UncheckAll`). Each edit comes with lemmas about where it changes the tree and how it changes the measures.
- `invariants.dfy` (`Invariants`): the invariants and how each edit keeps them.
  - **Structure**: the top level and item sub-lists hold items and groups; a group holds only options, each carrying the group's name.
  - **Exclusivity**: at most one checked radio per name. This is the radio button group rule in section 4.10.5.1.16 of the HTML Living Standard.
  - **Flag soundness**: a group with a checked option has its flag set.
  - **Unique group names**.
- `labels.dfy` (`Labels`): the labels of new nodes, and the decimal rendering of the counter in "Radio Group n".
- `editor.dfy` (`Editor`): the state, one function per handler, and `Step`. `Step` composes the handlers the way a click is dispatched: first the clicked element's handler, then the document listener that hides the menu. The add buttons stop that second part.
- `properties.dfy` (`Properties`):
  - invariant preservation for each click and for every run from the loaded page;
  - the flag rules;
  - frame lemmas;
  - two consequences of how the page behaves: stale flags, and groups that share a name.

Modelling choices:

- **Group names.** A group's name is `radio-group-` followed by `Date.now()`. The model keeps only the clock reading, a `nat`. The prefix is fixed, so two names are equal exactly when their readings are equal.
- **The clock.** Each menu click carries its clock reading as a parameter (`MenuButton(kind, stamp)`). Nothing forces readings to be fresh. Unique names are proved only under the explicit assumption that every new group's reading is one no group in the list carries (`FreshStamp`, `FreshRun`). Without it, `SharedNameInterference` shows what happens.
- **Addresses.** A node is addressed by its path of indices. A list is addressed by the path of its owner; the top-level list is `[]`.
- **The loaded page.** It is modelled as an empty list with the menu hidden and the counter at 1. The page's HTML is not part of this model.
- **Deletion** happens at once. The handler's flag update is applied first, as in the code.
- **The group flag is modelled as written.**
  - Choosing a radio sets the flag of the nearest group above it.
  - Deleting a node clears the flag of its closest group only when two conditions hold: the first radio inside the node is checked, and that group holds at most one radio.
  - Nothing else changes a flag. So a group can keep its flag with no radio checked. `StaleFlagAfterDelete` shows this happens whenever the checked radio of a group holding other radios is deleted. `StaleFlagReachable` reaches such a state from the loaded page in five clicks.
  - One might expect the flag to mean that some option is checked. The code does not keep that. Only one direction holds: a checked option implies a set flag (`FlagsSound`).

## Model

| member | source | states |
|---|---|---|
| Editor.NewItem | script.js:94-107 | a new item has the given label, an unchecked box and an empty sub-list; it is well formed and counts as one node |
| Editor.NewGroup | script.js:109-127 | a new group has its flag clear and exactly one option, unchecked and carrying the group's name; it is well formed, flag-sound and counts as two nodes |
| Editor.NewOption | script.js:129-139 | a new option is unchecked, labelled "Option" and carries the given name; it is one node holding one radio, none checked, and appending it to a well-formed group of that name keeps the group well formed |
| Editor.MenuNode | script.js:49-50 | an "item" button makes a new item; any other button makes a new group labelled with the counter and named by the clock reading; either is well formed, flag-sound and not an option, of one or two nodes |
| Labels.Decimal | script.js:50 | the counter (below 10^21) is rendered as a non-empty string of digits with no leading zero |
| Labels.DecimalRoundTrip | script.js:50 | reading the rendered counter back gives the counter |
| Labels.GroupLabelInjective | script.js:50 | groups made at different counter values get different labels, and only those do |
| Editor.OpenAddMenu | script.js:23-30 | an add button makes its own list (the top-level list or the item's sub-list) the pending target and changes nothing else |
| Editor.ChooseFromMenu | script.js:44-57 | with no target nothing changes; otherwise the target list gains exactly the new node at its end, a group advances the counter by one, the node count grows by 1 or 2, and the target is cleared |
| Properties.ChooseFrame | script.js:53 | a menu choice changes no node outside the target list, and the nodes above it keep their own attributes |
| Properties.AddThenChoose | script.js:26-27 | an add button followed by a menu choice appends the chosen node to that button's list and leaves no target |
| Properties.DismissedMenuInert | script.js:47 | after a click elsewhere, a menu choice does nothing |
| Editor.AddOption | script.js:32-41 | the group gains exactly one unchecked option carrying its name, at the end; its own attributes, the target and the counter stay; the node count grows by one |
| Properties.AddOptionFrame | script.js:38 | adding an option changes no node outside the group, and the nodes above it keep their own attributes |
| Editor.NearestGroup | script.js:62 | the group the change handler finds lies strictly above the radio and no group lies between the two; if none is found, no group lies above the radio |
| Editor.ClosestGroup | script.js:80 | the group the delete handler finds is the node itself when it is a group; otherwise it lies above the node with no group between them; if none is found, neither the node nor anything above it is a group |
| Editor.FirstRadioChecked | script.js:78-79 | the answer is exactly whether the node's radios, listed in document order, are non-empty and the first one is checked; for an option, its own radio decides |
| Editor.RadioCount | script.js:83-84 | the count is the number of radios inside the node in document order; in a well-formed group, one per option |
| Editor.CheckRadio | script.js:134 | choosing a radio leaves it checked at the same place, keeps every path, and unchecks every other radio of its name while changing nothing else outside its ancestors, which keep their own attributes |
| Editor.Select | script.js:59-67 | clicking a checked radio changes nothing; otherwise the radio ends checked, and the target and the counter stay |
| Properties.SelectCounts | script.js:134 | after a radio is chosen, exactly one radio of its name is checked; other names' checked radios, the groups and the node count are unchanged |
| Properties.SelectTree | script.js:59-67 | in a well-formed list, choosing a radio is: uncheck every radio of its name, then replace its group by one with that radio checked and the flag set |
| Properties.SelectFlags | script.js:62-64 | choosing a radio keeps every path, sets the flag of the radio's own group, clears no flag and sets no other; groups and options keep their names |
| Properties.SelectUnchecksOthers | script.js:134 | after a radio is chosen, no other radio of its name is checked |
| Properties.SelectIsolated | script.js:112 | with unique names, choosing a radio leaves every option of the other groups as it was |
| Properties.SharedNameInterference | script.js:112 | two groups with the same clock reading form one radio group: choosing in one unchecks the other's checked radio, and that group's flag stays set |
| Properties.RadioClickIdempotent | script.js:61 | a second click on the same radio changes nothing |
| Editor.SetFlag | script.js:85 | the group ends with the given flag, keeping its name, label and options; every path stays valid, no other node changes and the ancestors keep their own attributes |
| Editor.SetFlagKeepsList | script.js:85 | setting a group's flag changes at most that group's own entry, keeps every path valid and keeps the node count |
| Properties.SetFlagWeights | script.js:85 | a group's flag does not affect the counts of checked radios, of groups by name or of nodes |
| Editor.FlagBeforeRemoval | script.js:77-88 | the flag update before a removal keeps the node's list the same except for the node's own entry, and keeps the node count |
| Editor.Dismiss | script.js:149-152 | a click that reaches the document hides the menu: the pending target is cleared, and the list and the counter stay |
| Editor.Delete | script.js:73-90 | the node leaves its list and every other entry stays in place; the node count drops by exactly the size of the node's subtree; the target and the counter stay |
| Tree.RemoveAtSpec | script.js:89 | a removal takes exactly one entry out of its list and removes exactly that subtree's weight from any additive measure |
| Tree.RemoveAtFrame | script.js:89 | a removal changes nothing outside the list owner's subtree, and the owner and its ancestors keep their own attributes |
| Properties.DeleteCounts | script.js:89 | deleting never adds a checked radio or a group of any name |
| Properties.DeleteNonOption | script.js:78-89 | in a well-formed list, deleting an item or a group is the plain removal of its subtree |
| Properties.DeleteOption | script.js:77-89 | in a well-formed list, deleting an option replaces only its group, by one without that option whose flag is cleared when the option was checked and was the group's only radio, and kept otherwise |
| Properties.DeleteOptionFlagRule | script.js:84-85 | after an option is deleted, its group's flag is clear exactly when it was clear before, or when the deleted option was checked and was the group's only radio |
| Properties.DeleteFrame | script.js:89 | deleting changes no node outside the deleted node's list; nodes above the list keep their own attributes, and so does the list's owner unless an option was deleted |
| Editor.Step | script.js:15-70 | after any click the pending target is valid, and a target is pending exactly when the click was on an add button |
| Properties.InitialInv | script.js:6-7 | the loaded page satisfies the invariant and has unique names |
| Properties.ChooseKeepsInv | script.js:44-57 | a menu choice keeps the invariant, and keeps names unique when a new group's clock reading is fresh |
| Properties.AddOptionKeepsInv | script.js:32-41 | adding an option keeps the invariant and the names |
| Properties.SelectKeepsInv | script.js:59-67 | choosing a radio keeps the invariant and the names |
| Properties.DeleteKeepsInv | script.js:73-90 | deleting keeps the invariant and the names |
| Properties.StepKeepsInv | script.js:15-70 | every click keeps the invariant |
| Properties.StepKeepsNames | script.js:109-113 | every click keeps group names unique when new groups get fresh clock readings |
| Properties.RunKeepsInv | script.js:15-70 | every sequence of clicks keeps the invariant |
| Properties.RunKeepsNames | script.js:112 | names stay unique along a run whose new groups all get fresh clock readings |
| Properties.Reachable | script.js:1-70 | every list reachable from the loaded page is well formed, has at most one checked radio per name, and sets the flag of every group with a checked radio |
| Properties.GroupsHoldOnlyOptions | script.js:35-38 | below a group there are only options carrying the group's name |
| Properties.OptionsAreLeaves | script.js:129-139 | no path goes through an option |
| Invariants.OptionInGroup | script.js:124 | in a well-formed list every option sits directly in a group of its own name |
| Properties.OneCheckedPerGroup | script.js:134 | a group of a reachable list has at most one checked radio |
| Properties.NearestOfOption | script.js:62 | in a well-formed list, the change handler finds the group that holds the radio |
| Properties.NearestOfNonOption | script.js:80 | in a well-formed list, no group lies above an item or a group |
| Invariants.RemoveAtOk | script.js:89 | removing a subtree keeps the structure |
| Invariants.RemoveAtFlags | script.js:89 | removing a subtree keeps flag soundness |
| Properties.StaleFlagAfterDelete | script.js:84 | deleting the checked radio of a group that still holds other radios leaves the group's flag set with none of its radios checked |
| Properties.StaleFlagReachable | script.js:84 | five clicks from the loaded page create a group, add an option, choose the first radio and delete it; the result is a group whose flag is set while none of its radios is checked |

## Left out

- Dragging (the SortableJS lists at script.js lines 9-12, 105 and 125) is not modelled. The library is outside this code. It passes no `group` option, so a drag could only reorder one list. The pending target is a path, so it would not follow a reordering made while the menu is open.
- Animations (`animateAddition`, `animateRemoval`): removal is immediate, and the flag update comes first.
- Menu positioning (`showAddMenu`) and the menu's visibility are presentation. The model keeps only the pending target, which the menu's visibility mirrors.
- Editing labels in place (`contenteditable`) and toggling an item's checkbox are not modelled. The browser does both with no handler in this code. An item's `checked` field stays as created.
- The HTML that the templates build is not modelled, including the labels inserted into the markup unescaped. Only the node kinds, labels, names and flags are kept.
- `Date.now()` is not modelled as a clock. It is a reading passed with each menu click. Fresh readings are an assumption, stated where unique names are proved.
- Moving nodes, renaming, cycle checks and error reporting are not modelled because this code has none of them. Clicks on elements that are not on the page are excluded by `Enabled` rather than reported as errors.
- The page's initial HTML is not part of this model. The loaded page is taken to be an empty list.
- Labels.Decimal: the counter is an unbounded natural number. The page's counter is a JavaScript number: from 10^21 on a template string writes it in exponent form, and from 2^53 on `radioGroupCounter++` no longer changes it. Neither is modelled, since each needs that many clicks.
- Editor.Step: its own contract speaks only of the pending target. What a click does to the list is stated by the handlers' contracts and by `StepKeepsInv`.
