# UI-Inspector core, modelled in Dafny

UI-Inspector is a WPF desktop inspector for the UI Automation tree. It
keeps a snapshot of the desktop's top-level windows as a forest of
`UIElementInfo` nodes. It finds a node again by runtime id, and walks
the root-to-node path to select it in the tree view. An element picker
driven by a low-level mouse hook resolves a click to an element. It
refuses the inspector's own elements, and falls back to a rebuild and a
second search. A blinking overlay window outlines the selected element,
in DPI-correct screen coordinates. Two query dialogs list windows and
controls that match user criteria.

The model has eight modules:

- `Strings`: the .NET string routines the code relies on. These are
  `ToLower`, ordinal and case-insensitive `Contains`, `Replace(p, "")`
  and `int.TryParse`.
- `Automation`: the UI Automation provider as a datatype.
  - Every attribute read may raise (`Read<T>`), and a nullable attribute
    is an `Option`.
  - The `FindAll` query for an element's children may raise, and so may
    the root or the `FindAll` query on the desktop. The datatype can also
    express failures the code cannot produce (see "Left out").
  - `FindAll` itself is modelled as a filter over the tree.
- `Snapshot`: how nodes are built and named, the search by runtime id,
  `FindElementPath` over its in-place list, and `GetRootWindow`.
- `SelfExclusion`: `IsOwnApplicationElement`.
- `Highlight`: `HighlightWindow.cs`, covering the geometry, the DPI
  scale, the rounding, and the overlay window with its blink timer.
- `Inspector`: the `MainWindow` class with its fields, and the
  operations that change them. It covers the snapshot refresh, the
  picker, click resolution, the dispatcher's posted work and the
  highlight session.
- `FindControl` and `FindWindow`: the two query dialogs.

A `UIElementInfo` node is a heap object, and `FindElementPath` compares
nodes by reference. In the model, a node carries `id`, the serial number
of its allocation, taken from the window's `nextId` counter. The builder
is proved to give fresh, pairwise distinct ids.

The dispatcher is modelled as two FIFO queues of posted work on the
window:

- `pendingClicks`: click resolutions posted by the mouse hook.
- `pendingSearches`: second searches posted at background priority.

`RunNextTask` runs one item, and pending clicks go first.

### Behaviour of the code worth knowing

- The code does not guarantee that runtime ids are unique within a
  snapshot, and the model does not assume it. `Snapshot.LocateFindsNode`
  takes uniqueness as a hypothesis of its own.
- A failure can cut a subtree short:
  - When the `FindAll` query for an element's children raises, its node
    is kept with no children (`MainWindow.xaml.cs:180-195`).
  - The search skips the whole subtree under a node whose runtime id
    cannot be read.
- The second search after a rebuild is not immediate. It is posted to
  the dispatcher at background priority (`MainWindow.xaml.cs:1361-1374`).
- Degenerate and off-screen rectangles are refused by `HighlightElement`
  (`MainWindow.xaml.cs:489-500`), not by the geometry routines. The
  overlay window raises on a negative width or height
  (`HighlightWindow.cs:87-88`):
  - `CreateFromAutomationRect` does not catch that exception, so the
    model requires a non-negative rounded size, which the checks in
    `HighlightElement` guarantee.
  - `CreateFromHandle` and `CreateFromClientRect` catch it and return
    null (`HighlightWindow.cs:150-154`, `179-183`).
- The window is minimized before the hook is installed. When
  installation fails, the picker is stopped but the window stays
  minimized (`MainWindow.xaml.cs:1215-1233`).

## Model

| member | source | states |
|---|---|---|
| Strings.ToLower | FindControlDialog.xaml.cs:130 | `ToLower` keeps the length and lower-cases each ASCII letter in place |
| Strings.ToLowerIdempotent | FindControlDialog.xaml.cs:130 | lower-casing twice is lower-casing once |
| Strings.ContainsIff | FindWindowDialog.xaml.cs:53 | the left-to-right substring scan succeeds iff the pattern occurs at some position |
| Strings.ContainsIgnoringCase | FindWindowDialog.xaml.cs:53 | an exact occurrence is also an occurrence ignoring case |
| Strings.ContainsNeedsRoom | FindWindowDialog.xaml.cs:58 | a string shorter than the pattern never contains it |
| Strings.RemoveAll | FindControlDialog.xaml.cs:102 | `Replace(p, "")` never lengthens the string |
| Strings.RemoveAllLeading | MainWindow.xaml.cs:238 | a leading occurrence is removed and the scan resumes after it |
| Strings.RemoveAllAbsent | MainWindow.xaml.cs:238 | removal leaves a string without the pattern unchanged |
| Strings.TrimStart | FindWindowDialog.xaml.cs:63 | the result is no longer than the input and does not start with white space |
| Strings.TrimEnd | FindWindowDialog.xaml.cs:63 | the result is no longer than the input and does not end with white space |
| Strings.TrimStartDropsLeadingWhite | FindWindowDialog.xaml.cs:63 | trimming the start keeps a suffix of the input and drops only white space |
| Strings.TrimEndDropsTrailingWhite | FindWindowDialog.xaml.cs:63 | trimming the end keeps a prefix of the input and drops only white space |
| Strings.ParseInt32 | FindWindowDialog.xaml.cs:63 | `int.TryParse` succeeds only with a value in the Int32 range |
| Strings.DecimalString | FindWindowDialog.xaml.cs:63 | printing a natural number gives a non-empty string of digits |
| Strings.DecimalValue | FindWindowDialog.xaml.cs:63 | reading the printed digits back gives the number |
| Strings.ParseInt32RoundTrip | FindWindowDialog.xaml.cs:63 | every Int32 that `ToString` prints parses back to itself |
| Automation.TypeName | FindControlDialog.xaml.cs:102 | every control type's identifier is non-empty and shorter than the "ControlType." prefix |
| Automation.StripProgrammaticName | MainWindow.xaml.cs:238 | removing "ControlType." from a programmatic name gives back the type's identifier |
| Automation.EnumeratedCount | MainWindow.xaml.cs:180-195 | an enumeration delivers at most all the children, and all of them when it does not fail |
| Automation.Filter | MainWindow.xaml.cs:136-137 | a filter keeps at most as many elements as it is given |
| Automation.FilterMembers | MainWindow.xaml.cs:136-137 | a filter keeps exactly the given elements that satisfy the test |
| Automation.FindAllMembers | FindControlDialog.xaml.cs:91 | `FindAll` returns exactly the elements in scope that satisfy the condition |
| Snapshot.ElementName | MainWindow.xaml.cs:206-227 | the first non-empty of Name, AutomationId and ClassName; a read that raises yields the empty string |
| Snapshot.ControlTypeName | MainWindow.xaml.cs:229-246 | the type's identifier without the prefix, or "Unknown" when the type is null or cannot be read |
| Snapshot.Mirror | MainWindow.xaml.cs:165-204 | building a node never moves the allocation counter backwards |
| Snapshot.MirrorAll | MainWindow.xaml.cs:139-153 | building a list of nodes never moves the allocation counter backwards |
| Snapshot.MirrorAllStep | MainWindow.xaml.cs:183-190 | mirroring one more element appends its node, if it has one, and advances the counter by its build |
| Snapshot.Sources | MainWindow.xaml.cs:165-204 | the elements a node list stands for, position by position |
| Snapshot.MirrorShape | MainWindow.xaml.cs:165-204 | a node is built iff its construction does not fail. It mirrors its element, name and type. Its children mirror exactly the delivered children that can be built, in order |
| Snapshot.MirrorAllShape | MainWindow.xaml.cs:139-153 | a list build keeps exactly the elements that can be built, in order; a failing one does not abort its siblings |
| Snapshot.SourcesAppend | MainWindow.xaml.cs:146 | appending nodes appends the elements they stand for |
| Snapshot.NodesAppend | MainWindow.xaml.cs:146 | the pre-order of a concatenated forest is the concatenation of the pre-orders |
| Snapshot.JoinIds | MainWindow.xaml.cs:165-204 | two lists of distinct ids in adjacent ranges join into one list of distinct ids |
| Snapshot.MirrorIdsFresh | MainWindow.xaml.cs:171 | every node of a built subtree is a new object: its id lies between the counter before and after the build, and no two ids coincide |
| Snapshot.MirrorAllIdsFresh | MainWindow.xaml.cs:139-153 | the same freshness and distinctness for a list of built subtrees |
| Snapshot.FirstWithId | MainWindow.xaml.cs:1404-1433 | the first node of a list with the target id: none iff no node has it, and no earlier node has it |
| Snapshot.FirstWithIdAppend | MainWindow.xaml.cs:1404-1433 | the first match in a concatenation comes from the first part when that part has one |
| Snapshot.Locate | MainWindow.xaml.cs:1404-1433 | a node found carries a readable runtime id equal to the target |
| Snapshot.LocateIsFirstMatch | MainWindow.xaml.cs:1404-1433 | the recursive search returns the first node in pre-order, skipping subtrees under unreadable ids, whose runtime id equals the target; it returns null when none does |
| Snapshot.LocateDescends | MainWindow.xaml.cs:1418-1423 | a readable non-matching node's subtree is searched before its later siblings |
| Snapshot.FirstSkipsMiss | MainWindow.xaml.cs:1413-1419 | a node that does not match does not change the first match |
| Snapshot.SearchableInNodes | MainWindow.xaml.cs:1404-1433 | every node the search can reach belongs to the snapshot |
| Snapshot.LocateFindsNode | MainWindow.xaml.cs:1404-1433 | with runtime ids unique in the snapshot, searching for a node's runtime id finds exactly that node |
| Snapshot.LocateInSnapshot | MainWindow.xaml.cs:1404-1433 | a found node belongs to the snapshot and has the target runtime id |
| Snapshot.RuntimeIdsEqual | MainWindow.xaml.cs:1435-1446 | true iff both ids are non-null, of equal length and equal at every index |
| Snapshot.FindElementInTreeRecursive | MainWindow.xaml.cs:1404-1433 | the loop with recursion and per-node catch computes the pre-order first-match search |
| Snapshot.PathFrom | MainWindow.xaml.cs:1545-1565 | a path found is non-empty, starts at a top-level node and ends at the target object |
| Snapshot.PathSound | MainWindow.xaml.cs:1545-1565 | a path found starts at a top-level node, each node is a child of the one before, it ends at the target id, and all its nodes belong to the snapshot |
| Snapshot.PathComplete | MainWindow.xaml.cs:1545-1565 | a path is found iff some node of the snapshot is the target |
| Snapshot.PathEndsAtTarget | MainWindow.xaml.cs:1551 | with distinct node objects, the path to a node of the snapshot ends at that very node (reference equality) |
| Snapshot.LocatedIsReachable | MainWindow.xaml.cs:1591-1630 | a node found by runtime id always has a path that ends at it |
| Snapshot.FreshNodeOutside | MainWindow.xaml.cs:1822-1846 | a node allocated after the snapshot is not part of it |
| Snapshot.NodeList.constructor | MainWindow.xaml.cs:1531 | a new path list is empty |
| Snapshot.NodeList.Add | MainWindow.xaml.cs:1549 | `Add` appends the node |
| Snapshot.NodeList.RemoveAt | MainWindow.xaml.cs:1561 | `RemoveAt` removes exactly the entry at the index |
| Snapshot.FindElementPath | MainWindow.xaml.cs:1545-1565 | on success the list holds its entry contents followed by the chain to the target; on failure it is restored to exactly its entry contents |
| Snapshot.GetRootWindow | MainWindow.xaml.cs:1799-1820 | climbs to the last ancestor below the desktop root, the element itself when it has none; null iff a parent lookup raises on the way |
| Snapshot.RootOf | MainWindow.xaml.cs:1799-1820 | the walk gives null exactly when a parent lookup on it raises, and otherwise ends at the last element of the walk |
| SelfExclusion.IsOwnApplicationElement | MainWindow.xaml.cs:1705-1778 | null or a raising read gives false. The inspector's own window handle gives true whatever the process. Otherwise true iff the process ids are equal and the process names are equal ignoring case, an unknown process being named "Unknown" |
| SelfExclusion.ProcessNameOf | MainWindow.xaml.cs:1720-1729 | the name of a running process, or "Unknown" for an id that names none |
| SelfExclusion.ZeroHandleCountsAsOwn | MainWindow.xaml.cs:1780-1797 | while the own handle has fallen back to 0, every element with handle 0 counts as the inspector's own |
| SelfExclusion.UnknownProcessIsForeign | MainWindow.xaml.cs:1720-1729 | an element whose process cannot be looked up is not the inspector's, unless it matches by handle or the inspector itself is named "Unknown" |
| SelfExclusion.ProcessNameCaseIrrelevant | MainWindow.xaml.cs:1760 | the letter case of the inspector's process name does not change the decision |
| Highlight.FromEdges | HighlightWindow.cs:140-155 | the origin is the top-left corner, and origin plus size gives the bottom-right edges (`Width = Right - Left`, `Height = Bottom - Top`) |
| Highlight.EdgesRoundTrip | HighlightWindow.cs:51-61 | edges to origin-and-size and back are inverse, in both directions |
| Highlight.SystemDpiScale | HighlightWindow.cs:315-341 | the scale is `dpi / 96` on each axis, and (1, 1) when the screen cannot be queried; it is always positive, and 96 dpi scales by nothing |
| Highlight.RoundHalfEven | HighlightWindow.cs:267-279 | `Math.Round`: within one half of the input, and even on a tie; a non-negative input never rounds to a negative value |
| Highlight.RoundingIsUnique | HighlightWindow.cs:267-279 | those two properties determine the rounded value |
| Highlight.RoundingKeepsIntegers | HighlightWindow.cs:276-279 | rounding an integer gives it back |
| Highlight.ScaleRect | HighlightWindow.cs:265-270 | each component times its axis' factor; a positive factor keeps a non-negative size non-negative |
| Highlight.RoundedRect | HighlightWindow.cs:266-279 | each component of the result lies within half a pixel of the component it was rounded from; non-negative sizes stay non-negative |
| Highlight.PhysicalRect | HighlightWindow.cs:251-283 | unaware mode: the rectangle scaled by the system scale on each axis, then rounded component-wise half to even. Any other mode: the rectangle rounded unscaled, whatever the screen. A non-negative size stays non-negative |
| Highlight.AutomationRectUnscaled | HighlightWindow.cs:298-310 | under the fixed awareness mode the screen resolution plays no part, and a whole-pixel rectangle passes through unchanged |
| Highlight.HighlightWindow.constructor | HighlightWindow.cs:70-135 | for a non-negative size: the logical placement times the scale gives the physical rectangle; the outline has the window's size; visible at opacity 1; the timer is created stopped at 500 ms |
| Highlight.HighlightWindow.Show | HighlightWindow.cs:110-121 | loading starts the timer; placement, scale and phase are unchanged |
| Highlight.HighlightWindow.BlinkTick | HighlightWindow.cs:343-347 | a tick negates the phase and sets opacity 1.0 when visible, 0.3 otherwise; the phase is visible exactly after an even number of ticks, so two ticks restore it; placement, scale and timer are unchanged |
| Highlight.HighlightWindow.Close | HighlightWindow.cs:349-353 | closing stops the timer and takes the window off screen; placement, scale and phase are unchanged |
| Highlight.CreateFromAutomationRect | HighlightWindow.cs:251-283 | given a non-negative rounded size (the constructor raises otherwise, uncaught): a new, not yet shown overlay over the physical rectangle of the fixed awareness mode |
| Highlight.CreateFromHandle | HighlightWindow.cs:140-155 | null iff the window rectangle cannot be read or has a negative width or height (the constructor's exception is caught); otherwise an overlay over that rectangle |
| Highlight.CreateFromClientRect | HighlightWindow.cs:160-184 | null iff the client rectangle cannot be mapped or the mapped corner lies left of or above the mapped origin; otherwise an overlay from the mapped origin to the mapped corner |
| Inspector.RefreshMirrorsWindows | MainWindow.xaml.cs:123-163 | a completed refresh holds one node per top-level window that can be built, in desktop order, and nothing else; all are new, distinct objects |
| Inspector.Verdict | MainWindow.xaml.cs:1296-1327 | a click is inspected iff the hit is an element, not the inspector's own, with a root window that is not the inspector's own; an own element is refused before its root is sought |
| Inspector.MainWindow.constructor | MainWindow.xaml.cs:102-121 | a healthy desktop gives a forest that mirrors the top-level windows, and any other desktop an empty forest; the picker is idle, nothing is highlighted or selected, and no work is pending |
| Inspector.MainWindow.CreateUIElementInfo | MainWindow.xaml.cs:165-204 | the node loop builds exactly the node the building rule describes, and advances the allocation counter by the same amount |
| Inspector.MainWindow.LoadDesktopElements | MainWindow.xaml.cs:123-163 | the snapshot is replaced wholesale. It is kept when the root cannot be read, cleared when the query fails, and otherwise mirrors the windows with fresh ids. The count equals the forest size after a completed refresh. Node ids stay distinct |
| Inspector.MainWindow.FindElementInTreeByAutomationElement | MainWindow.xaml.cs:1384-1402 | no search for a null or unreadable runtime id; otherwise the first-match search, and a node found belongs to the snapshot |
| Inspector.MainWindow.GetPathToElement | MainWindow.xaml.cs:1526-1543 | the chain from a top-level node to the target object, or null |
| Inspector.MainWindow.ExpandPathInTreeView | MainWindow.xaml.cs:1634-1654 | exactly the nodes of the path but the last get expanded |
| Inspector.MainWindow.SelectAndExpandToElement | MainWindow.xaml.cs:1591-1630 | a node with a path is selected with its ancestors expanded; one without a path is left alone |
| Inspector.MainWindow.SelectFromTree | MainWindow.xaml.cs:353-360 | the node picked in the tree becomes the selection |
| Inspector.MainWindow.CreateAndShowTemporaryElement | MainWindow.xaml.cs:1822-1846 | a new node for the element, with no children, is selected and is not part of the snapshot |
| Inspector.MainWindow.StopPickingElement | MainWindow.xaml.cs:1236-1261 | afterwards the picker is off and no hook is held; unhooking is called once, and only when a hook was held |
| Inspector.MainWindow.StartPickingElement | MainWindow.xaml.cs:1206-1234 | the window is minimized. Picking is on iff the hook call returns a non-zero handle without raising, and then that hook is held. Otherwise the picker ends stopped with no hook, and a hook installed before the raise is released |
| Inspector.MainWindow.BtnPickElement_Click | MainWindow.xaml.cs:339-349 | while picking: the picker stops, its hook is released and the window state is kept. Otherwise the window is minimized and picking is on iff the hook was installed without a fault, holding that hook; on failure no hook is held, and a hook installed before the raise is released |
| Inspector.MainWindow.MouseHookProc | MainWindow.xaml.cs:1263-1286 | a click is swallowed (result 1) and its resolution queued exactly when `nCode >= 0`, picking is on, the message is a left-button press and posting does not raise; otherwise (the catch path included) the next hook's result is passed on and nothing is queued |
| Inspector.MainWindow.HandleElementClick | MainWindow.xaml.cs:1288-1382 | picking stops first and its hook is released. A refused click changes nothing else. An inspected one optionally maximizes the window, then selects the node found or rebuilds and posts a second search; pending searches are only ever added to |
| Inspector.MainWindow.ClickedTarget | MainWindow.xaml.cs:1296-1327 | the checks in order yield the hit element exactly when the verdict is "inspect" |
| Inspector.MainWindow.LocateClicked | MainWindow.xaml.cs:1345-1375 | a hit in the snapshot is selected and its ancestors expanded; a miss rebuilds the snapshot, keeps the selection and posts the element for a second search |
| Inspector.MainWindow.DeferredSearch | MainWindow.xaml.cs:1361-1374 | the second search selects the node found with its ancestors expanded, or else a new detached node that is not part of the snapshot |
| Inspector.MainWindow.RunNextTask | MainWindow.xaml.cs:1332-1374 | a pending click is resolved before any pending second search, with the full effect of `HandleElementClick` and without consuming a search; otherwise the oldest search runs with the full effect of `DeferredSearch` on the unchanged snapshot; each queue is consumed in order; a search leaves the snapshot, its count, the window state and the picker with its hooks unchanged; with nothing pending no field changes |
| Inspector.MainWindow.RemoveHighlight | MainWindow.xaml.cs:523-542 | the current overlay is forgotten, and afterwards no overlay is on screen |
| Inspector.MainWindow.HighlightElement | MainWindow.xaml.cs:478-521 | every earlier overlay is taken down first. A new overlay is shown and current iff the bounds are positive in both dimensions and the element is on screen. It sits over the rectangle the geometry routine computes |
| Inspector.MainWindow.BtnHighlight_Click | MainWindow.xaml.cs:270-286 | with a node selected the flag toggles, and the button highlights or removes accordingly; without one neither the window nor any overlay changes |
| Inspector.MainWindow.OnClosed | MainWindow.xaml.cs:1849-1868 | closing stops an active picker, releasing its hook, and leaves no overlay on screen |
| FindControl.LookupSound | FindControlDialog.xaml.cs:130-155 | the switch yields a type iff some arm has the name, and then the type of such an arm |
| FindControl.LookupFindsArm | FindControlDialog.xaml.cs:130-155 | with pairwise different arm names, each arm's name selects that arm's type |
| FindControl.ControlTypeFromNameSound | FindControlDialog.xaml.cs:128-156 | a name resolves iff some arm spells it in lower case, and then to that arm's type; any other name gives null |
| FindControl.ArmNamesDistinct | FindControlDialog.xaml.cs:132-153 | the switch's arm names are pairwise different |
| FindControl.OfferedNamesAreTypeNames | FindControlDialog.xaml.cs:27-32 | the combo box offers each arm's type under its own identifier, in switch order, except "Dialog" |
| FindControl.OfferedNamesLower | FindControlDialog.xaml.cs:27-32 | lower-casing an offered name gives the arm name at the same position |
| FindControl.OfferedNamesResolve | FindControlDialog.xaml.cs:128-156 | every name the combo box offers resolves to its arm's type |
| FindControl.DialogMeansWindow | FindControlDialog.xaml.cs:151-152 | "Dialog", in any letter case, selects the window type |
| FindControl.TypeNameResolves | FindControlDialog.xaml.cs:128-156 | a type the switch knows is found under its identifier, in any letter case |
| FindControl.ResolvedNameSpellsType | FindControlDialog.xaml.cs:128-156 | a name that resolves spells the selected type's identifier, or "Dialog" for the window type, ignoring case; every other name gives null |
| FindControl.ControlTypeNameCaseIrrelevant | FindControlDialog.xaml.cs:130 | the lookup ignores letter case |
| FindControl.AllSatisfiedAppend | FindControlDialog.xaml.cs:84 | all conditions of a concatenation hold iff all of each part hold |
| FindControl.AllSatisfiedPart | FindControlDialog.xaml.cs:53-75 | a criterion that is not asked for constrains nothing |
| FindControl.CombineMeansAll | FindControlDialog.xaml.cs:78-84 | the combined condition holds iff every collected condition does |
| FindControl.QueryMeansCriteria | FindControlDialog.xaml.cs:51-84 | the built condition selects exactly the elements that meet every criterion asked for; an unchecked box, an empty text or an unknown type name asks nothing |
| FindControl.NoCriteriaMatchesAll | FindControlDialog.xaml.cs:51-84 | criteria that ask nothing are met by every element |
| FindControl.InfoOf | FindControlDialog.xaml.cs:96-109 | an entry exists iff every read succeeds and the control type is non-null. Its type is the identifier without "ControlType.", and its null strings are empty |
| FindControl.Harvest | FindControlDialog.xaml.cs:93-115 | no more entries than query results |
| FindControl.HarvestDescribes | FindControlDialog.xaml.cs:93-115 | the listed elements are exactly the describable results in query order, and each entry describes its element |
| FindControl.ResultsMeetCriteria | FindControlDialog.xaml.cs:40-126 | every listed entry is in the searched scope (children, or descendants when asked), meets the criteria, and describes its element |
| FindControl.FindControlDialog.constructor | FindControlDialog.xaml.cs:18-22 | a new dialog has no results, no selection and no outcome |
| FindControl.FindControlDialog.BuildCondition | FindControlDialog.xaml.cs:51-84 | the collected conditions in order: `TrueCondition` when there are none, the single one alone, otherwise their `AndCondition` |
| FindControl.FindControlDialog.BtnFind_Click | FindControlDialog.xaml.cs:40-126 | the results are cleared and then exactly the search results are listed, and nothing when the desktop cannot be read or queried |
| FindControl.FindControlDialog.ListDescribable | FindControlDialog.xaml.cs:93-115 | the loop lists exactly `Harvest` of the query results: one entry per describable element, in query order |
| FindControl.FindControlDialog.BtnSelect_Click | FindControlDialog.xaml.cs:163-171 | the entry is selected and the dialog accepted only when `0 <= index < count`; otherwise nothing changes |
| FindControl.FindControlDialog.BtnCancel_Click | FindControlDialog.xaml.cs:173-177 | the dialog is cancelled and closed |
| FindWindow.WindowInfoOf | FindWindowDialog.xaml.cs:40-46 | a record exists iff the title, class and process id reads succeed; null strings are listed as empty |
| FindWindow.WindowMatches | FindWindowDialog.xaml.cs:49-67 | with every box unchecked or every text empty, each window matches |
| FindWindow.Found | FindWindowDialog.xaml.cs:36-80 | no more records than windows |
| FindWindow.FoundSound | FindWindowDialog.xaml.cs:49-73 | every listed record describes one of the windows and meets the criteria |
| FindWindow.FoundComplete | FindWindowDialog.xaml.cs:49-73 | every readable window that meets the criteria is listed |
| FindWindow.NoCriteriaListsAll | FindWindowDialog.xaml.cs:49-67 | with no criterion enabled every readable window is listed |
| FindWindow.CriteriaCaseIrrelevant | FindWindowDialog.xaml.cs:53-58 | the letter case of the title and class texts does not matter |
| FindWindow.TitleExactlyContained | FindWindowDialog.xaml.cs:53 | a title that contains the text exactly passes the title criterion |
| FindWindow.UnparsedProcessIdIgnored | FindWindowDialog.xaml.cs:61-67 | a process id text that does not parse is ignored rather than rejecting the window |
| FindWindow.FindWindowDialog.constructor | FindWindowDialog.xaml.cs:17-20 | a new dialog has no results, no selection and no outcome |
| FindWindow.FindWindowDialog.BtnFind_Click | FindWindowDialog.xaml.cs:22-91 | the list is cleared, then the running `matches` flag adds exactly the matching readable windows in enumeration order, and nothing when the desktop cannot be queried |
| FindWindow.FindWindowDialog.BtnSelect_Click | FindWindowDialog.xaml.cs:98-106 | the record is selected and the dialog accepted only when `0 <= index < count`; otherwise nothing changes |
| FindWindow.FindWindowDialog.BtnCancel_Click | FindWindowDialog.xaml.cs:108-112 | the dialog is cancelled and closed |

## Left out

- Win32 calls are not modelled: the hook functions, `GetDC` and `GetDeviceCaps`, `GetWindowRect` and `ClientToScreen`, and `HwndSource`. Their results are parameters: a hook handle that may be 0, a screen query, an optional rectangle or mapping, and the host's own window handle. `UnhookWindowsHookEx` is assumed to succeed.
- UI Automation calls are not modelled. `FindAll`, `FromPoint`, `GetRuntimeId`, `TreeWalker.GetParent` and `.Current.*` are answers carried by the `Element`, `Desktop` and `Ancestry` datatypes, each read able to raise.
- Threading is not modelled. `Dispatcher.BeginInvoke` appends to a FIFO queue, and the hook callback and the posted work run one step at a time (`RunNextTask`).
- The dispatcher model does not include a modal `MessageBox` letting other posted work run in the middle of `HandleElementClick`.
- The user's answer to "restore the window?" is an input (`ClickWorld.restoreWindow`). `Activate` is not modelled.
- Floating point is not modelled: `float` and `double` are reals, the scale `dpi / 96` is exact, and `Math.Round` is rounding half to even on reals. The `(int)` cast of a rounded value that does not fit in 32 bits is not modelled.
- The `RECT` subtraction `Right - Left` is on unbounded integers, so 32-bit wrap-around is not modelled.
- A device resolution is taken to be positive.
- `GetSystemDpiScale`, the instance twin of `GetStaticSystemDpiScale`, shares its model `SystemDpiScale`. The unused `GetDpiScale` is not modelled.
- `HighlightWindow.Show` runs the `Loaded` handler at once: loading is taken to follow `Show` synchronously.
- `Activate`, topmost and transparency flags, and the outline's colour and thickness are not modelled.
- The tree view's item containers are not modelled: `FindDirectTreeViewItem`, `FindTreeViewItemRecursive`, `ExpandAndScrollToItem`, `SelectTreeViewItem`, `UpdateLayout` and `BringIntoView`. Expansion is a set of node ids, and a container is assumed to exist for every node on the path.
- The following are not modelled, because they are display, I/O or reflection with no decision logic of their own:
  - status text (`UpdateStatus`), `MessageBox` and `Debug.WriteLine` output other than the reads the latter performs;
  - the property and pattern panels (`LoadElementProperties`, `CheckPatternSupport`);
  - pattern actions, clipboard copy, JSON/TXT export and screenshot capture;
  - button captions and colours, and `ListResults_SelectionChanged` enabling the select buttons.
- Case folding covers ASCII letters only. Culture-specific and Unicode case mappings of `ToLower` and `OrdinalIgnoreCase` are not modelled.
- Strings.ParseInt32 does not model the trailing NUL characters `int.TryParse` accepts, nor culture-specific signs and white space.
- Inspector.MainWindow.LoadDesktopElements: a refresh that fails leaves the status-bar count as it was, which the source also does. No relation between the count and the forest is claimed in that case.
- Inspector.MainWindow.BtnHighlight_Click: when highlighting is refused, the flag still reads "highlighting" with no overlay on screen, as in the source. The model states exactly that rather than a consistency between the flag and the overlay.
- `UIElementInfo` is a datatype with an allocation id. Its `INotifyPropertyChanged` members, its `IsExpanded` and `IsSelected` flags, and its `Parent` are not modelled. Selection and expansion live on the window.
- Automation.Element: `childrenFailAfter` with a value above 0 (a child enumeration failing part way) and `mirrorFails` (a node whose construction raises) describe failures the code cannot produce, since `FindAll` returns a materialised collection and the name and type helpers catch their own exceptions. They are over-approximations; every property proved holds with them too.
- Inspector.MainWindow.HandleElementClick is split into `ClickedTarget`, the checks, and `LocateClicked`, the search with its fallback. The behaviour is the same, in the same order.
- FindControl.ControlTypeFromName models the C# `switch` expression as a lookup in the table of its arms, in arm order.
