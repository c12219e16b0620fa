/** The inspector's main window (`MainWindow.xaml.cs`): the snapshot of the
    desktop, the selected node, the element picker with its low-level mouse
    hook, and the highlight session.

    The UI thread's dispatcher is modelled by two FIFO queues of posted
    work: `pendingClicks`, the click resolutions posted by `BeginInvoke` at
    normal priority, and `pendingSearches`, the second searches posted at
    `DispatcherPriority.Background`; pending normal work runs first. */
module Inspector {
  import opened Strings
  import opened Automation
  import opened Snapshot
  import opened SelfExclusion
  import opened Highlight

  datatype WindowState = Normal | Minimized | Maximized

  /** A screen point delivered by the mouse hook. */
  datatype Point = Point(x: int, y: int)

  /** Where `StartPickingElement`'s try block raises, if it does: in the
      `SetWindowsHookEx` call, or after the hook has been installed. */
  datatype StartFault = NoFault | HookCallRaises | RaisesAfterInstall

  /** The answers the outside world gives while a click is resolved:
      `AutomationElement.FromPoint` (an element, null, or a raise), the parent
      walk from the hit element, the user's answer to "restore the window?",
      and the desktop a rebuild would read. */
  datatype ClickWorld = ClickWorld(
    hit: Read<Option<Element>>,
    ancestry: Ancestry,
    restoreWindow: bool,
    desktop: Desktop)

  const WM_LBUTTONDOWN: int := 0x0201

  // ---------------------------------------------------------------------
  // Specification functions

  /** The forest and allocation counter after `LoadDesktopElements`: reading
      the desktop root fails before anything is cleared; a failing window
      query leaves the forest cleared; otherwise the forest mirrors the
      top-level windows. */
  function Refreshed(forest: seq<Node>, d: Desktop, next: nat): (seq<Node>, nat)
  {
    match d.fault
    case RootUnavailable => (forest, next)
    case QueryFails => ([], next)
    case Healthy =>
      var windows := TopLevelWindows(d);
      MirrorAll(windows, |windows|, next)
  }

  /** A completed refresh holds one node per top-level window whose node
      could be built, in the order the desktop lists them, and nothing else;
      the nodes are new objects. */
  lemma RefreshMirrorsWindows(forest: seq<Node>, d: Desktop, next: nat)
    requires d.fault.Healthy?
    ensures Sources(Refreshed(forest, d, next).0) == Filter(TopLevelWindows(d), Mirrorable)
    ensures IdsWithin(Nodes(Refreshed(forest, d, next).0), next, Refreshed(forest, d, next).1)
    ensures DistinctIds(Nodes(Refreshed(forest, d, next).0))
  {
    var windows := TopLevelWindows(d);
    MirrorAllShape(windows, |windows|, next);
    MirrorAllIdsFresh(windows, |windows|, next);
    assert windows[..|windows|] == windows;
  }

  /** The nodes mirrored from a list of windows carry distinct ids, all
      allocated from `start` on. */
  lemma MirroredWindowsFresh(windows: seq<Element>, start: nat)
    ensures var (forest, next) := MirrorAll(windows, |windows|, start);
      && IdsWithin(Nodes(forest), start, next)
      && IdsWithin(Nodes(forest), 0, next)
      && DistinctIds(Nodes(forest))
  {
    MirrorAllIdsFresh(windows, |windows|, start);
  }

  /** `FindElementInTreeByAutomationElement`: a target whose runtime id is
      null or cannot be read is not searched for. */
  function FindInTree(forest: seq<Node>, target: Element): Option<Node>
  {
    match target.runtimeId
    case Got(Some(t)) => Locate(forest, t)
    case _ => None
  }

  /** The ids of the nodes `ExpandPathInTreeView` expands: all but the last. */
  function PathIds(path: seq<Node>): set<nat>
  {
    set i | 0 <= i < |path| - 1 :: path[i].id
  }

  /** The ids `SelectAndExpandToElement` expands for a node. */
  function ExpandedFor(forest: seq<Node>, n: Node): set<nat>
  {
    match PathFrom(forest, n.id)
    case Some(p) => PathIds(p)
    case None => {}
  }

  datatype Refusal = ClickFailed | NoElement | OwnElement | NoRootWindow | OwnRootWindow

  /** How `HandleElementClick` treats a hit: refused at the first check that
      fails, or inspected. */
  datatype ClickVerdict = Refused(reason: Refusal) | Inspect(element: Element)

  function Verdict(hit: Read<Option<Element>>, ancestry: Ancestry, host: Host): (v: ClickVerdict)
    // inspected exactly when every check passes, and then it is the hit element
    ensures v.Inspect? <==>
      && hit.Got? && hit.value.Some?
      && !IsOwnApplicationElement(hit.value, host)
      && RootOf(hit.value.value, ancestry).Some?
      && !IsOwnApplicationElement(RootOf(hit.value.value, ancestry), host)
    ensures v.Inspect? ==> hit == Got(Some(v.element))
    // an element of the inspector is refused before its root window is sought
    ensures hit.Got? && hit.value.Some? && IsOwnApplicationElement(hit.value, host)
      ==> v == Refused(OwnElement)
  {
    match hit
    case Throws => Refused(ClickFailed)
    case Got(None) => Refused(NoElement)
    case Got(Some(e)) =>
      if IsOwnApplicationElement(Some(e), host) then Refused(OwnElement)
      else
        var root := RootOf(e, ancestry);
        if root.None? then Refused(NoRootWindow)
        else if IsOwnApplicationElement(root, host) then Refused(OwnRootWindow)
        else Inspect(e)
  }

  /** The bounding rectangle is positive in both dimensions and the element
      is on screen: `HighlightElement` creates an overlay only then. */
  predicate Highlightable(e: Element)
  {
    && e.bounds.Got? && e.bounds.value.width > 0.0 && e.bounds.value.height > 0.0
    && e.isOffscreen == Got(false)
  }

  // ---------------------------------------------------------------------
  // The window

  class MainWindow {
    const host: Host
    /** `_uiElements`, the tree view's items. */
    var uiElements: seq<Node>
    /** The count shown in the status bar. */
    var elementCount: nat
    /** The id the next `UIElementInfo` allocated receives. */
    var nextId: nat
    /** `_selectedElement`. */
    var selected: Option<Node>
    /** Ids of the nodes whose tree view items have been expanded. */
    var expanded: set<nat>
    var isHighlighting: bool
    /** `_currentHighlightWindow`. */
    var currentHighlight: HighlightWindow?
    /** `_mouseHook`: 0 when no hook is installed. */
    var mouseHook: int
    /** `_isPickingElement`. */
    var isPicking: bool
    var windowState: WindowState
    var pendingClicks: seq<Point>
    var pendingSearches: seq<Element>
    /** The hooks the system currently has installed for the inspector, and
        the handles passed to `UnhookWindowsHookEx` so far. */
    ghost var liveHooks: set<int>
    ghost var unhooked: seq<int>
    /** Every overlay this window has created. */
    ghost var overlays: set<HighlightWindow>

    /** The installed hook, if any, is the one `_mouseHook` holds. */
    ghost predicate HooksTracked()
      reads this`liveHooks, this`mouseHook
    {
      liveHooks == if mouseHook != 0 then {mouseHook} else {}
    }

    /** The picker is on exactly while a hook is held. */
    ghost predicate PickerValid()
      reads this`liveHooks, this`mouseHook, this`isPicking
    {
      HooksTracked() && (isPicking <==> mouseHook != 0)
    }

    /** The nodes of the snapshot are distinct objects, all allocated. */
    ghost predicate SnapshotValid()
      reads this`uiElements, this`nextId
    {
      IdsWithin(Nodes(uiElements), 0, nextId) && DistinctIds(Nodes(uiElements))
    }

    /** At most one overlay is on screen, and it is the current one. */
    ghost predicate OverlaysValid()
      reads this`currentHighlight, this`overlays, overlays
    {
      && (currentHighlight != null ==> currentHighlight in overlays)
      && (forall w :: w in overlays ==> w.Valid())
      && (forall w :: w in overlays && w != currentHighlight ==> !w.Live())
    }

    ghost predicate Valid()
      reads this, overlays
    {
      PickerValid() && SnapshotValid() && OverlaysValid()
    }

    /** The constructor and `InitializeUI`: an empty tree, a count of 0,
        then a first load of the desktop. */
    constructor (host: Host, desktop: Desktop)
      ensures Valid()
      ensures this.host == host
      ensures desktop.fault.Healthy? ==>
        uiElements == MirrorAll(TopLevelWindows(desktop), |TopLevelWindows(desktop)|, 0).0
      ensures !desktop.fault.Healthy? ==> uiElements == []
      ensures !isPicking && currentHighlight == null && selected.None?
      ensures pendingClicks == [] && pendingSearches == []
    {
      this.host := host;
      uiElements := [];
      elementCount := 0;
      nextId := 0;
      selected := None;
      expanded := {};
      isHighlighting := false;
      currentHighlight := null;
      mouseHook := 0;
      isPicking := false;
      windowState := Normal;
      pendingClicks := [];
      pendingSearches := [];
      liveHooks := {};
      unhooked := [];
      overlays := {};
      new;
      assert Nodes(uiElements) == [];
      LoadDesktopElements(desktop);
      assert PickerValid() && OverlaysValid();
    }

    // -------------------------------------------------------------------
    // Snapshot

    /** `CreateUIElementInfo`: allocates the node, then builds and appends
        the children one by one. */
    method CreateUIElementInfo(element: Element) returns (info: Option<Node>)
      modifies this`nextId
      ensures (info, nextId) == Mirror(element, old(nextId))
      decreases element
    {
      if element.mirrorFails {
        return None;
      }
      var id := nextId;
      nextId := nextId + 1;
      var children: seq<Node> := [];
      var delivered := EnumeratedCount(element);
      var i := 0;
      while i < delivered
        invariant 0 <= i <= delivered
        invariant (children, nextId) == MirrorAll(element.children, i, id + 1)
      {
        MirrorAllStep(element.children, i, id + 1);
        ghost var before := nextId;
        var childInfo := CreateUIElementInfo(element.children[i]);
        assert (childInfo, nextId) == Mirror(element.children[i], before);
        if childInfo.Some? {
          children := children + [childInfo.value];
        }
        assert children == MirrorAll(element.children, i, id + 1).0 + Kept(childInfo);
        assert nextId == MirrorAll(element.children, i + 1, id + 1).1;
        assert children == MirrorAll(element.children, i + 1, id + 1).0;
        i := i + 1;
      }
      return Some(Node(id, element, ElementName(element), ControlTypeName(element), children));
    }

    /** `LoadDesktopElements`: clears the forest and refills it with the
        nodes of the top-level windows; the count is updated only when the
        refresh completes. */
    method LoadDesktopElements(desktop: Desktop)
      requires SnapshotValid()
      modifies this`uiElements, this`nextId, this`elementCount
      ensures SnapshotValid()
      ensures (uiElements, nextId) == Refreshed(old(uiElements), desktop, old(nextId))
      ensures desktop.fault.Healthy? ==>
        && elementCount == |uiElements|
        && IdsWithin(Nodes(uiElements), old(nextId), nextId)
      ensures !desktop.fault.Healthy? ==> elementCount == old(elementCount)
    {
      if desktop.fault == RootUnavailable {
        return;
      }
      uiElements := [];
      assert Nodes(uiElements) == [];
      if desktop.fault == QueryFails {
        return;
      }
      var windows := TopLevelWindows(desktop);
      ghost var start := nextId;
      var i := 0;
      while i < |windows|
        invariant 0 <= i <= |windows|
        invariant (uiElements, nextId) == MirrorAll(windows, i, start)
      {
        MirrorAllStep(windows, i, start);
        ghost var before := nextId;
        var windowInfo := CreateUIElementInfo(windows[i]);
        assert (windowInfo, nextId) == Mirror(windows[i], before);
        if windowInfo.Some? {
          uiElements := uiElements + [windowInfo.value];
        }
        assert uiElements == MirrorAll(windows, i, start).0 + Kept(windowInfo);
        assert nextId == MirrorAll(windows, i + 1, start).1;
        assert uiElements == MirrorAll(windows, i + 1, start).0;
        i := i + 1;
      }
      elementCount := |uiElements|;
      assert (uiElements, nextId) == MirrorAll(windows, |windows|, start);
      assert Refreshed(old(uiElements), desktop, start) == MirrorAll(windows, |windows|, start);
      MirroredWindowsFresh(windows, start);
    }

    /** `FindElementInTreeByAutomationElement`. */
    method FindElementInTreeByAutomationElement(target: Element) returns (found: Option<Node>)
      ensures found == FindInTree(uiElements, target)
      ensures found.Some? ==> found.value in Nodes(uiElements)
    {
      match target.runtimeId {
        case Got(Some(t)) =>
          found := FindElementInTreeRecursive(uiElements, t);
          if found.Some? {
            LocateInSnapshot(uiElements, t);
          }
        case _ =>
          found := None;
      }
    }

    /** `GetPathToElement`: the chain from a top-level node to `target`. */
    method GetPathToElement(target: Node) returns (path: Option<seq<Node>>)
      ensures path == PathFrom(uiElements, target.id)
    {
      var list := new NodeList();
      var found := FindElementPath(uiElements, target, list);
      if found {
        assert [] + PathFrom(uiElements, target.id).value == PathFrom(uiElements, target.id).value;
        path := Some(list.items);
      } else {
        path := None;
      }
    }

    /** `ExpandPathInTreeView`: expands every node of the path but the last. */
    method ExpandPathInTreeView(path: seq<Node>)
      modifies this`expanded
      ensures expanded == old(expanded) + PathIds(path)
    {
      var i := 0;
      while i < |path| - 1
        invariant 0 <= i <= if |path| == 0 then 0 else |path| - 1
        invariant expanded == old(expanded) + set j | 0 <= j < i :: path[j].id
      {
        expanded := expanded + {path[i].id};
        i := i + 1;
      }
    }

    /** `SelectAndExpandToElement`: a node without a path in the tree is left
        alone; otherwise its ancestors are expanded and it is selected. */
    method SelectAndExpandToElement(info: Node)
      modifies this`selected, this`expanded
      ensures PathFrom(uiElements, info.id).Some? ==>
        selected == Some(info) && expanded == old(expanded) + ExpandedFor(uiElements, info)
      ensures PathFrom(uiElements, info.id).None? ==>
        selected == old(selected) && expanded == old(expanded)
    {
      var path := GetPathToElement(info);
      if path.Some? {
        PathSound(uiElements, info.id);
      }
      if path.None? || |path.value| == 0 {
        return;
      }
      ExpandPathInTreeView(path.value);
      selected := Some(info);
    }

    /** `TreeViewControls_SelectedItemChanged`: the user selects a node of
        the tree. */
    method SelectFromTree(info: Node)
      modifies this`selected
      ensures selected == Some(info)
    {
      selected := Some(info);
    }

    /** `CreateAndShowTemporaryElement`: a detached node for the element,
        selected but not inserted into the forest. */
    method CreateAndShowTemporaryElement(element: Element)
      requires IdsWithin(Nodes(uiElements), 0, nextId)
      modifies this`selected, this`nextId
      ensures selected == Some(Node(old(nextId), element, ElementName(element), ControlTypeName(element), []))
      ensures selected.value !in Nodes(uiElements)
      ensures nextId == old(nextId) + 1
    {
      var temp := Node(nextId, element, ElementName(element), ControlTypeName(element), []);
      FreshNodeOutside(uiElements, temp, nextId);
      nextId := nextId + 1;
      selected := Some(temp);
    }

    // -------------------------------------------------------------------
    // Element picker

    /** `StopPickingElement`: the hook is released only if one is held. */
    method StopPickingElement()
      requires HooksTracked()
      modifies this`isPicking, this`mouseHook, this`liveHooks, this`unhooked
      ensures HooksTracked() && !isPicking && mouseHook == 0 && liveHooks == {}
      ensures unhooked == old(unhooked) + if old(mouseHook) != 0 then [old(mouseHook)] else []
    {
      isPicking := false;
      if mouseHook != 0 {
        unhooked := unhooked + [mouseHook];
        liveHooks := liveHooks - {mouseHook};
        mouseHook := 0;
      }
    }

    /** `StartPickingElement`: minimizes the window and installs the hook;
        `hook` is what `SetWindowsHookEx` returns. A zero handle or a raise
        ends in the stopped state with no hook held. */
    method StartPickingElement(hook: int, fault: StartFault)
      requires PickerValid() && !isPicking
      modifies this`isPicking, this`mouseHook, this`liveHooks, this`unhooked, this`windowState
      ensures PickerValid()
      ensures windowState == Minimized
      ensures isPicking <==> fault == NoFault && hook != 0
      ensures isPicking ==> mouseHook == hook && unhooked == old(unhooked)
      ensures !isPicking ==> mouseHook == 0 && liveHooks == {}
      // only a hook installed before a later raise is released
      ensures !isPicking ==>
        unhooked == old(unhooked) + if fault == RaisesAfterInstall && hook != 0 then [hook] else []
    {
      isPicking := true;
      windowState := Minimized;
      if fault == HookCallRaises {
        StopPickingElement();
        return;
      }
      mouseHook := hook;
      if hook != 0 {
        liveHooks := {hook};
      }
      if mouseHook == 0 {
        StopPickingElement();
        return;
      }
      if fault == RaisesAfterInstall {
        StopPickingElement();
        return;
      }
    }

    /** `BtnPickElement_Click`: toggles the picker. */
    method BtnPickElement_Click(hook: int, fault: StartFault)
      requires Valid()
      modifies this`isPicking, this`mouseHook, this`liveHooks, this`unhooked, this`windowState
      ensures Valid()
      // picking: the picker stops and the hook it held is released
      ensures old(isPicking) ==>
        && !isPicking && mouseHook == 0 && liveHooks == {}
        && unhooked == old(unhooked) + [old(mouseHook)]
        && windowState == old(windowState)
      // not picking: the window is minimized and the hook installed, unless
      // the installation failed, which leaves no hook held
      ensures !old(isPicking) ==>
        && windowState == Minimized
        && (isPicking <==> fault == NoFault && hook != 0)
        && (isPicking ==> mouseHook == hook && unhooked == old(unhooked))
        && (!isPicking ==> mouseHook == 0 && liveHooks == {})
        && (!isPicking ==>
              unhooked == old(unhooked) + if fault == RaisesAfterInstall && hook != 0 then [hook] else [])
    {
      if isPicking {
        StopPickingElement();
      } else {
        StartPickingElement(hook, fault);
      }
    }

    /** `MouseHookProc`: a left-button press while picking is swallowed and
        its resolution posted to the UI thread; anything else is passed on,
        `nextResult` being what `CallNextHookEx` returns. `postRaises` says
        that reading the hook structure or posting raised: the exception is
        caught, nothing is posted and the press is passed on. */
    method MouseHookProc(nCode: int, wParam: int, x: int, y: int, postRaises: bool, nextResult: int)
      returns (result: int)
      modifies this`pendingClicks
      ensures var swallow := nCode >= 0 && isPicking && wParam == WM_LBUTTONDOWN && !postRaises;
        && (swallow ==> result == 1 && pendingClicks == old(pendingClicks) + [Point(x, y)])
        && (!swallow ==> result == nextResult && pendingClicks == old(pendingClicks))
    {
      if nCode >= 0 && isPicking && wParam == WM_LBUTTONDOWN {
        if postRaises {
          return nextResult;
        }
        pendingClicks := pendingClicks + [Point(x, y)];
        return 1;
      }
      return nextResult;
    }

    /** `HandleElementClick`: stops picking, then refuses the click at the
        first failed check, or goes on to locate the hit element. */
    method HandleElementClick(world: ClickWorld)
      requires PickerValid() && SnapshotValid()
      modifies this`isPicking, this`mouseHook, this`liveHooks, this`unhooked, this`windowState,
        this`selected, this`expanded, this`uiElements, this`nextId, this`elementCount,
        this`pendingSearches
      ensures PickerValid() && SnapshotValid()
      ensures ClickHandled(world, old(uiElements), old(nextId), old(elementCount), old(selected),
                           old(expanded), old(pendingSearches), old(windowState), old(mouseHook),
                           old(unhooked))
      ensures old(pendingSearches) <= pendingSearches
    {
      StopPickingElement();
      var target := ClickedTarget(world.hit, world.ancestry);
      if target.Some? {
        if world.restoreWindow {
          windowState := Maximized;
        }
        LocateClicked(target.value, world.desktop);
      }
    }

    /** The checks of `HandleElementClick` in order: the hit must be an
        element, not one of the inspector's, with a root window that is not
        the inspector's. */
    method ClickedTarget(hit: Read<Option<Element>>, ancestry: Ancestry) returns (target: Option<Element>)
      ensures target.Some? <==> Verdict(hit, ancestry, host).Inspect?
      ensures target.Some? ==> target.value == Verdict(hit, ancestry, host).element
    {
      match hit {
        case Throws =>
          return None;
        case Got(None) =>
          return None;
        case Got(Some(element)) =>
          if IsOwnApplicationElement(Some(element), host) {
            return None;
          }
          var rootWindow := GetRootWindow(element, ancestry);
          if rootWindow.None? {
            return None;
          }
          if IsOwnApplicationElement(rootWindow, host) {
            return None;
          }
          return Some(element);
      }
    }

    /** The state after `HandleElementClick(world)`, given the state before:
        the picker is stopped and its hook released; a refused click changes
        nothing else; an inspected one restores the window if asked and
        locates the element (`Located`). */
    ghost predicate ClickHandled(world: ClickWorld, forest: seq<Node>, next: nat, count: nat,
                                 sel: Option<Node>, exp: set<nat>, searches: seq<Element>,
                                 state: WindowState, hook: int, released: seq<int>)
      reads this
    {
      var verdict := Verdict(world.hit, world.ancestry, host);
      && !isPicking && mouseHook == 0 && liveHooks == {}
      && unhooked == released + (if hook != 0 then [hook] else [])
      && (verdict.Refused? ==>
            && uiElements == forest && nextId == next && elementCount == count
            && selected == sel && expanded == exp
            && pendingSearches == searches && windowState == state)
      && (verdict.Inspect? ==>
            && windowState == (if world.restoreWindow then Maximized else state)
            && Located(forest, next, sel, exp, searches, verdict.element, world.desktop))
    }

    /** The state after the clicked element `e` has been looked for in the
        snapshot, given the state before: a hit is selected with its
        ancestors expanded; a miss rebuilds the snapshot and posts a second
        search. */
    ghost predicate Located(forest: seq<Node>, next: nat, sel: Option<Node>, exp: set<nat>,
                            searches: seq<Element>, e: Element, desktop: Desktop)
      reads this
    {
      var found := FindInTree(forest, e);
      && (found.Some? ==>
            && selected == found && uiElements == forest && nextId == next
            && expanded == exp + ExpandedFor(forest, found.value)
            && pendingSearches == searches)
      && (found.None? ==>
            && (uiElements, nextId) == Refreshed(forest, desktop, next)
            && selected == sel && expanded == exp
            && pendingSearches == searches + [e])
    }

    /** The second half of `HandleElementClick`: search the snapshot; on a
        miss, rebuild it and post a second search at background priority. */
    method LocateClicked(element: Element, desktop: Desktop)
      requires SnapshotValid()
      modifies this`selected, this`expanded, this`uiElements, this`nextId, this`elementCount,
        this`pendingSearches
      ensures SnapshotValid()
      ensures Located(old(uiElements), old(nextId), old(selected), old(expanded), old(pendingSearches),
                      element, desktop)
    {
      var foundElement := FindElementInTreeByAutomationElement(element);
      if foundElement.Some? {
        LocatedIsReachable(uiElements, element.runtimeId.value.value);
        SelectAndExpandToElement(foundElement.value);
      } else {
        LoadDesktopElements(desktop);
        pendingSearches := pendingSearches + [element];
      }
    }

    /** The work posted at background priority: search again, and fall back
        to a detached node. */
    method DeferredSearch(element: Element)
      requires SnapshotValid()
      modifies this`selected, this`expanded, this`nextId
      ensures SnapshotValid()
      ensures uiElements == old(uiElements)
      ensures Searched(old(expanded), old(nextId), element)
    {
      var retryFoundElement := FindElementInTreeByAutomationElement(element);
      if retryFoundElement.Some? {
        LocatedIsReachable(uiElements, element.runtimeId.value.value);
        SelectAndExpandToElement(retryFoundElement.value);
      } else {
        CreateAndShowTemporaryElement(element);
      }
    }

    /** The state after the deferred search for `e`, given the expanded set
        and the id counter before: a hit is selected with its ancestors
        expanded; a miss selects a fresh detached node. */
    ghost predicate Searched(exp: set<nat>, next: nat, e: Element)
      reads this`uiElements, this`selected, this`expanded, this`nextId
    {
      var found := FindInTree(uiElements, e);
      && (found.Some? ==>
            && selected == found
            && expanded == exp + ExpandedFor(uiElements, found.value)
            && nextId == next)
      && (found.None? ==>
            && selected == Some(Node(next, e, ElementName(e), ControlTypeName(e), []))
            && selected.value !in Nodes(uiElements)
            && expanded == exp)
    }

    /** The dispatcher runs one piece of pending work: a pending click
        resolution before any pending second search. `world` supplies the
        answers a click resolution needs. */
    method RunNextTask(world: ClickWorld)
      requires Valid()
      modifies this`pendingClicks, this`pendingSearches, this`isPicking, this`mouseHook,
        this`liveHooks, this`unhooked, this`windowState, this`selected, this`expanded,
        this`uiElements, this`nextId, this`elementCount
      ensures Valid()
      // a pending click is resolved first, with the effects of `HandleElementClick`
      ensures old(pendingClicks) != [] ==>
        && pendingClicks == old(pendingClicks)[1..]
        && ClickHandled(world, old(uiElements), old(nextId), old(elementCount), old(selected),
                        old(expanded), old(pendingSearches), old(windowState), old(mouseHook),
                        old(unhooked))
      // a click resolution may post a search but never consumes one
      ensures old(pendingClicks) != [] ==> old(pendingSearches) <= pendingSearches
      // otherwise the oldest pending search runs, on the unchanged snapshot
      ensures old(pendingClicks) == [] && old(pendingSearches) != [] ==>
        && pendingClicks == [] && pendingSearches == old(pendingSearches)[1..]
        && uiElements == old(uiElements) && elementCount == old(elementCount)
        && isPicking == old(isPicking) && mouseHook == old(mouseHook)
        && liveHooks == old(liveHooks) && unhooked == old(unhooked)
        && windowState == old(windowState)
        && Searched(old(expanded), old(nextId), old(pendingSearches)[0])
      // with nothing pending, nothing changes
      ensures old(pendingClicks) == [] && old(pendingSearches) == [] ==> unchanged(this)
    {
      if pendingClicks != [] {
        RunClick(world);
      } else if pendingSearches != [] {
        RunSearch();
      }
    }

    /** The click branch of `RunNextTask`. */
    method RunClick(world: ClickWorld)
      requires Valid() && pendingClicks != []
      modifies this`pendingClicks, this`isPicking, this`mouseHook, this`liveHooks, this`unhooked,
        this`windowState, this`selected, this`expanded, this`uiElements, this`nextId,
        this`elementCount, this`pendingSearches
      ensures Valid()
      ensures pendingClicks == old(pendingClicks)[1..]
      ensures ClickHandled(world, old(uiElements), old(nextId), old(elementCount), old(selected),
                           old(expanded), old(pendingSearches), old(windowState), old(mouseHook),
                           old(unhooked))
      ensures old(pendingSearches) <= pendingSearches
    {
      HandleElementClick(world);
      pendingClicks := pendingClicks[1..];
    }

    /** The search branch of `RunNextTask`. */
    method RunSearch()
      requires Valid() && pendingSearches != []
      modifies this`pendingSearches, this`selected, this`expanded, this`nextId
      ensures Valid()
      ensures pendingSearches == old(pendingSearches)[1..]
      ensures Searched(old(expanded), old(nextId), old(pendingSearches)[0])
    {
      DeferredSearch(pendingSearches[0]);
      pendingSearches := pendingSearches[1..];
    }

    // -------------------------------------------------------------------
    // Highlight session

    /** `RemoveHighlight`: closes the overlay if it has been loaded and
        forgets it; afterwards no overlay is on screen. */
    method RemoveHighlight()
      requires OverlaysValid()
      modifies this`currentHighlight, overlays
      ensures OverlaysValid()
      ensures currentHighlight == null
      ensures forall w :: w in overlays ==> !w.Live()
      ensures overlays == old(overlays)
    {
      if currentHighlight != null {
        if currentHighlight.isLoaded {
          currentHighlight.Close();
        }
        currentHighlight := null;
      }
    }

    /** `HighlightElement`: removes the current overlay, then shows a new one
        over the element when its bounds are positive and it is on screen. */
    method HighlightElement(info: Node, q: ScreenQuery)
      requires OverlaysValid()
      modifies this`currentHighlight, this`overlays, overlays
      ensures OverlaysValid()
      ensures forall w :: w in old(overlays) ==> !w.Live()
      ensures currentHighlight != null <==> Highlightable(info.element)
      ensures currentHighlight != null ==>
        && fresh(currentHighlight) && currentHighlight.Live() && currentHighlight.timerRunning
        && currentHighlight.bounds == PhysicalRect(info.element.bounds.value, ProcessDpiAwareness(), q)
    {
      RemoveHighlight();
      var element := info.element;
      match element.bounds {
        case Throws =>
          return;
        case Got(rect) =>
          if rect.width <= 0.0 || rect.height <= 0.0 {
            return;
          }
          if element.isOffscreen != Got(false) {
            // the read raised, or the element is off screen
            return;
          }
          var w := CreateFromAutomationRect(rect, q);
          overlays := overlays + {w};
          currentHighlight := w;
          w.Show();
      }
    }

    /** `BtnHighlight_Click`: with a node selected, toggles the highlight
        flag and highlights or removes accordingly. */
    method BtnHighlight_Click(q: ScreenQuery)
      requires Valid()
      modifies this`isHighlighting, this`currentHighlight, this`overlays, overlays
      ensures Valid()
      ensures selected.None? ==> unchanged(this) && unchanged(overlays)
      ensures selected.Some? ==> isHighlighting == !old(isHighlighting)
      ensures selected.Some? && isHighlighting ==>
        (currentHighlight != null <==> Highlightable(selected.value.element))
      ensures selected.Some? && !isHighlighting ==> currentHighlight == null
      ensures selected.Some? ==> forall w :: w in old(overlays) ==> !w.Live()
    {
      if selected.Some? {
        isHighlighting := !isHighlighting;
        if isHighlighting {
          HighlightElement(selected.value, q);
        } else {
          RemoveHighlight();
        }
      }
    }

    /** `OnClosed`: stops an active picker and removes the highlight. */
    method OnClosed()
      requires Valid()
      modifies this`isPicking, this`mouseHook, this`liveHooks, this`unhooked, this`currentHighlight, overlays
      ensures Valid()
      ensures !isPicking && mouseHook == 0 && liveHooks == {}
      ensures unhooked == old(unhooked) + if old(mouseHook) != 0 then [old(mouseHook)] else []
      ensures currentHighlight == null && forall w :: w in overlays ==> !w.Live()
    {
      if isPicking {
        StopPickingElement();
      }
      RemoveHighlight();
    }
  }
}
