/** The inspector's mirrored snapshot of the provider tree (`UIElementInfo`
    nodes in `MainWindow.xaml.cs`): how a node is built from an element, the
    identity search by runtime id, and the root-to-node path used to expand
    the tree view.

    A `UIElementInfo` is a heap object compared by reference. Here a node
    carries `id`, the serial number of its allocation: two nodes are the same
    object exactly when their ids are equal, and the builder issues every id
    once (see `MirrorIdsFresh`). */
module Snapshot {
  import opened Strings
  import opened Automation

  datatype Node = Node(
    id: nat,
    element: Element,
    displayName: string,
    controlType: string,
    children: seq<Node>)

  // ---------------------------------------------------------------------
  // Attributes shown for a node

  /** `string.IsNullOrEmpty` on an attribute read that succeeded. */
  predicate Blank(a: Read<Option<string>>)
  {
    a == Got(None) || a == Got(Some(""))
  }

  /** `GetElementName`: the first non-empty of Name, AutomationId and
      ClassName; a read that raises ends the attempt with the empty string. */
  function ElementName(e: Element): (r: string)
    ensures e.name.Got? && !Blank(e.name) ==> r == e.name.value.value
    ensures Blank(e.name) && e.automationId.Got? && !Blank(e.automationId)
      ==> r == e.automationId.value.value
    ensures Blank(e.name) && Blank(e.automationId) && e.className.Got?
      ==> r == (if e.className.value.Some? then e.className.value.value else "")
    ensures (|| e.name.Throws?
             || (Blank(e.name) && e.automationId.Throws?)
             || (Blank(e.name) && Blank(e.automationId) && e.className.Throws?))
      ==> r == ""
  {
    match e.name
    case Throws => ""
    case Got(n) =>
      if n.Some? && n.value != "" then n.value
      else match e.automationId
        case Throws => ""
        case Got(a) =>
          if a.Some? && a.value != "" then a.value
          else match e.className
            case Throws => ""
            case Got(c) => if c.Some? then c.value else ""
  }

  /** `GetControlTypeName`: the programmatic name without its "ControlType."
      prefix, or "Unknown" when the control type is null or cannot be read. */
  function ControlTypeName(e: Element): (r: string)
    ensures e.controlType.Got? && e.controlType.value.Some?
      ==> r == TypeName(e.controlType.value.value)
    ensures !(e.controlType.Got? && e.controlType.value.Some?) ==> r == "Unknown"
  {
    match e.controlType
    case Got(Some(ct)) =>
      StripProgrammaticName(ct);
      RemoveAll(ProgrammaticName(ct), ControlTypePrefix)
    case _ => "Unknown"
  }

  // ---------------------------------------------------------------------
  // Building (CreateUIElementInfo, LoadDesktopElements)

  /** The node `CreateUIElementInfo(e)` returns when the next object
      allocated gets id `next`, and the allocation counter afterwards. */
  function Mirror(e: Element, next: nat): (r: (Option<Node>, nat))
    ensures next <= r.1
    decreases e
  {
    if e.mirrorFails then (None, next)
    else
      var (kids, after) := MirrorAll(e.children, EnumeratedCount(e), next + 1);
      (Some(Node(next, e, ElementName(e), ControlTypeName(e), kids)), after)
  }

  /** The nodes built for `es[..n]`, in order, skipping those whose
      construction fails. */
  function MirrorAll(es: seq<Element>, n: nat, next: nat): (r: (seq<Node>, nat))
    requires n <= |es|
    ensures next <= r.1
    decreases es, n
  {
    if n == 0 then ([], next)
    else
      var (kids, mid) := MirrorAll(es, n - 1, next);
      var (node, after) := Mirror(es[n - 1], mid);
      (kids + (if node.Some? then [node.value] else []), after)
  }

  /** The nodes a build contributes: none when it fails. */
  function Kept(node: Option<Node>): seq<Node>
  {
    if node.Some? then [node.value] else []
  }

  /** One more element of `es` mirrored after the first `n`. */
  lemma MirrorAllStep(es: seq<Element>, n: nat, next: nat)
    requires n < |es|
    ensures var (kids, mid) := MirrorAll(es, n, next);
      MirrorAll(es, n + 1, next) == (kids + Kept(Mirror(es[n], mid).0), Mirror(es[n], mid).1)
  {
  }

  predicate Mirrorable(e: Element)
  {
    !e.mirrorFails
  }

  /** The provider elements the nodes stand for. */
  function Sources(ns: seq<Node>): (r: seq<Element>)
    ensures |r| == |ns|
    ensures forall i :: 0 <= i < |ns| ==> r[i] == ns[i].element
  {
    if ns == [] then [] else Sources(ns[..|ns| - 1]) + [ns[|ns| - 1].element]
  }

  /** A built node mirrors its element, and its children mirror, in order,
      exactly those of the delivered children whose construction succeeds:
      a failing child is left out without aborting its siblings, and a
      failing enumeration keeps the children gathered before it. */
  lemma {:induction false} MirrorShape(e: Element, next: nat)
    ensures Mirror(e, next).0.None? <==> e.mirrorFails
    ensures Mirror(e, next).0.Some? ==>
      var node := Mirror(e, next).0.value;
      && node.id == next
      && node.element == e
      && node.displayName == ElementName(e)
      && node.controlType == ControlTypeName(e)
      && Sources(node.children) == Filter(e.children[..EnumeratedCount(e)], Mirrorable)
    decreases e, 1
  {
    if !e.mirrorFails {
      MirrorAllShape(e.children, EnumeratedCount(e), next + 1);
    }
  }

  lemma {:induction false} MirrorAllShape(es: seq<Element>, n: nat, next: nat)
    requires n <= |es|
    ensures Sources(MirrorAll(es, n, next).0) == Filter(es[..n], Mirrorable)
    decreases es, 0, n
  {
    if n > 0 {
      var (kids, mid) := MirrorAll(es, n - 1, next);
      MirrorAllShape(es, n - 1, next);
      MirrorShape(es[n - 1], mid);
      assert es[..n][..n - 1] == es[..n - 1];
      var (node, after) := Mirror(es[n - 1], mid);
      var extra := if node.Some? then [node.value] else [];
      assert Sources(kids + extra) == Sources(kids) + Sources(extra) by {
        SourcesAppend(kids, extra);
      }
    }
  }

  lemma SourcesAppend(a: seq<Node>, b: seq<Node>)
    ensures Sources(a + b) == Sources(a) + Sources(b)
  {
  }

  // ---------------------------------------------------------------------
  // Node identity

  /** Every node of a forest in pre-order: a node before its children, and
      an earlier sibling's subtree before a later sibling. */
  function Nodes(ns: seq<Node>): seq<Node>
    decreases ns
  {
    if ns == [] then [] else [ns[0]] + Nodes(ns[0].children) + Nodes(ns[1..])
  }

  lemma {:induction false} NodesAppend(a: seq<Node>, b: seq<Node>)
    ensures Nodes(a + b) == Nodes(a) + Nodes(b)
    decreases a
  {
    if a != [] {
      assert (a + b)[0] == a[0];
      assert (a + b)[1..] == a[1..] + b;
      NodesAppend(a[1..], b);
    } else {
      assert a + b == b;
    }
  }

  /** A single tree flattens to its root followed by its descendants. */
  lemma NodesOfSingleTree(n: Node)
    ensures Nodes([n]) == [n] + Nodes(n.children)
  {
    assert [n][1..] == [];
  }

  /** Every id in the list lies in `[lo, hi)`. */
  ghost predicate IdsWithin(flat: seq<Node>, lo: int, hi: int)
  {
    forall i :: 0 <= i < |flat| ==> lo <= flat[i].id < hi
  }

  /** No two positions of the list hold the same id. */
  ghost predicate DistinctIds(flat: seq<Node>)
  {
    forall i, j :: 0 <= i < j < |flat| ==> flat[i].id != flat[j].id
  }

  lemma JoinIds(a: seq<Node>, b: seq<Node>, lo: int, mid: int, hi: int)
    requires lo <= mid <= hi
    requires IdsWithin(a, lo, mid) && IdsWithin(b, mid, hi)
    requires DistinctIds(a) && DistinctIds(b)
    ensures IdsWithin(a + b, lo, hi) && DistinctIds(a + b)
  {
    forall i | 0 <= i < |a + b|
      ensures lo <= (a + b)[i].id < hi
    {
      if i < |a| {
        assert (a + b)[i] == a[i];
      } else {
        assert (a + b)[i] == b[i - |a|];
      }
    }
    forall i, j | 0 <= i < j < |a + b|
      ensures (a + b)[i].id != (a + b)[j].id
    {
      if j < |a| {
        assert (a + b)[i] == a[i] && (a + b)[j] == a[j];
      } else if i >= |a| {
        assert (a + b)[i] == b[i - |a|] && (a + b)[j] == b[j - |a|];
      } else {
        assert (a + b)[i] == a[i] && (a + b)[j] == b[j - |a|];
      }
    }
  }

  /** The builder allocates every node of a built subtree afresh: ids lie
      between the counter before and after the build, and no two coincide. */
  lemma {:induction false} MirrorIdsFresh(e: Element, next: nat)
    ensures Mirror(e, next).0.Some? ==>
      && IdsWithin(Nodes([Mirror(e, next).0.value]), next, Mirror(e, next).1)
      && DistinctIds(Nodes([Mirror(e, next).0.value]))
    decreases e, 1
  {
    if !e.mirrorFails {
      var (kids, after) := MirrorAll(e.children, EnumeratedCount(e), next + 1);
      MirrorAllIdsFresh(e.children, EnumeratedCount(e), next + 1);
      var node := Node(next, e, ElementName(e), ControlTypeName(e), kids);
      assert Mirror(e, next) == (Some(node), after);
      NodesOfSingleTree(node);
      JoinIds([node], Nodes(kids), next, next + 1, after);
    }
  }

  lemma {:induction false} MirrorAllIdsFresh(es: seq<Element>, n: nat, next: nat)
    requires n <= |es|
    ensures IdsWithin(Nodes(MirrorAll(es, n, next).0), next, MirrorAll(es, n, next).1)
    ensures DistinctIds(Nodes(MirrorAll(es, n, next).0))
    decreases es, 0, n
  {
    if n > 0 {
      var (kids, mid) := MirrorAll(es, n - 1, next);
      MirrorAllIdsFresh(es, n - 1, next);
      var (node, after) := Mirror(es[n - 1], mid);
      MirrorIdsFresh(es[n - 1], mid);
      var extra := if node.Some? then [node.value] else [];
      NodesAppend(kids, extra);
      JoinIds(Nodes(kids), Nodes(extra), next, mid, after);
    }
  }

  // ---------------------------------------------------------------------
  // Identity search (FindElementInTreeRecursive)

  /** The node's element reports runtime id `target` (non-null). */
  predicate HasRuntimeId(n: Node, target: seq<int>)
  {
    n.element.runtimeId == Got(Some(target))
  }

  /** What `FindElementInTreeRecursive(ns, target)` returns: a node is tested
      before its children and earlier siblings before later ones; a node
      whose runtime id cannot be read is skipped with its subtree, and the
      search goes on with its siblings. */
  function Locate(ns: seq<Node>, target: seq<int>): (r: Option<Node>)
    // a node found carries a readable runtime id equal to the target
    ensures r.Some? ==> HasRuntimeId(r.value, target)
    decreases ns
  {
    if ns == [] then None
    else
      var n := ns[0];
      if n.element.runtimeId.Throws? then Locate(ns[1..], target)
      else if HasRuntimeId(n, target) then Some(n)
      else
        var inner := Locate(n.children, target);
        if inner.Some? then inner else Locate(ns[1..], target)
  }

  /** The nodes the search can test, in the order it tests them: pre-order,
      minus the subtrees under a node whose runtime id cannot be read. */
  function Searchable(ns: seq<Node>): seq<Node>
    decreases ns
  {
    if ns == [] then []
    else
      (if ns[0].element.runtimeId.Throws? then [] else [ns[0]] + Searchable(ns[0].children))
      + Searchable(ns[1..])
  }

  /** The first node of the list that reports runtime id `target`. */
  function FirstWithId(flat: seq<Node>, target: seq<int>): (r: Option<Node>)
    ensures r.None? <==> forall i :: 0 <= i < |flat| ==> !HasRuntimeId(flat[i], target)
    ensures r.Some? ==> exists i ::
      && 0 <= i < |flat| && flat[i] == r.value
      && HasRuntimeId(flat[i], target)
      && (forall j :: 0 <= j < i ==> !HasRuntimeId(flat[j], target))
  {
    if flat == [] then None
    else if HasRuntimeId(flat[0], target) then Some(flat[0])
    else
      var r := FirstWithId(flat[1..], target);
      assert forall i :: 1 <= i < |flat| ==> flat[i] == flat[1..][i - 1];
      r
  }

  lemma {:induction false} FirstWithIdAppend(a: seq<Node>, b: seq<Node>, target: seq<int>)
    ensures FirstWithId(a + b, target)
      == if FirstWithId(a, target).Some? then FirstWithId(a, target) else FirstWithId(b, target)
    decreases a
  {
    if a == [] {
      assert a + b == b;
    } else {
      assert (a + b)[0] == a[0];
      assert (a + b)[1..] == a[1..] + b;
      FirstWithIdAppend(a[1..], b, target);
    }
  }

  /** The search returns the first node, in search order, whose runtime id
      equals the target element by element, and nothing when none does. */
  lemma {:induction false} LocateIsFirstMatch(ns: seq<Node>, target: seq<int>)
    ensures Locate(ns, target) == FirstWithId(Searchable(ns), target)
    decreases ns
  {
    if ns != [] {
      var n := ns[0];
      var rest := Searchable(ns[1..]);
      LocateIsFirstMatch(ns[1..], target);
      if n.element.runtimeId.Throws? {
        assert Locate(ns, target) == Locate(ns[1..], target);
        assert Searchable(ns) == rest;
      } else if HasRuntimeId(n, target) {
        assert Locate(ns, target) == Some(n);
        assert Searchable(ns) == [n] + (Searchable(n.children) + rest);
      } else {
        LocateIsFirstMatch(n.children, target);
        LocateDescends(ns, target);
      }
    }
  }

  /** The step of `LocateIsFirstMatch` for a first node that is readable
      but does not match: its subtree is searched before its siblings. */
  lemma LocateDescends(ns: seq<Node>, target: seq<int>)
    requires ns != [] && ns[0].element.runtimeId.Got? && !HasRuntimeId(ns[0], target)
    requires Locate(ns[0].children, target) == FirstWithId(Searchable(ns[0].children), target)
    requires Locate(ns[1..], target) == FirstWithId(Searchable(ns[1..]), target)
    ensures Locate(ns, target) == FirstWithId(Searchable(ns), target)
  {
    var n := ns[0];
    var inner := Searchable(n.children);
    var rest := Searchable(ns[1..]);
    FirstSkipsMiss(n, inner, target);
    FirstWithIdAppend([n] + inner, rest, target);
    assert Searchable(ns) == ([n] + inner) + rest;
  }

  lemma FirstSkipsMiss(n: Node, flat: seq<Node>, target: seq<int>)
    requires !HasRuntimeId(n, target)
    ensures FirstWithId([n] + flat, target) == FirstWithId(flat, target)
  {
    assert ([n] + flat)[1..] == flat;
  }

  /** Every searchable node belongs to the snapshot. */
  lemma {:induction false} SearchableInNodes(ns: seq<Node>)
    ensures forall n :: n in Searchable(ns) ==> n in Nodes(ns)
    decreases ns
  {
    if ns != [] {
      SearchableInNodes(ns[0].children);
      SearchableInNodes(ns[1..]);
    }
  }

  /** Runtime ids are unique among the searchable nodes of the snapshot. */
  ghost predicate UniqueRuntimeIds(ns: seq<Node>)
  {
    var flat := Searchable(ns);
    forall i, j :: 0 <= i < j < |flat| && flat[i].element.runtimeId == flat[j].element.runtimeId
      ==> flat[i].element.runtimeId.Got? && flat[i].element.runtimeId.value.None?
  }

  /** With runtime ids unique in the snapshot, searching for the runtime id
      of a searchable node finds exactly that node. */
  lemma LocateFindsNode(ns: seq<Node>, n: Node, target: seq<int>)
    requires UniqueRuntimeIds(ns)
    requires n in Searchable(ns) && HasRuntimeId(n, target)
    ensures Locate(ns, target) == Some(n)
  {
    LocateIsFirstMatch(ns, target);
    var flat := Searchable(ns);
    var r := FirstWithId(flat, target);
    var k :| 0 <= k < |flat| && flat[k] == n;
    var i :| 0 <= i < |flat| && flat[i] == r.value && HasRuntimeId(flat[i], target)
      && forall j :: 0 <= j < i ==> !HasRuntimeId(flat[j], target);
    assert flat[i].element.runtimeId == flat[k].element.runtimeId;
    assert i == k;
  }

  /** A found node belongs to the snapshot. */
  lemma LocateInSnapshot(ns: seq<Node>, target: seq<int>)
    requires Locate(ns, target).Some?
    ensures Locate(ns, target).value in Nodes(ns)
    ensures HasRuntimeId(Locate(ns, target).value, target)
  {
    LocateIsFirstMatch(ns, target);
    SearchableInNodes(ns);
  }

  /** The element-by-element comparison of `RuntimeIdsEqual`: false when
      either id is null or the lengths differ. */
  method RuntimeIdsEqual(id1: Option<seq<int>>, id2: Option<seq<int>>) returns (equal: bool)
    ensures equal <==> id1.Some? && id2.Some? && id1.value == id2.value
  {
    if id1.None? || id2.None? {
      return false;
    }
    var a, b := id1.value, id2.value;
    if |a| != |b| {
      return false;
    }
    var i := 0;
    while i < |a|
      invariant 0 <= i <= |a|
      invariant forall j :: 0 <= j < i ==> a[j] == b[j]
    {
      if a[i] != b[i] {
        return false;
      }
      i := i + 1;
    }
    return true;
  }

  /** `FindElementInTreeRecursive`: the foreach loop over a collection with
      the per-node try/catch and the recursive descent. */
  method FindElementInTreeRecursive(elements: seq<Node>, target: seq<int>) returns (found: Option<Node>)
    ensures found == Locate(elements, target)
    decreases elements
  {
    var i := 0;
    while i < |elements|
      invariant 0 <= i <= |elements|
      invariant Locate(elements, target) == Locate(elements[i..], target)
    {
      var element := elements[i];
      assert elements[i..][1..] == elements[i + 1..];
      match element.element.runtimeId {
        case Throws =>
          // GetRuntimeId raised: caught, go on with the next sibling
        case Got(current) =>
          var equal := RuntimeIdsEqual(current, Some(target));
          if current.Some? && equal {
            return Some(element);
          }
          found := FindElementInTreeRecursive(element.children, target);
          if found.Some? {
            return found;
          }
      }
      i := i + 1;
    }
    return None;
  }

  // ---------------------------------------------------------------------
  // Root-to-node path (GetPathToElement, FindElementPath)

  /** The path `FindElementPath` leaves behind: the chain from a top-level
      node down to the first node, in pre-order, that is the target object. */
  function PathFrom(ns: seq<Node>, id: nat): (r: Option<seq<Node>>)
    // a path found starts at a top-level node and ends at the target object
    ensures r.Some? ==> |r.value| > 0 && r.value[0] in ns && r.value[|r.value| - 1].id == id
    decreases ns
  {
    if ns == [] then None
    else if ns[0].id == id then Some([ns[0]])
    else match PathFrom(ns[0].children, id)
      case Some(p) => Some([ns[0]] + p)
      case None => PathFrom(ns[1..], id)
  }

  /** `p` starts at a top-level node of `ns` and each node is a child of the
      one before it. */
  ghost predicate IsChain(ns: seq<Node>, p: seq<Node>)
  {
    |p| > 0 && p[0] in ns && forall i :: 0 <= i < |p| - 1 ==> p[i + 1] in p[i].children
  }

  /** A path found is a chain from a top-level node to the target, made of
      nodes of the snapshot. */
  lemma {:induction false} PathSound(ns: seq<Node>, id: nat)
    requires PathFrom(ns, id).Some?
    ensures IsChain(ns, PathFrom(ns, id).value)
    ensures PathFrom(ns, id).value[|PathFrom(ns, id).value| - 1].id == id
    ensures forall n :: n in PathFrom(ns, id).value ==> n in Nodes(ns)
    decreases ns
  {
    if ns[0].id != id {
      var inner := PathFrom(ns[0].children, id);
      if inner.Some? {
        PathSound(ns[0].children, id);
        var p := [ns[0]] + inner.value;
        assert forall i :: 1 <= i < |p| ==> p[i] == inner.value[i - 1];
        assert p[1] == inner.value[0];
      } else {
        PathSound(ns[1..], id);
      }
    }
  }

  /** A path is found exactly when some node of the snapshot is the target. */
  lemma {:induction false} PathComplete(ns: seq<Node>, id: nat)
    ensures PathFrom(ns, id).Some? <==> exists n :: n in Nodes(ns) && n.id == id
    decreases ns
  {
    if ns != [] {
      PathComplete(ns[0].children, id);
      PathComplete(ns[1..], id);
      assert Nodes(ns) == [ns[0]] + Nodes(ns[0].children) + Nodes(ns[1..]);
    }
  }

  /** In a snapshot whose nodes are distinct objects, the path to a node of
      the snapshot ends at that very node. */
  lemma PathEndsAtTarget(ns: seq<Node>, target: Node)
    requires DistinctIds(Nodes(ns))
    requires target in Nodes(ns)
    ensures PathFrom(ns, target.id).Some?
    ensures var p := PathFrom(ns, target.id).value; |p| > 0 && p[|p| - 1] == target
  {
    PathComplete(ns, target.id);
    PathSound(ns, target.id);
    var p := PathFrom(ns, target.id).value;
    var flat := Nodes(ns);
    var last := p[|p| - 1];
    assert last in p;
    var i :| 0 <= i < |flat| && flat[i] == last;
    var j :| 0 <= j < |flat| && flat[j] == target;
    if i < j {
      assert flat[i].id != flat[j].id;
    } else if j < i {
      assert flat[j].id != flat[i].id;
    }
  }

  /** A node found by the identity search can always be reached by a path,
      and the path ends at that node, provided the snapshot's nodes are
      distinct objects. */
  lemma LocatedIsReachable(ns: seq<Node>, target: seq<int>)
    requires DistinctIds(Nodes(ns))
    requires Locate(ns, target).Some?
    ensures PathFrom(ns, Locate(ns, target).value.id).Some?
    ensures var p := PathFrom(ns, Locate(ns, target).value.id).value;
      |p| > 0 && p[|p| - 1] == Locate(ns, target).value
  {
    LocateInSnapshot(ns, target);
    PathEndsAtTarget(ns, Locate(ns, target).value);
  }

  /** A node whose id is at or above every id of the snapshot is not part
      of it. */
  lemma FreshNodeOutside(ns: seq<Node>, n: Node, next: nat)
    requires IdsWithin(Nodes(ns), 0, next) && n.id >= next
    ensures n !in Nodes(ns)
  {
  }

  /** The growable `List<UIElementInfo>` that `FindElementPath` pushes onto
      and pops from in place. */
  class NodeList {
    var items: seq<Node>

    constructor ()
      ensures items == []
    {
      items := [];
    }

    method Add(n: Node)
      modifies this
      ensures items == old(items) + [n]
    {
      items := items + [n];
    }

    method RemoveAt(index: nat)
      requires index < |items|
      modifies this
      ensures items == old(items)[..index] + old(items)[index + 1..]
    {
      items := items[..index] + items[index + 1..];
    }
  }

  /** `FindElementPath`: on success the path holds its entry contents followed
      by the chain to the target; on failure it is restored to exactly its
      entry contents. */
  method FindElementPath(elements: seq<Node>, target: Node, path: NodeList) returns (found: bool)
    modifies path
    ensures found <==> PathFrom(elements, target.id).Some?
    ensures found ==> path.items == old(path.items) + PathFrom(elements, target.id).value
    ensures !found ==> path.items == old(path.items)
    decreases elements
  {
    var i := 0;
    while i < |elements|
      invariant 0 <= i <= |elements|
      invariant path.items == old(path.items)
      invariant PathFrom(elements, target.id) == PathFrom(elements[i..], target.id)
    {
      var element := elements[i];
      assert elements[i..][1..] == elements[i + 1..];
      path.Add(element);
      if element.id == target.id {
        return true;
      }
      found := FindElementPath(element.children, target, path);
      if found {
        return true;
      }
      path.RemoveAt(|path.items| - 1);
      i := i + 1;
    }
    return false;
  }

  // ---------------------------------------------------------------------
  // Root window (GetRootWindow)

  /** The successive answers of `TreeWalker.ControlViewWalker.GetParent`
      starting from an element: `parents[i]` is the parent of the i-th element
      of the walk (the 0-th is the element itself), and the parent of the last
      one is the desktop root or null. `failsAt == Some(k)` means that the
      k-th call raises. */
  datatype Ancestry = Ancestry(parents: seq<Element>, failsAt: Option<nat>)

  /** The element `GetRootWindow` settles on, or None when a step raises. */
  function RootOf(element: Element, ancestry: Ancestry): (r: Option<Element>)
    // the walk fails exactly when one of the calls it makes raises ...
    ensures r.None? <==> ancestry.failsAt.Some? && ancestry.failsAt.value <= |ancestry.parents|
    // ... and otherwise ends at the last element of the walk
    ensures r.Some? ==> r.value == ([element] + ancestry.parents)[|ancestry.parents|]
  {
    if ancestry.failsAt.Some? && ancestry.failsAt.value <= |ancestry.parents| then None
    else if ancestry.parents == [] then Some(element)
    else Some(ancestry.parents[|ancestry.parents| - 1])
  }

  /** `GetRootWindow`: climbs parent by parent and stops at the element whose
      parent is the desktop root (or null); any failure gives null. */
  method GetRootWindow(element: Element, ancestry: Ancestry) returns (root: Option<Element>)
    ensures root.None? <==> ancestry.failsAt.Some? && ancestry.failsAt.value <= |ancestry.parents|
    ensures root.Some? ==>
      root.value == (if ancestry.parents == [] then element else ancestry.parents[|ancestry.parents| - 1])
    ensures root == RootOf(element, ancestry)
  {
    var parents := ancestry.parents;
    var current := element;
    var i := 0;
    while true
      invariant 0 <= i <= |parents|
      invariant current == if i == 0 then element else parents[i - 1]
      invariant ancestry.failsAt.Some? ==> ancestry.failsAt.value >= i
      decreases |parents| - i
    {
      if ancestry.failsAt == Some(i) {
        return None;
      }
      if i == |parents| {
        return Some(current);
      }
      current := parents[i];
      i := i + 1;
    }
  }
}
