/** The UI Automation provider as the inspector sees it: a tree of live
    elements whose attribute reads may each fail, the desktop root, control
    types, and the conditions that `FindAll` evaluates on the provider side. */
module Automation {
  import opened Strings

  /** One attribute read (`element.Current.X`, `GetRuntimeId()`): it yields a
      value or raises (stale element, access denied, provider time-out).
      A nullable attribute is `Read<Option<T>>`. */
  datatype Read<+T> = Got(value: T) | Throws

  /** The control types of System.Windows.Automation.ControlType. */
  datatype ControlType =
    | Button | Calendar | CheckBox | ComboBox | Custom | DataGrid | DataItem
    | Document | Edit | Group | Header | HeaderItem | Hyperlink | Image | List
    | ListItem | Menu | MenuBar | MenuItem | Pane | ProgressBar | RadioButton
    | ScrollBar | Separator | Slider | Spinner | SplitButton | StatusBar | Tab
    | TabItem | Table | Text | Thumb | TitleBar | ToolBar | ToolTip | Tree
    | TreeItem | Window

  /** The control type's identifier, the part of its programmatic name after
      the "ControlType." prefix. */
  function TypeName(ct: ControlType): (n: string)
    ensures n != [] && |n| < |ControlTypePrefix|
  {
    match ct
    case Button => "Button"
    case Calendar => "Calendar"
    case CheckBox => "CheckBox"
    case ComboBox => "ComboBox"
    case Custom => "Custom"
    case DataGrid => "DataGrid"
    case DataItem => "DataItem"
    case Document => "Document"
    case Edit => "Edit"
    case Group => "Group"
    case Header => "Header"
    case HeaderItem => "HeaderItem"
    case Hyperlink => "Hyperlink"
    case Image => "Image"
    case List => "List"
    case ListItem => "ListItem"
    case Menu => "Menu"
    case MenuBar => "MenuBar"
    case MenuItem => "MenuItem"
    case Pane => "Pane"
    case ProgressBar => "ProgressBar"
    case RadioButton => "RadioButton"
    case ScrollBar => "ScrollBar"
    case Separator => "Separator"
    case Slider => "Slider"
    case Spinner => "Spinner"
    case SplitButton => "SplitButton"
    case StatusBar => "StatusBar"
    case Tab => "Tab"
    case TabItem => "TabItem"
    case Table => "Table"
    case Text => "Text"
    case Thumb => "Thumb"
    case TitleBar => "TitleBar"
    case ToolBar => "ToolBar"
    case ToolTip => "ToolTip"
    case Tree => "Tree"
    case TreeItem => "TreeItem"
    case Window => "Window"
  }

  const ControlTypePrefix: string := "ControlType."

  /** `ControlType.ProgrammaticName`, e.g. "ControlType.Button". */
  function ProgrammaticName(ct: ControlType): string
  {
    ControlTypePrefix + TypeName(ct)
  }

  /** `ProgrammaticName.Replace("ControlType.", "")` gives back the identifier. */
  lemma StripProgrammaticName(ct: ControlType)
    ensures RemoveAll(ProgrammaticName(ct), ControlTypePrefix) == TypeName(ct)
  {
    RemoveAllLeading(ControlTypePrefix, TypeName(ct));
    ContainsNeedsRoom(TypeName(ct), ControlTypePrefix);
    RemoveAllAbsent(TypeName(ct), ControlTypePrefix);
  }

  /** `System.Windows.Rect` as reported by `BoundingRectangle`. */
  datatype AutoRect = AutoRect(x: real, y: real, width: real, height: real)

  /** A live provider element (`AutomationElement`) with the answers its
      queries give. `childrenFailAfter == Some(k)` means that enumerating its
      children raises once `k` children have been delivered (`Some(0)`: the
      `FindAll` call itself raises). `mirrorFails` means that building the
      inspector's node for it raises. */
  datatype Element = Element(
    runtimeId: Read<Option<seq<int>>>,
    name: Read<Option<string>>,
    automationId: Read<Option<string>>,
    className: Read<Option<string>>,
    controlType: Read<Option<ControlType>>,
    processId: Read<int>,
    nativeWindowHandle: Read<int>,
    bounds: Read<AutoRect>,
    isOffscreen: Read<bool>,
    children: seq<Element>,
    childrenFailAfter: Option<nat>,
    mirrorFails: bool)

  /** `s ?? ""`: a null string attribute as the empty string. */
  function OrEmpty(r: Option<string>): string
  {
    if r.Some? then r.value else ""
  }

  /** How many children an enumeration of `e`'s children delivers. */
  function EnumeratedCount(e: Element): (k: nat)
    ensures k <= |e.children|
    ensures e.childrenFailAfter.None? ==> k == |e.children|
  {
    match e.childrenFailAfter
    case None => |e.children|
    case Some(limit) => if limit < |e.children| then limit else |e.children|
  }

  /** The provider-side `PropertyCondition(ControlTypeProperty, Window)`. */
  predicate IsWindow(e: Element)
  {
    e.controlType == Got(Some(Window))
  }

  /** Where a query on the desktop root fails: reading
      `AutomationElement.RootElement` itself, or the `FindAll` issued on it. */
  datatype DesktopFault = Healthy | RootUnavailable | QueryFails

  /** The desktop root: its children are the top-level elements. */
  datatype Desktop = Desktop(topLevel: seq<Element>, fault: DesktopFault)

  /** Keeps the elements that satisfy `keep`, in order. */
  function Filter(es: seq<Element>, keep: Element -> bool): (r: seq<Element>)
    ensures |r| <= |es|
  {
    if es == [] then []
    else Filter(es[..|es| - 1], keep) + (if keep(es[|es| - 1]) then [es[|es| - 1]] else [])
  }

  /** An element is kept exactly when it is one of `es` and satisfies `keep`. */
  lemma {:induction false} FilterMembers(es: seq<Element>, keep: Element -> bool)
    ensures forall e :: e in Filter(es, keep) <==> e in es && keep(e)
  {
    if es != [] {
      var init := es[..|es| - 1];
      FilterMembers(init, keep);
      assert es == init + [es[|es| - 1]];
    }
  }

  /** `desktop.FindAll(TreeScope.Children, ControlType == Window)`. */
  function TopLevelWindows(d: Desktop): seq<Element>
  {
    Filter(d.topLevel, IsWindow)
  }

  /** All descendants of a forest in document (pre-)order. */
  function Descendants(es: seq<Element>): seq<Element>
    decreases es
  {
    if es == [] then [] else [es[0]] + Descendants(es[0].children) + Descendants(es[1..])
  }

  // ---------------------------------------------------------------------
  // Provider-side conditions (PropertyCondition, AndCondition, TrueCondition)

  datatype StringProperty = NameProperty | AutomationIdProperty | ClassNameProperty

  datatype Condition =
    | TrueCondition
    | StringIs(property: StringProperty, value: string)
    | ControlTypeIs(controlType: ControlType)
    | AndCondition(operands: seq<Condition>)

  function StringAttribute(e: Element, p: StringProperty): Read<Option<string>>
  {
    match p
    case NameProperty => e.name
    case AutomationIdProperty => e.automationId
    case ClassNameProperty => e.className
  }

  /** Whether the provider reports `e` as satisfying `c`. A string property
      matches exactly (case-sensitive); a property that cannot be read or is
      null matches nothing. */
  predicate Satisfies(e: Element, c: Condition)
    decreases c
  {
    match c
    case TrueCondition => true
    case StringIs(p, v) => StringAttribute(e, p) == Got(Some(v))
    case ControlTypeIs(ct) => e.controlType == Got(Some(ct))
    case AndCondition(cs) => forall i :: 0 <= i < |cs| ==> Satisfies(e, cs[i])
  }

  datatype TreeScope = ChildrenScope | DescendantsScope

  /** `desktop.FindAll(scope, condition)` when the query succeeds. */
  function FindAll(d: Desktop, scope: TreeScope, c: Condition): seq<Element>
  {
    var candidates := match scope
      case ChildrenScope => d.topLevel
      case DescendantsScope => Descendants(d.topLevel);
    Filter(candidates, e => Satisfies(e, c))
  }

  /** The query returns exactly the candidates in scope that satisfy the
      condition. */
  lemma FindAllMembers(d: Desktop, scope: TreeScope, c: Condition)
    ensures forall e :: e in FindAll(d, scope, c) <==>
      (e in (if scope == ChildrenScope then d.topLevel else Descendants(d.topLevel)) && Satisfies(e, c))
  {
    var candidates := if scope == ChildrenScope then d.topLevel else Descendants(d.topLevel);
    FilterMembers(candidates, e => Satisfies(e, c));
  }
}
