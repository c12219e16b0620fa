/** The "find control" dialog (`FindControlDialog.xaml.cs`): search criteria
    become a provider-side condition, the desktop is queried once, and every
    element whose attributes can be read is listed. */
module FindControl {
  import opened Strings
  import opened Automation

  /** The arms of `GetControlTypeFromName`'s switch, in order: a lower-case
      name and the control type it selects. */
  const TypeKeys: seq<(string, ControlType)> := [
    ("button", Button), ("edit", Edit), ("text", Text), ("combobox", ComboBox),
    ("list", List), ("tree", Tree), ("tab", Tab), ("menu", Menu), ("menuitem", MenuItem),
    ("checkbox", CheckBox), ("radiobutton", RadioButton), ("slider", Slider),
    ("progressbar", ProgressBar), ("scrollbar", ScrollBar), ("toolbar", ToolBar),
    ("statusbar", StatusBar), ("tooltip", ToolTip), ("group", Group), ("pane", Pane),
    ("window", Window), ("dialog", Window), ("document", Document)]

  /** The position of the "dialog" arm, the one name that is not a type's. */
  const DialogArm: nat := 20

  /** A switch over string constants: the type of the first arm whose name
      equals `key`, or null. */
  function Lookup(arms: seq<(string, ControlType)>, key: string): Option<ControlType>
  {
    if arms == [] then None
    else if arms[0].0 == key then Some(arms[0].1)
    else Lookup(arms[1..], key)
  }

  /** A lookup succeeds exactly when some arm carries the key, and then it
      yields the type of an arm carrying the key. */
  lemma {:induction false} LookupSound(arms: seq<(string, ControlType)>, key: string)
    ensures Lookup(arms, key).Some? <==> exists i :: 0 <= i < |arms| && arms[i].0 == key
    ensures Lookup(arms, key).Some? ==>
      exists i :: 0 <= i < |arms| && arms[i] == (key, Lookup(arms, key).value)
  {
    if arms != [] && arms[0].0 != key {
      LookupSound(arms[1..], key);
      if exists i :: 0 <= i < |arms| && arms[i].0 == key {
        var i :| 0 <= i < |arms| && arms[i].0 == key;
        assert arms[1..][i - 1].0 == key;
      }
      if Lookup(arms, key).Some? {
        var i :| 0 <= i < |arms[1..]| && arms[1..][i] == (key, Lookup(arms, key).value);
        assert arms[i + 1] == (key, Lookup(arms, key).value);
      }
    }
  }

  /** With pairwise different names, the arm carrying the key is the one
      taken. */
  lemma {:induction false} LookupFindsArm(arms: seq<(string, ControlType)>, i: nat)
    requires i < |arms|
    requires forall j, k :: 0 <= j < k < |arms| ==> arms[j].0 != arms[k].0
    ensures Lookup(arms, arms[i].0) == Some(arms[i].1)
  {
    if i > 0 {
      LookupFindsArm(arms[1..], i - 1);
    }
  }

  lemma ArmNamesDistinct()
    ensures forall j, k :: 0 <= j < k < |TypeKeys| ==> TypeKeys[j].0 != TypeKeys[k].0
  {
  }

  /** `GetControlTypeFromName`: the name is looked up in lower case; an
      unknown name gives null. */
  function ControlTypeFromName(name: string): Option<ControlType>
  {
    Lookup(TypeKeys, ToLower(name))
  }

  /** A name resolves exactly when some arm spells it in lower case, and
      then to that arm's type. */
  lemma ControlTypeFromNameSound(name: string)
    ensures ControlTypeFromName(name).Some? <==>
      exists i :: 0 <= i < |TypeKeys| && TypeKeys[i].0 == ToLower(name)
    ensures forall i :: 0 <= i < |TypeKeys| && TypeKeys[i].0 == ToLower(name) ==>
      ControlTypeFromName(name) == Some(TypeKeys[i].1)
  {
    LookupSound(TypeKeys, ToLower(name));
    ArmNamesDistinct();
    forall i | 0 <= i < |TypeKeys| && TypeKeys[i].0 == ToLower(name)
      ensures Lookup(TypeKeys, ToLower(name)) == Some(TypeKeys[i].1)
    {
      LookupFindsArm(TypeKeys, i);
    }
  }

  /** The control types some arm selects. */
  predicate Nameable(ct: ControlType)
  {
    exists i :: 0 <= i < |TypeKeys| && TypeKeys[i].1 == ct
  }

  /** The names the control-type combo box offers, in its order. */
  const OfferedTypeNames: seq<string> := [
    "Button", "Edit", "Text", "ComboBox", "List", "Tree", "Tab", "Menu", "MenuItem",
    "CheckBox", "RadioButton", "Slider", "ProgressBar", "ScrollBar", "ToolBar",
    "StatusBar", "ToolTip", "Group", "Pane", "Window", "Dialog", "Document"]

  /** The combo box lists the arms' names in the switch's order, each the
      type's own identifier except "Dialog". */
  lemma OfferedNamesAreTypeNames()
    ensures |OfferedTypeNames| == |TypeKeys|
    ensures forall i :: 0 <= i < |OfferedTypeNames| && i != DialogArm ==>
      OfferedTypeNames[i] == TypeName(TypeKeys[i].1)
    ensures OfferedTypeNames[DialogArm] == "Dialog"
  {
    OfferedSpellingFirstSeven();
    OfferedSpellingNextSeven();
    OfferedSpellingLastEight();
  }

  // `OfferedNamesAreTypeNames` and `OfferedNamesLower` are proved a third of
  // the list at a time, which keeps each proof small.

  lemma OfferedSpellingFirstSeven()
    ensures forall i :: 0 <= i < 7 ==> OfferedTypeNames[i] == TypeName(TypeKeys[i].1)
  {
  }

  lemma OfferedSpellingNextSeven()
    ensures forall i :: 7 <= i < 14 ==> OfferedTypeNames[i] == TypeName(TypeKeys[i].1)
  {
  }

  lemma OfferedSpellingLastEight()
    ensures forall i :: 14 <= i < |OfferedTypeNames| && i != DialogArm ==>
      OfferedTypeNames[i] == TypeName(TypeKeys[i].1)
  {
  }

  /** Lower-casing an offered name gives the name of the arm at the same
      position. */
  lemma OfferedNamesLower()
    ensures forall i :: 0 <= i < |OfferedTypeNames| ==> ToLower(OfferedTypeNames[i]) == TypeKeys[i].0
  {
    OfferedLowerFirstSeven();
    OfferedLowerNextSeven();
    OfferedLowerLastEight();
  }

  lemma OfferedLowerFirstSeven()
    ensures forall i :: 0 <= i < 7 ==> ToLower(OfferedTypeNames[i]) == TypeKeys[i].0
  {
  }

  lemma OfferedLowerNextSeven()
    ensures forall i :: 7 <= i < 14 ==> ToLower(OfferedTypeNames[i]) == TypeKeys[i].0
  {
  }

  lemma OfferedLowerLastEight()
    ensures forall i :: 14 <= i < |OfferedTypeNames| ==> ToLower(OfferedTypeNames[i]) == TypeKeys[i].0
  {
  }

  /** Each name the combo box offers selects the arm at its own position:
      "Dialog" gives the window type. */
  lemma OfferedNamesResolve()
    ensures forall i :: 0 <= i < |OfferedTypeNames| ==>
      ControlTypeFromName(OfferedTypeNames[i]) == Some(TypeKeys[i].1)
  {
    OfferedNamesLower();
    ArmNamesDistinct();
    forall i | 0 <= i < |OfferedTypeNames|
      ensures ControlTypeFromName(OfferedTypeNames[i]) == Some(TypeKeys[i].1)
    {
      LookupFindsArm(TypeKeys, i);
    }
  }

  /** "Dialog", in any letter case, is another name for the window type. */
  lemma DialogMeansWindow(name: string)
    requires EqualsIgnoreCase(name, "Dialog")
    ensures ControlTypeFromName(name) == Some(Window)
  {
    OfferedNamesResolve();
    assert ControlTypeFromName(OfferedTypeNames[DialogArm]) == Some(Window);
    ControlTypeNameCaseIrrelevant(name);
    ControlTypeNameCaseIrrelevant(OfferedTypeNames[DialogArm]);
  }

  /** A control type the switch knows is found under its own identifier,
      in any letter case. */
  lemma TypeNameResolves(ct: ControlType, name: string)
    requires Nameable(ct) && EqualsIgnoreCase(name, TypeName(ct))
    ensures ControlTypeFromName(name) == Some(ct)
  {
    var i :| 0 <= i < |TypeKeys| && TypeKeys[i].1 == ct;
    var j := if i == DialogArm then 19 else i;
    OfferedNamesAreTypeNames();
    OfferedNamesResolve();
    assert OfferedTypeNames[j] == TypeName(ct);
    ControlTypeNameCaseIrrelevant(name);
    ControlTypeNameCaseIrrelevant(TypeName(ct));
  }

  /** A name that resolves spells the selected type's identifier or
      "Dialog", ignoring case: every other name gives null. */
  lemma ResolvedNameSpellsType(name: string)
    ensures ControlTypeFromName(name).Some? ==>
      && Nameable(ControlTypeFromName(name).value)
      && (|| EqualsIgnoreCase(name, TypeName(ControlTypeFromName(name).value))
          || (ControlTypeFromName(name).value == Window && EqualsIgnoreCase(name, "Dialog")))
  {
    LookupSound(TypeKeys, ToLower(name));
    if ControlTypeFromName(name).Some? {
      var ct := ControlTypeFromName(name).value;
      var i :| 0 <= i < |TypeKeys| && TypeKeys[i] == (ToLower(name), ct);
      OfferedNamesAreTypeNames();
      OfferedNamesLower();
      assert ToLower(OfferedTypeNames[i]) == ToLower(name);
    }
  }

  /** The lookup ignores letter case. */
  lemma {:induction false} ControlTypeNameCaseIrrelevant(name: string)
    ensures ControlTypeFromName(ToLower(name)) == ControlTypeFromName(name)
  {
    ToLowerIdempotent(name);
  }

  // ---------------------------------------------------------------------
  // Criteria and the condition they build

  /** The dialog's inputs: a check box and a text per criterion, and
      "search in children". */
  datatype Criteria = Criteria(
    matchName: bool, name: string,
    matchAutomationId: bool, automationId: string,
    matchControlType: bool, controlTypeName: string,
    matchClassName: bool, className: string,
    searchInChildren: bool)

  /** The control type the criteria ask for, if they ask for a known one. */
  function RequestedType(c: Criteria): Option<ControlType>
  {
    if c.matchControlType && c.controlTypeName != [] then ControlTypeFromName(c.controlTypeName)
    else None
  }

  /** One criterion's contribution: its condition when it asks for one. */
  function Part(asked: bool, condition: Condition): seq<Condition>
  {
    if asked then [condition] else []
  }

  /** The conditions in the order `BtnFind_Click` adds them. */
  function Requested(c: Criteria): seq<Condition>
  {
    Part(c.matchName && c.name != [], StringIs(NameProperty, c.name))
    + Part(c.matchAutomationId && c.automationId != [], StringIs(AutomationIdProperty, c.automationId))
    + (if RequestedType(c).Some? then [ControlTypeIs(RequestedType(c).value)] else [])
    + Part(c.matchClassName && c.className != [], StringIs(ClassNameProperty, c.className))
  }

  /** No condition means "everything", one is used as it is, several are
      joined by `AndCondition`. */
  function Combine(cs: seq<Condition>): Condition
  {
    if |cs| == 0 then TrueCondition
    else if |cs| == 1 then cs[0]
    else AndCondition(cs)
  }

  predicate AllSatisfied(e: Element, cs: seq<Condition>)
  {
    forall i :: 0 <= i < |cs| ==> Satisfies(e, cs[i])
  }

  lemma AllSatisfiedAppend(e: Element, a: seq<Condition>, b: seq<Condition>)
    ensures AllSatisfied(e, a + b) <==> AllSatisfied(e, a) && AllSatisfied(e, b)
  {
    if AllSatisfied(e, a + b) {
      forall i | 0 <= i < |a|
        ensures Satisfies(e, a[i])
      {
        assert (a + b)[i] == a[i];
      }
      forall i | 0 <= i < |b|
        ensures Satisfies(e, b[i])
      {
        assert (a + b)[|a| + i] == b[i];
      }
    }
  }

  lemma AllSatisfiedPart(e: Element, asked: bool, condition: Condition)
    ensures AllSatisfied(e, Part(asked, condition)) <==> (asked ==> Satisfies(e, condition))
  {
    if asked {
      assert Part(asked, condition)[0] == condition;
    }
  }

  /** The combined condition holds exactly when every part does. */
  lemma CombineMeansAll(e: Element, cs: seq<Condition>)
    ensures Satisfies(e, Combine(cs)) <==> AllSatisfied(e, cs)
  {
  }

  /** What the criteria ask of an element, stated per criterion: an
      unchecked criterion, an empty text or an unknown type name asks
      nothing; string attributes must be equal exactly. */
  predicate MatchesCriteria(e: Element, c: Criteria)
  {
    && (c.matchName && c.name != [] ==> e.name == Got(Some(c.name)))
    && (c.matchAutomationId && c.automationId != [] ==> e.automationId == Got(Some(c.automationId)))
    && (RequestedType(c).Some? ==> e.controlType == Got(Some(RequestedType(c).value)))
    && (c.matchClassName && c.className != [] ==> e.className == Got(Some(c.className)))
  }

  /** Criteria that ask nothing are met by every element. */
  lemma NoCriteriaMatchesAll(e: Element, c: Criteria)
    requires Requested(c) == []
    ensures MatchesCriteria(e, c)
  {
  }

  /** The provider-side condition selects exactly the elements the criteria
      describe. */
  lemma {:induction false} QueryMeansCriteria(e: Element, c: Criteria)
    ensures Satisfies(e, Combine(Requested(c))) <==> MatchesCriteria(e, c)
  {
    var n := Part(c.matchName && c.name != [], StringIs(NameProperty, c.name));
    var a := Part(c.matchAutomationId && c.automationId != [], StringIs(AutomationIdProperty, c.automationId));
    var t := (if RequestedType(c).Some? then [ControlTypeIs(RequestedType(c).value)] else []);
    var k := Part(c.matchClassName && c.className != [], StringIs(ClassNameProperty, c.className));
    assert Requested(c) == n + a + t + k by { }
    AllSatisfiedPart(e, c.matchName && c.name != [], StringIs(NameProperty, c.name));
    AllSatisfiedPart(e, c.matchAutomationId && c.automationId != [], StringIs(AutomationIdProperty, c.automationId));
    AllSatisfiedPart(e, c.matchClassName && c.className != [], StringIs(ClassNameProperty, c.className));
    assert AllSatisfied(e, t) <==> (RequestedType(c).Some? ==> e.controlType == Got(Some(RequestedType(c).value)));
    CombineMeansAll(e, Requested(c));
    AllSatisfiedAppend(e, n + a + t, k);
    AllSatisfiedAppend(e, n + a, t);
    AllSatisfiedAppend(e, n, a);
  }

  /** `Children` unless "search in children" is checked. */
  function ScopeOf(c: Criteria): TreeScope
  {
    if c.searchInChildren then DescendantsScope else ChildrenScope
  }

  // ---------------------------------------------------------------------
  // Results

  /** `ControlInfo`: the element and its attributes as listed. */
  datatype ControlInfo = ControlInfo(
    element: Element,
    name: string,
    automationId: string,
    controlType: string,
    className: string,
    processId: int)

  /** The entry listed for an element: none when one of the reads raises or
      the element has no control type (its programmatic name cannot be
      taken); a null string attribute is listed as empty. */
  function InfoOf(e: Element): (r: Option<ControlInfo>)
    ensures r.Some? <==>
      && e.name.Got? && e.automationId.Got? && e.className.Got? && e.processId.Got?
      && e.controlType.Got? && e.controlType.value.Some?
    ensures r.Some? ==>
      && r.value.element == e
      && r.value.controlType == TypeName(e.controlType.value.value)
      && r.value.name == OrEmpty(e.name.value)
      && r.value.automationId == OrEmpty(e.automationId.value)
      && r.value.className == OrEmpty(e.className.value)
      && r.value.processId == e.processId.value
  {
    match (e.name, e.automationId, e.controlType, e.className, e.processId)
    case (Got(name), Got(automationId), Got(Some(ct)), Got(className), Got(pid)) =>
      StripProgrammaticName(ct);
      Some(ControlInfo(e, OrEmpty(name), OrEmpty(automationId),
                       RemoveAll(ProgrammaticName(ct), ControlTypePrefix), OrEmpty(className), pid))
    case _ => None
  }

  predicate Describable(e: Element)
  {
    InfoOf(e).Some?
  }

  /** The entries for a query's results, in the order the query returns
      them, skipping those that cannot be described. */
  function Harvest(es: seq<Element>): (r: seq<ControlInfo>)
    ensures |r| <= |es|
  {
    if es == [] then []
    else
      var last := InfoOf(es[|es| - 1]);
      Harvest(es[..|es| - 1]) + (if last.Some? then [last.value] else [])
  }

  /** The elements the entries describe, position by position. */
  function ElementsOf(infos: seq<ControlInfo>): seq<Element>
  {
    seq(|infos|, i requires 0 <= i < |infos| => infos[i].element)
  }

  /** The listed elements are exactly the describable results, in order,
      and each entry is the description of its element. */
  lemma {:induction false} HarvestDescribes(es: seq<Element>)
    ensures ElementsOf(Harvest(es)) == Filter(es, Describable)
    ensures forall i :: 0 <= i < |Harvest(es)| ==> Some(Harvest(es)[i]) == InfoOf(Harvest(es)[i].element)
  {
    if es != [] {
      var init, e := es[..|es| - 1], es[|es| - 1];
      HarvestDescribes(init);
      var tail := if InfoOf(e).Some? then [InfoOf(e).value] else [];
      assert Harvest(es) == Harvest(init) + tail;
      ElementsOfAppend(Harvest(init), tail);
      assert ElementsOf(tail) == if Describable(e) then [e] else [];
    }
  }

  lemma ElementsOfAppend(a: seq<ControlInfo>, b: seq<ControlInfo>)
    ensures ElementsOf(a + b) == ElementsOf(a) + ElementsOf(b)
  {
  }

  /** What a search lists: nothing when the desktop cannot be read or
      queried, otherwise the describable elements the condition selects. */
  function SearchResults(c: Criteria, d: Desktop): seq<ControlInfo>
  {
    if d.fault.Healthy? then Harvest(FindAll(d, ScopeOf(c), Combine(Requested(c)))) else []
  }

  /** Every listed element lies in the searched scope and meets every
      criterion that was asked for. */
  lemma ResultsMeetCriteria(c: Criteria, d: Desktop)
    ensures forall info :: info in SearchResults(c, d) ==>
      && info.element in (if c.searchInChildren then Descendants(d.topLevel) else d.topLevel)
      && MatchesCriteria(info.element, c)
      && Some(info) == InfoOf(info.element)
  {
    if d.fault.Healthy? {
      var found := FindAll(d, ScopeOf(c), Combine(Requested(c)));
      FindAllMembers(d, ScopeOf(c), Combine(Requested(c)));
      HarvestDescribes(found);
      FilterMembers(found, Describable);
      forall info | info in SearchResults(c, d)
        ensures info.element in (if c.searchInChildren then Descendants(d.topLevel) else d.topLevel)
        ensures MatchesCriteria(info.element, c)
        ensures Some(info) == InfoOf(info.element)
      {
        var i :| 0 <= i < |Harvest(found)| && Harvest(found)[i] == info;
        assert ElementsOf(Harvest(found))[i] == info.element;
        QueryMeansCriteria(info.element, c);
      }
    }
  }

  // ---------------------------------------------------------------------
  // The dialog

  class FindControlDialog {
    /** `_foundControls`, listed one to one in the result list. */
    var foundControls: seq<ControlInfo>
    var selectedControl: Option<ControlInfo>
    /** `DialogResult`: unset until the dialog is accepted or cancelled. */
    var dialogResult: Option<bool>
    var closed: bool

    constructor ()
      ensures foundControls == [] && selectedControl.None? && dialogResult.None? && !closed
    {
      foundControls := [];
      selectedControl := None;
      dialogResult := None;
      closed := false;
    }

    /** The condition part of `BtnFind_Click`: the criteria's conditions in
        order, `TrueCondition` when there are none, and an `AndCondition`
        only for two or more. */
    static method BuildCondition(c: Criteria) returns (finalCondition: Condition)
      ensures finalCondition == Combine(Requested(c))
    {
      var conditions: seq<Condition> := [];
      if c.matchName && c.name != [] {
        conditions := conditions + [StringIs(NameProperty, c.name)];
      }
      if c.matchAutomationId && c.automationId != [] {
        conditions := conditions + [StringIs(AutomationIdProperty, c.automationId)];
      }
      if c.matchControlType && c.controlTypeName != [] {
        var controlType := ControlTypeFromName(c.controlTypeName);
        if controlType.Some? {
          conditions := conditions + [ControlTypeIs(controlType.value)];
        }
      }
      if c.matchClassName && c.className != [] {
        conditions := conditions + [StringIs(ClassNameProperty, c.className)];
      }
      assert conditions == Requested(c);
      if |conditions| == 0 {
        conditions := conditions + [TrueCondition];
      }
      finalCondition := if |conditions| == 1 then conditions[0] else AndCondition(conditions);
    }

    /** `BtnFind_Click`: clears the results, then queries the desktop with
        the combined condition and lists each result that can be described. */
    method BtnFind_Click(c: Criteria, desktop: Desktop)
      modifies this`foundControls
      ensures foundControls == SearchResults(c, desktop)
    {
      foundControls := [];
      if desktop.fault == RootUnavailable {
        return;
      }
      var finalCondition := BuildCondition(c);
      var searchScope := if c.searchInChildren then DescendantsScope else ChildrenScope;
      if desktop.fault == QueryFails {
        return;
      }
      var elements := FindAll(desktop, searchScope, finalCondition);
      foundControls := ListDescribable(elements);
    }

    /** The listing loop of `BtnFind_Click`: one entry per element that can
        be described, in the order the query returned them. */
    static method ListDescribable(elements: seq<Element>) returns (found: seq<ControlInfo>)
      ensures found == Harvest(elements)
    {
      found := [];
      var i := 0;
      while i < |elements|
        invariant 0 <= i <= |elements|
        invariant found == Harvest(elements[..i])
      {
        var controlInfo := InfoOf(elements[i]);
        if controlInfo.Some? {
          found := found + [controlInfo.value];
        }
        assert elements[..i + 1][..i] == elements[..i];
        i := i + 1;
      }
      assert elements[..i] == elements;
    }

    /** `BtnSelect_Click`: accepts the entry at the selected index when
        there is one; `index` is -1 when nothing is selected. */
    method BtnSelect_Click(index: int)
      modifies this`selectedControl, this`dialogResult, this`closed
      ensures 0 <= index < |foundControls| ==>
        selectedControl == Some(foundControls[index]) && dialogResult == Some(true) && closed
      ensures !(0 <= index < |foundControls|) ==>
        selectedControl == old(selectedControl) && dialogResult == old(dialogResult) && closed == old(closed)
    {
      if index >= 0 && index < |foundControls| {
        selectedControl := Some(foundControls[index]);
        dialogResult := Some(true);
        closed := true;
      }
    }

    /** `BtnCancel_Click`. */
    method BtnCancel_Click()
      modifies this`dialogResult, this`closed
      ensures dialogResult == Some(false) && closed
    {
      dialogResult := Some(false);
      closed := true;
    }
  }
}
