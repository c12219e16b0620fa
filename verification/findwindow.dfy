/** The "find window" dialog (`FindWindowDialog.xaml.cs`): the top-level
    windows are listed when they meet every enabled criterion. */
module FindWindow {
  import opened Strings
  import opened Automation

  /** `WindowInfo`: a window and the attributes listed for it. */
  datatype WindowInfo = WindowInfo(element: Element, title: string, className: string, processId: int)

  /** The dialog's inputs: a check box and a text per criterion. */
  datatype WindowCriteria = WindowCriteria(
    matchTitle: bool, title: string,
    matchClassName: bool, className: string,
    matchProcessId: bool, processIdText: string)

  /** The record built for a window: none when one of its reads raises; a
      null title or class name is listed as empty. */
  function WindowInfoOf(w: Element): (r: Option<WindowInfo>)
    ensures r.Some? <==> w.name.Got? && w.className.Got? && w.processId.Got?
    ensures r.Some? ==>
      r.value == WindowInfo(w, OrEmpty(w.name.value), OrEmpty(w.className.value), w.processId.value)
  {
    match (w.name, w.className, w.processId)
    case (Got(title), Got(className), Got(pid)) => Some(WindowInfo(w, OrEmpty(title), OrEmpty(className), pid))
    case _ => None
  }

  /** What the criteria ask of a window, criterion by criterion: an
      unchecked box or an empty text asks nothing; title and class name
      must contain the text ignoring case; a process id text that does not
      parse asks nothing, one that parses must equal the window's. */
  predicate WindowMatches(info: WindowInfo, c: WindowCriteria)
    // with every box unchecked or every text empty, each window matches
    ensures
      && (!c.matchTitle || c.title == [])
      && (!c.matchClassName || c.className == [])
      && (!c.matchProcessId || c.processIdText == [])
      ==> WindowMatches(info, c)
  {
    && (c.matchTitle && c.title != [] ==> ContainsIgnoreCase(info.title, c.title))
    && (c.matchClassName && c.className != [] ==> ContainsIgnoreCase(info.className, c.className))
    && (c.matchProcessId && c.processIdText != [] && ParseInt32(c.processIdText).Some? ==>
          info.processId == ParseInt32(c.processIdText).value)
  }

  /** The records listed for `ws`, in enumeration order. */
  function Found(ws: seq<Element>, c: WindowCriteria): (r: seq<WindowInfo>)
    ensures |r| <= |ws|
  {
    if ws == [] then []
    else
      var info := WindowInfoOf(ws[|ws| - 1]);
      Found(ws[..|ws| - 1], c) + (if info.Some? && WindowMatches(info.value, c) then [info.value] else [])
  }

  /** Every listed record describes one of the windows and meets the
      criteria. */
  lemma {:induction false} FoundSound(ws: seq<Element>, c: WindowCriteria)
    ensures forall info :: info in Found(ws, c) ==>
      info.element in ws && Some(info) == WindowInfoOf(info.element) && WindowMatches(info, c)
  {
    if ws != [] {
      FoundSound(ws[..|ws| - 1], c);
      forall info | info in Found(ws, c)
        ensures info.element in ws
      {
        if info in Found(ws[..|ws| - 1], c) {
          assert info.element in ws[..|ws| - 1];
        }
      }
    }
  }

  /** Every window whose reads succeed and that meets the criteria is
      listed. */
  lemma {:induction false} FoundComplete(ws: seq<Element>, c: WindowCriteria)
    ensures forall w :: w in ws && WindowInfoOf(w).Some? && WindowMatches(WindowInfoOf(w).value, c) ==>
      WindowInfoOf(w).value in Found(ws, c)
  {
    if ws != [] {
      var init := ws[..|ws| - 1];
      FoundComplete(init, c);
      assert ws == init + [ws[|ws| - 1]];
    }
  }

  /** Without an enabled criterion every readable window is listed. */
  lemma {:induction false} NoCriteriaListsAll(ws: seq<Element>, c: WindowCriteria)
    requires !c.matchTitle && !c.matchClassName && !c.matchProcessId
    ensures Found(ws, c) == Found(ws, WindowCriteria(false, [], false, [], false, []))
    ensures |Found(ws, c)| == |Filter(ws, e => WindowInfoOf(e).Some?)|
  {
    if ws != [] {
      NoCriteriaListsAll(ws[..|ws| - 1], c);
    }
  }

  /** The letter case of the title and class name texts does not matter. */
  lemma {:induction false} CriteriaCaseIrrelevant(info: WindowInfo, c: WindowCriteria)
    ensures WindowMatches(info, c)
      == WindowMatches(info, c.(title := ToLower(c.title), className := ToLower(c.className)))
  {
    ToLowerIdempotent(c.title);
    ToLowerIdempotent(c.className);
  }

  /** A title that contains the text exactly passes the title criterion. */
  lemma TitleExactlyContained(info: WindowInfo, c: WindowCriteria)
    requires Contains(info.title, c.title)
    ensures c.matchTitle && c.title != [] ==> ContainsIgnoreCase(info.title, c.title)
  {
    ContainsIgnoringCase(info.title, c.title);
  }

  /** A process id text that does not parse is ignored rather than
      rejecting the window. */
  lemma UnparsedProcessIdIgnored(info: WindowInfo, c: WindowCriteria)
    requires ParseInt32(c.processIdText).None?
    ensures WindowMatches(info, c) == WindowMatches(info, c.(matchProcessId := false))
  {
  }

  /** What a search lists: nothing when the desktop cannot be read or
      queried, otherwise the matching top-level windows. */
  function SearchResults(c: WindowCriteria, d: Desktop): seq<WindowInfo>
  {
    if d.fault.Healthy? then Found(TopLevelWindows(d), c) else []
  }

  class FindWindowDialog {
    /** `_foundWindows`, listed one to one in the result list. */
    var foundWindows: seq<WindowInfo>
    var selectedWindow: Option<WindowInfo>
    /** `DialogResult`: unset until the dialog is accepted or cancelled. */
    var dialogResult: Option<bool>
    var closed: bool

    constructor ()
      ensures foundWindows == [] && selectedWindow.None? && dialogResult.None? && !closed
    {
      foundWindows := [];
      selectedWindow := None;
      dialogResult := None;
      closed := false;
    }

    /** `BtnFind_Click`: clears the results, then tests each top-level
        window against the criteria one after the other. */
    method BtnFind_Click(c: WindowCriteria, desktop: Desktop)
      modifies this`foundWindows
      ensures foundWindows == SearchResults(c, desktop)
    {
      foundWindows := [];
      if !desktop.fault.Healthy? {
        return;
      }
      var windows := TopLevelWindows(desktop);
      var i := 0;
      while i < |windows|
        invariant 0 <= i <= |windows|
        invariant foundWindows == Found(windows[..i], c)
      {
        var window := windows[i];
        assert windows[..i + 1][..i] == windows[..i];
        var windowInfo := WindowInfoOf(window);
        if windowInfo.Some? {
          var info := windowInfo.value;
          var matches := true;
          if c.matchTitle && c.title != [] {
            matches := matches && ContainsIgnoreCase(info.title, c.title);
          }
          if c.matchClassName && c.className != [] {
            matches := matches && ContainsIgnoreCase(info.className, c.className);
          }
          if c.matchProcessId && c.processIdText != [] {
            var processId := ParseInt32(c.processIdText);
            if processId.Some? {
              matches := matches && info.processId == processId.value;
            }
          }
          assert matches == WindowMatches(info, c);
          if matches {
            foundWindows := foundWindows + [info];
          }
        }
        i := i + 1;
      }
      assert windows[..i] == windows;
    }

    /** `BtnSelect_Click`: accepts the record at the selected index when
        there is one; `index` is -1 when nothing is selected. */
    method BtnSelect_Click(index: int)
      modifies this`selectedWindow, this`dialogResult, this`closed
      ensures 0 <= index < |foundWindows| ==>
        selectedWindow == Some(foundWindows[index]) && dialogResult == Some(true) && closed
      ensures !(0 <= index < |foundWindows|) ==>
        selectedWindow == old(selectedWindow) && dialogResult == old(dialogResult) && closed == old(closed)
    {
      if index >= 0 && index < |foundWindows| {
        selectedWindow := Some(foundWindows[index]);
        dialogResult := Some(true);
        closed := true;
      }
    }

    /** `BtnCancel_Click`. */
    method BtnCancel_Click()
      modifies this`dialogResult, this`closed
      ensures dialogResult == Some(false) && closed
    {
      dialogResult := Some(false);
      closed := true;
    }
  }
}
