/** Self-exclusion (`IsOwnApplicationElement` in `MainWindow.xaml.cs`): the
    picker refuses elements that belong to the inspector itself. */
module SelfExclusion {
  import opened Strings
  import opened Automation

  /** What the inspector can learn about itself and the machine.
      `windowHandle` is what `GetHandle` yields: the main window's handle,
      or 0 when the window has no `HwndSource` or the lookup fails.
      `processNames` is the process table `Process.GetProcessById` consults.
      `diagnostics` holds in a build whose `Debug.WriteLine` calls are
      compiled in: their arguments then read ClassName and AutomationId. */
  datatype Host = Host(
    processId: int,
    processName: string,
    windowHandle: int,
    processNames: map<int, string>,
    diagnostics: bool)

  /** The name given to a process that `GetProcessById` cannot find. */
  const UnknownProcess: string := "Unknown"

  /** `GetProcessName`: the name of a running process, or "Unknown" for a
      process id that names none. */
  function ProcessNameOf(pid: int, host: Host): (name: string)
    ensures pid in host.processNames ==> name == host.processNames[pid]
    ensures pid !in host.processNames ==> name == UnknownProcess
  {
    if pid in host.processNames then host.processNames[pid] else UnknownProcess
  }

  /** Every provider read made before the decision succeeds. */
  predicate ReadsSucceed(e: Element, host: Host)
  {
    && e.processId.Got?
    && e.nativeWindowHandle.Got?
    && (host.diagnostics ==> e.className.Got? && e.automationId.Got?)
  }

  /** `IsOwnApplicationElement(element)`. */
  function IsOwnApplicationElement(element: Option<Element>, host: Host): (own: bool)
    // a null element, or a read that raises, gives false
    ensures element.None? || !ReadsSucceed(element.value, host) ==> !own
    // the inspector's own window handle decides, whatever the process
    ensures (&& element.Some? && ReadsSucceed(element.value, host)
             && element.value.nativeWindowHandle.value == host.windowHandle)
      ==> own
    // otherwise: same process id and the same process name ignoring case
    ensures (&& element.Some? && ReadsSucceed(element.value, host)
             && element.value.nativeWindowHandle.value != host.windowHandle)
      ==>
      (own <==> element.value.processId.value == host.processId
                && EqualsIgnoreCase(ProcessNameOf(element.value.processId.value, host), host.processName))
  {
    match element
    case None => false
    case Some(e) =>
      match e.processId
      case Throws => false
      case Got(pid) =>
        var name := ProcessNameOf(pid, host);
        match e.nativeWindowHandle
        case Throws => false
        case Got(handle) =>
          if host.diagnostics && (e.className.Throws? || e.automationId.Throws?) then false
          else if handle == host.windowHandle then true
          else pid == host.processId && EqualsIgnoreCase(name, host.processName)
  }

  /** While the inspector has no window handle of its own, every element
      that reports no native window (handle 0) counts as its own. */
  lemma ZeroHandleCountsAsOwn(e: Element, host: Host)
    requires host.windowHandle == 0
    requires ReadsSucceed(e, host) && e.nativeWindowHandle == Got(0)
    ensures IsOwnApplicationElement(Some(e), host)
  {
  }

  /** An element of a process that cannot be looked up is never taken for
      the inspector's through the name test, unless the inspector's own
      process is itself called "unknown" in some letter case. */
  lemma {:induction false} UnknownProcessIsForeign(e: Element, host: Host)
    requires ReadsSucceed(e, host) && e.processId.value !in host.processNames
    requires e.nativeWindowHandle.value != host.windowHandle
    requires !EqualsIgnoreCase(UnknownProcess, host.processName)
    ensures !IsOwnApplicationElement(Some(e), host)
  {
  }

  /** The name comparison ignores letter case on both sides. */
  lemma {:induction false} ProcessNameCaseIrrelevant(e: Element, host: Host)
    requires ReadsSucceed(e, host)
    ensures IsOwnApplicationElement(Some(e), host)
      == IsOwnApplicationElement(Some(e), host.(processName := ToLower(host.processName)))
  {
    ToLowerIdempotent(host.processName);
  }
}
