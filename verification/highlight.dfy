/** The highlight overlay (`HighlightWindow.cs`): from an automation bounding
    rectangle to physical pixels, from physical pixels to WPF logical units,
    and the blinking outline with its timer.

    Floating point is modelled by reals: the scale `dpi / 96` is exact and
    `Math.Round` is rounding half to even on reals. */
module Highlight {
  import opened Strings
  import opened Automation

  /** The Win32 `RECT` structure, edges in screen pixels. */
  datatype WinRect = WinRect(left: int, top: int, right: int, bottom: int)
  {
    /** `RECT.Width`. */
    function Width(): int
    {
      right - left
    }

    /** `RECT.Height`. */
    function Height(): int
    {
      bottom - top
    }
  }

  /** `System.Drawing.Rectangle`: origin and size in physical pixels. */
  datatype Rectangle = Rectangle(x: int, y: int, width: int, height: int)

  /** The rectangle `CreateFromHandle` passes to the overlay: a window
      rectangle converted from edges to origin and size. */
  function FromEdges(r: WinRect): (p: Rectangle)
    ensures p.x + p.width == r.right && p.y + p.height == r.bottom
    ensures p.x == r.left && p.y == r.top
  {
    Rectangle(r.left, r.top, r.Width(), r.Height())
  }

  /** The edges of a rectangle; `FromEdges` inverts it. */
  function ToEdges(p: Rectangle): WinRect
  {
    WinRect(p.x, p.y, p.x + p.width, p.y + p.height)
  }

  lemma EdgesRoundTrip(p: Rectangle, r: WinRect)
    ensures FromEdges(ToEdges(p)) == p
    ensures ToEdges(FromEdges(r)) == r
  {
  }

  // ---------------------------------------------------------------------
  // Screen scale

  /** A dots-per-inch value reported by `GetDeviceCaps`. */
  type Dpi = d: int | d > 0 witness 96

  /** What `GetDC(IntPtr.Zero)` and `GetDeviceCaps(LOGPIXELSX/Y)` give:
      no device context, a call that raises, or the two resolutions. */
  datatype ScreenQuery = NoDeviceContext | QueryRaises | DeviceCaps(dpiX: Dpi, dpiY: Dpi)

  /** A per-axis scale factor (`System.Drawing.PointF`). */
  datatype Scale = Scale(x: real, y: real)

  /** `GetStaticSystemDpiScale` (and its instance twin `GetSystemDpiScale`):
      `dpi / 96` on each axis, or no scaling when the screen cannot be
      queried. */
  function SystemDpiScale(q: ScreenQuery): (s: Scale)
    ensures s.x > 0.0 && s.y > 0.0
    ensures q.DeviceCaps? ==> s.x * 96.0 == q.dpiX as real && s.y * 96.0 == q.dpiY as real
    ensures !q.DeviceCaps? ==> s == Scale(1.0, 1.0)
    // the standard resolution of 96 dpi scales by nothing, like the fallback
    ensures q == DeviceCaps(96, 96) ==> s == Scale(1.0, 1.0)
  {
    match q
    case DeviceCaps(dx, dy) => Scale(dx as real / 96.0, dy as real / 96.0)
    case _ => Scale(1.0, 1.0)
  }

  // ---------------------------------------------------------------------
  // Rounding (Math.Round with MidpointRounding.ToEven)

  /** The integer nearest to `x`; a tie goes to the even neighbour. */
  function RoundHalfEven(x: real): (r: int)
    ensures -0.5 <= x - r as real <= 0.5
    ensures (x - r as real == 0.5 || r as real - x == 0.5) ==> r % 2 == 0
    // rounding never turns a non-negative length negative
    ensures x >= 0.0 ==> r >= 0
  {
    var f := x.Floor;
    var d := x - f as real;
    if d < 0.5 then f
    else if d > 0.5 then f + 1
    else if f % 2 == 0 then f else f + 1
  }

  /** Those two properties determine the rounded value: any integer within
      one half of `x`, even on a tie, is `RoundHalfEven(x)`. */
  lemma RoundingIsUnique(x: real, n: int)
    requires -0.5 <= x - n as real <= 0.5
    requires (x - n as real == 0.5 || n as real - x == 0.5) ==> n % 2 == 0
    ensures n == RoundHalfEven(x)
  {
  }

  lemma RoundingKeepsIntegers(n: int)
    ensures RoundHalfEven(n as real) == n
  {
    RoundingIsUnique(n as real, n);
  }

  // ---------------------------------------------------------------------
  // CreateFromAutomationRect

  datatype DpiAwareness = DpiUnaware | SystemDpiAware | PerMonitorDpiAware

  /** `GetProcessDpiAwareness`: the process is taken to be system-DPI aware;
      the mode is fixed, not queried. */
  function ProcessDpiAwareness(): DpiAwareness
  {
    SystemDpiAware
  }

  /** A bounding rectangle with each component multiplied by its axis'
      scale factor. */
  function ScaleRect(r: AutoRect, s: Scale): (scaled: AutoRect)
    ensures s.x > 0.0 && r.width >= 0.0 ==> scaled.width >= 0.0
    ensures s.y > 0.0 && r.height >= 0.0 ==> scaled.height >= 0.0
  {
    AutoRect(r.x * s.x, r.y * s.y, r.width * s.x, r.height * s.y)
  }

  /** Each component rounded half to even, as `Math.Round` does. */
  function RoundedRect(r: AutoRect): (p: Rectangle)
    ensures -0.5 <= r.x - p.x as real <= 0.5 && -0.5 <= r.y - p.y as real <= 0.5
    ensures -0.5 <= r.width - p.width as real <= 0.5 && -0.5 <= r.height - p.height as real <= 0.5
    ensures r.width >= 0.0 ==> p.width >= 0
    ensures r.height >= 0.0 ==> p.height >= 0
  {
    Rectangle(RoundHalfEven(r.x), RoundHalfEven(r.y), RoundHalfEven(r.width), RoundHalfEven(r.height))
  }

  /** The physical rectangle `CreateFromAutomationRect` computes for a
      bounding rectangle under a given awareness mode. */
  function PhysicalRect(r: AutoRect, mode: DpiAwareness, q: ScreenQuery): (p: Rectangle)
    // unaware: each component scaled by its axis' system scale, then rounded
    ensures mode == DpiUnaware ==> p == RoundedRect(ScaleRect(r, SystemDpiScale(q)))
    // any other mode: the identity up to rounding, whatever the screen
    ensures mode != DpiUnaware ==> p == RoundedRect(r)
    // a non-negative size stays non-negative in every mode
    ensures r.width >= 0.0 ==> p.width >= 0
    ensures r.height >= 0.0 ==> p.height >= 0
  {
    if mode == DpiUnaware then RoundedRect(ScaleRect(r, SystemDpiScale(q))) else RoundedRect(r)
  }

  /** With the awareness mode the inspector assumes, the screen resolution
      plays no part, and a rectangle on whole pixels passes through
      unchanged. */
  lemma AutomationRectUnscaled(r: AutoRect, q1: ScreenQuery, q2: ScreenQuery)
    ensures PhysicalRect(r, ProcessDpiAwareness(), q1) == PhysicalRect(r, ProcessDpiAwareness(), q2)
    ensures r.x.Floor as real == r.x && r.y.Floor as real == r.y
      && r.width.Floor as real == r.width && r.height.Floor as real == r.height
      ==> PhysicalRect(r, ProcessDpiAwareness(), q1)
          == Rectangle(r.x.Floor, r.y.Floor, r.width.Floor, r.height.Floor)
  {
    RoundingKeepsIntegers(r.x.Floor);
    RoundingKeepsIntegers(r.y.Floor);
    RoundingKeepsIntegers(r.width.Floor);
    RoundingKeepsIntegers(r.height.Floor);
  }

  // ---------------------------------------------------------------------
  // The overlay window

  /** The outline's opacity for a blink phase. */
  function Opacity(visible: bool): real
  {
    if visible then 1.0 else 0.3
  }

  const BlinkIntervalMs: nat := 500

  /** A `HighlightWindow`: its logical placement, the red outline it
      contains, the blink phase and the blink timer. */
  class HighlightWindow {
    var left: real
    var top: real
    var width: real
    var height: real
    var outlineWidth: real
    var outlineHeight: real
    var isVisible: bool
    var opacity: real
    var timerRunning: bool
    var timerInterval: nat
    var isLoaded: bool
    var isClosed: bool
    /** The physical rectangle and scale it was built from. */
    ghost var bounds: Rectangle
    ghost var scale: Scale
    /** Blink ticks received so far. */
    ghost var ticks: nat

    ghost predicate Valid()
      reads this
    {
      && scale.x > 0.0 && scale.y > 0.0
      // logical units times the scale give back the physical pixels
      && left * scale.x == bounds.x as real && top * scale.y == bounds.y as real
      && width * scale.x == bounds.width as real && height * scale.y == bounds.height as real
      // the outline fills the window
      && outlineWidth == width && outlineHeight == height
      // the phase alternates from visible, one step per tick
      && isVisible == (ticks % 2 == 0)
      && opacity == Opacity(isVisible)
      && timerInterval == BlinkIntervalMs
      // the timer runs only between loading and closing
      && (timerRunning ==> isLoaded && !isClosed)
    }

    /** Visible on screen: loaded and not yet closed. */
    predicate Live()
      reads this
    {
      isLoaded && !isClosed
    }

    /** `new HighlightWindow(bounds)`: divides the physical rectangle by the
      system scale; the outline gets the same size; the timer is created
      stopped. WPF refuses a negative width or height, so the size must
      not be negative. */
    constructor (bounds: Rectangle, q: ScreenQuery)
      requires bounds.width >= 0 && bounds.height >= 0
      ensures Valid()
      ensures this.bounds == bounds && scale == SystemDpiScale(q)
      ensures isVisible && !timerRunning && !isLoaded && !isClosed && ticks == 0
    {
      var s := SystemDpiScale(q);
      left := bounds.x as real / s.x;
      top := bounds.y as real / s.y;
      width := bounds.width as real / s.x;
      height := bounds.height as real / s.y;
      outlineWidth := bounds.width as real / s.x;
      outlineHeight := bounds.height as real / s.y;
      isVisible := true;
      opacity := 1.0;
      timerRunning := false;
      timerInterval := BlinkIntervalMs;
      isLoaded := false;
      isClosed := false;
      this.bounds := bounds;
      scale := s;
      ticks := 0;
    }

    /** `Show()` followed by the `Loaded` handler, which starts the timer. */
    method Show()
      requires Valid() && !isClosed
      modifies this
      ensures Valid() && Live() && timerRunning
      ensures bounds == old(bounds) && scale == old(scale) && isVisible == old(isVisible) && ticks == old(ticks)
      ensures left == old(left) && top == old(top) && width == old(width) && height == old(height)
    {
      isLoaded := true;
      timerRunning := true;
    }

    /** `BlinkTimer_Tick`: flips the phase and sets the outline's opacity. */
    method BlinkTick()
      requires Valid() && timerRunning
      modifies this
      ensures Valid() && timerRunning
      ensures isVisible == !old(isVisible) && opacity == Opacity(isVisible)
      ensures ticks == old(ticks) + 1 && bounds == old(bounds) && isLoaded == old(isLoaded)
      ensures isClosed == old(isClosed)
      ensures scale == old(scale)
      ensures left == old(left) && top == old(top) && width == old(width) && height == old(height)
    {
      isVisible := !isVisible;
      opacity := if isVisible then 1.0 else 0.3;
      ticks := ticks + 1;
    }

    /** `Close()`: the `Closed` handler and `OnClosed` both stop the timer. */
    method Close()
      requires Valid()
      modifies this
      ensures Valid() && isClosed && !timerRunning && !Live()
      ensures bounds == old(bounds) && isLoaded == old(isLoaded) && ticks == old(ticks)
      ensures scale == old(scale) && isVisible == old(isVisible)
      ensures left == old(left) && top == old(top) && width == old(width) && height == old(height)
    {
      isClosed := true;
      timerRunning := false;
    }
  }

  /** `CreateFromAutomationRect`: an overlay over the physical rectangle
      the assumed awareness mode yields. The constructor raises, and the
      exception reaches the caller, when the rounded size is negative. */
  method CreateFromAutomationRect(r: AutoRect, q: ScreenQuery) returns (w: HighlightWindow)
    requires PhysicalRect(r, ProcessDpiAwareness(), q).width >= 0
    requires PhysicalRect(r, ProcessDpiAwareness(), q).height >= 0
    ensures fresh(w) && w.Valid() && !w.isLoaded && !w.isClosed && !w.timerRunning
    ensures w.bounds == PhysicalRect(r, ProcessDpiAwareness(), q)
  {
    var awareness := ProcessDpiAwareness();
    var physical := PhysicalRect(r, awareness, q);
    w := new HighlightWindow(physical, q);
  }

  /** `CreateFromHandle`: an overlay over the window rectangle, or null when
      `GetWindowRect` fails or the constructor raises on a negative size
      (the exception is caught). */
  method CreateFromHandle(windowRect: Option<WinRect>, q: ScreenQuery) returns (w: HighlightWindow?)
    ensures w == null <==>
      windowRect.None? || windowRect.value.Width() < 0 || windowRect.value.Height() < 0
    ensures w != null ==> fresh(w) && w.Valid() && !w.Live() && w.bounds == FromEdges(windowRect.value)
  {
    match windowRect {
      case None => w := null;
      case Some(rect) =>
        if rect.Width() < 0 || rect.Height() < 0 {
          w := null;
        } else {
          w := new HighlightWindow(Rectangle(rect.left, rect.top, rect.Width(), rect.Height()), q);
        }
    }
  }

  /** Where `ClientToScreen` maps the client origin and the client
      rectangle's bottom-right corner. */
  datatype ClientMapping = ClientMapping(originX: int, originY: int, cornerX: int, cornerY: int)

  /** `CreateFromClientRect`: an overlay over the client area in screen
      coordinates, or null when `GetClientRect` or `ClientToScreen` fails or
      when the mapped corner lies left of or above the mapped origin (a
      mirrored window), where the constructor raises and the exception is
      caught. */
  method CreateFromClientRect(mapping: Option<ClientMapping>, q: ScreenQuery) returns (w: HighlightWindow?)
    ensures w == null <==>
      mapping.None? || mapping.value.cornerX < mapping.value.originX || mapping.value.cornerY < mapping.value.originY
    ensures w != null ==>
      && fresh(w) && w.Valid() && !w.Live()
      && w.bounds.x == mapping.value.originX && w.bounds.y == mapping.value.originY
      && w.bounds.x + w.bounds.width == mapping.value.cornerX
      && w.bounds.y + w.bounds.height == mapping.value.cornerY
  {
    match mapping {
      case None => w := null;
      case Some(m) =>
        if m.cornerX < m.originX || m.cornerY < m.originY {
          w := null;
        } else {
          w := new HighlightWindow(Rectangle(m.originX, m.originY, m.cornerX - m.originX, m.cornerY - m.originY), q);
        }
    }
  }
}
