/** The foreground classifier: decides from the foreground window's handle,
    class name and rectangle whether it is the desktop, an ordinary window or
    a fullscreen game. */
module Foreground {
  import opened Types

  datatype Verdict = Desktop | Ordinary | FullscreenGame

  /** Size of the buffer handed to RealGetWindowClassA, terminator included. */
  const CLASS_BUFFER := 15

  /** The class of the window that hosts the desktop wallpaper. */
  const WORKER_W := "WorkerW"

  /** The class name as read into the buffer: at most CLASS_BUFFER - 1
      characters, then the terminator. */
  function FetchedClass(name: string): (r: string)
    ensures |r| <= CLASS_BUFFER - 1
    ensures r <= name
  {
    if |name| <= CLASS_BUFFER - 1 then name else name[..CLASS_BUFFER - 1]
  }

  /** Truncating the class name never changes the comparison with "WorkerW". */
  lemma FetchedClassIsWorkerW(name: string)
    ensures FetchedClass(name) == WORKER_W <==> name == WORKER_W
  {
  }

  /** First match wins: a cached desktop handle, then the wallpaper host class,
      then a window rectangle equal to the desktop's on all four edges. A
      failed rectangle query (None) counts as an ordinary window. */
  function Classify(wnd: Handle, desktop1: Handle, desktop2: Handle, className: string,
                    wndRect: Option<Rect>, desktop: Rect): (v: Verdict)
    ensures wnd == desktop1 || wnd == desktop2 ==> v == Desktop
    ensures v == FullscreenGame ==> wndRect == Some(desktop)
    ensures wndRect.None? ==> v != FullscreenGame
  {
    if wnd == desktop1 || wnd == desktop2 then Desktop
    else if FetchedClass(className) == WORKER_W then Desktop
    else if wndRect.Some? && wndRect.value.left == desktop.left && wndRect.value.right == desktop.right
         && wndRect.value.top == desktop.top && wndRect.value.bottom == desktop.bottom
    then FullscreenGame
    else Ordinary
  }

  /** The desktop verdict depends only on the handle and the class name. */
  lemma DesktopIff(wnd: Handle, desktop1: Handle, desktop2: Handle, className: string,
                   wndRect: Option<Rect>, desktop: Rect)
    ensures Classify(wnd, desktop1, desktop2, className, wndRect, desktop) == Desktop
            <==> wnd == desktop1 || wnd == desktop2 || className == WORKER_W
  {
  }

  /** A window is a fullscreen game exactly when it is neither desktop handle,
      its class is not "WorkerW", its rectangle query succeeds, and the
      rectangle equals the desktop's on every one of its four edges. */
  lemma FullscreenIff(wnd: Handle, desktop1: Handle, desktop2: Handle, className: string,
                      wndRect: Option<Rect>, desktop: Rect)
    ensures Classify(wnd, desktop1, desktop2, className, wndRect, desktop) == FullscreenGame
            <==> wnd != desktop1 && wnd != desktop2 && className != WORKER_W && wndRect == Some(desktop)
  {
  }

  /** Equal area is not enough: a window of the desktop's size shifted by any
      offset, or one differing in a single edge, is an ordinary window. */
  lemma OneEdgeOffIsOrdinary(wnd: Handle, desktop1: Handle, desktop2: Handle, className: string,
                             r: Rect, desktop: Rect)
    requires wnd != desktop1 && wnd != desktop2 && className != WORKER_W
    requires r != desktop
    ensures Classify(wnd, desktop1, desktop2, className, Some(r), desktop) == Ordinary
  {
  }
}
