// The earlier window manager of src/scripts/windows.ts: it creates a window
// for a content address and title, appends it to its stack and names the
// window's node `window-<n>`, n being the stack length after the append.

module Windows {
  import opened Decimal

  datatype Size = Size(width: nat, height: nat)

  /** The node id given to the window that makes the stack `n` long. */
  function WindowId(n: nat): (id: string)
    ensures |id| > |"window-"| && id[..|"window-"|] == "window-"
  {
    "window-" + NatToString(n)
  }

  lemma WindowIdInjective(m: nat, n: nat)
    requires WindowId(m) == WindowId(n)
    ensures m == n
  {
    assert WindowId(m)[7..] == NatToString(m);
    assert WindowId(n)[7..] == NatToString(n);
    NatToStringInjective(m, n);
  }

  /** A window: its iframe's address and title, and the id of its node. */
  class Window {
    const href: string
    const title: string
    var id: string

    /** The node is a clone of the `#original-window` template, so it starts
        with the template's id. */
    constructor (href: string, title: string)
      ensures this.href == href && this.title == title
      ensures id == "original-window"
    {
      this.href := href;
      this.title := title;
      id := "original-window";
    }
  }

  class WindowManager {
    var windowStack: seq<Window>
    const defaultWindowSize: Size

    /** The window at index i was created when the stack became i + 1 long. */
    ghost predicate Valid()
      reads this, windowStack
    {
      forall i :: 0 <= i < |windowStack| ==> windowStack[i].id == WindowId(i + 1)
    }

    constructor ()
      ensures windowStack == [] && Valid()
      ensures defaultWindowSize == Size(900, 600)
    {
      windowStack := [];
      defaultWindowSize := Size(900, 600);
    }

    method CreateWindow(href: string, title: string) returns (w: Window)
      requires Valid()
      modifies this
      ensures Valid()
      ensures fresh(w) && w.href == href && w.title == title
      ensures windowStack == old(windowStack) + [w]
      ensures |windowStack| == old(|windowStack|) + 1
      ensures w.id == WindowId(|windowStack|)
      ensures forall i :: 0 <= i < old(|windowStack|) ==> windowStack[i].id == old(windowStack[i].id)
    {
      w := new Window(href, title);
      windowStack := windowStack + [w];
      w.id := WindowId(|windowStack|);
    }
  }

  /** No two windows on the stack share an id. */
  lemma IdsPairwiseDistinct(m: WindowManager)
    requires m.Valid()
    ensures forall i, j :: 0 <= i < j < |m.windowStack| ==> m.windowStack[i].id != m.windowStack[j].id
  {
    forall i, j | 0 <= i < j < |m.windowStack|
      ensures m.windowStack[i].id != m.windowStack[j].id
    {
      if m.windowStack[i].id == m.windowStack[j].id {
        WindowIdInjective(i + 1, j + 1);
      }
    }
  }
}
