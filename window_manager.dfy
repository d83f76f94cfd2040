// The window manager of src/scripts/window-manager.ts. Its `windowStack`
// keeps windows in stacking order (index 0 at the bottom, the last element
// topmost). In the source a Proxy set-trap stamps `z = index` on every
// window written into the array, so `push` stamps the pushed window and
// `splice` stamps every window it shifts down. Here that effect is the
// explicit `Restack` step run after each structural change.

module WindowManagement {
  import opened StackOrder

  datatype Size = Size(width: real, height: real)
  datatype Offset = Offset(x: real, y: real)
  datatype Position = Position(top: real, left: real)

  /** Each newly added window is shifted by this much from the previous one. */
  const windowOffset := Offset(20.0, 20.0)

  /** Where `addWindow` places a window when `n` windows are already stacked:
      centred on the desktop, then cascaded by `n` offsets. */
  function CascadePosition(desktop: Size, defaults: Size, n: nat): (p: Position)
  {
    Position(desktop.height / 2.0 - defaults.height / 2.0 + n as real * windowOffset.y,
             desktop.width / 2.0 - defaults.width / 2.0 + n as real * windowOffset.x)
  }

  /** The first window is centred: its middle is the desktop's middle. */
  lemma CascadeFirstCentred(desktop: Size, defaults: Size)
    ensures CascadePosition(desktop, defaults, 0).top + defaults.height / 2.0 == desktop.height / 2.0
    ensures CascadePosition(desktop, defaults, 0).left + defaults.width / 2.0 == desktop.width / 2.0
  {
  }

  /** Each further window sits one offset lower and one offset further right. */
  lemma CascadeStep(desktop: Size, defaults: Size, n: nat)
    ensures CascadePosition(desktop, defaults, n + 1).top == CascadePosition(desktop, defaults, n).top + 20.0
    ensures CascadePosition(desktop, defaults, n + 1).left == CascadePosition(desktop, defaults, n).left + 20.0
  {
  }

  /** The manager's view of a window: its stacking value and its position. */
  class Window {
    var z: int
    var top: real
    var left: real

    constructor ()
    {
    }
  }

  class WindowManager {
    var windowStack: seq<Window>
    const desktop: Size
    const windowDefaults: Size

    /** The stacking values read along the stack, bottom to top. */
    ghost function ZValues(): (zs: seq<int>)
      reads this, windowStack
    {
      var s := windowStack;
      seq(|s|, i requires 0 <= i < |s| reads s => s[i].z)
    }

    /** What the set-trap leaves behind: a window's stacking value is the
        index at which it was last written, which is its last position. */
    ghost predicate Valid()
      reads this, windowStack
    {
      ZValues() == LastIndices(windowStack)
    }

    constructor (desktop: Size, windowDefaults: Size)
      ensures windowStack == [] && Valid()
      ensures this.desktop == desktop && this.windowDefaults == windowDefaults
    {
      windowStack := [];
      this.desktop := desktop;
      this.windowDefaults := windowDefaults;
    }

    /** The set-trap's effect: every window is stamped with its index, bottom to top. */
    method Restack()
      modifies (set v | v in windowStack)`z
      ensures Valid()
    {
      var i := 0;
      while i < |windowStack|
        invariant 0 <= i <= |windowStack|
        invariant forall j :: 0 <= j < i ==> windowStack[j].z == LastIndexOf(windowStack[..i], windowStack[j])
      {
        windowStack[i].z := i;
        forall j | 0 <= j <= i
          ensures windowStack[j].z == LastIndexOf(windowStack[..i + 1], windowStack[j])
        {
          LastIndexOfPrefixStep(windowStack, i, j);
        }
        i := i + 1;
      }
      assert windowStack[..i] == windowStack;
      assert forall j :: 0 <= j < |windowStack| ==> ZValues()[j] == LastIndices(windowStack)[j];
    }

    method AddWindow(w: Window)
      requires Valid()
      modifies this, (set v | v in windowStack)`z, w
      ensures Valid()
      ensures windowStack == old(windowStack) + [w]
      ensures w.z == old(|windowStack|)
      ensures forall i :: 0 <= i < old(|windowStack|) && windowStack[i] != w ==> ZValues()[i] == old(ZValues())[i]
      ensures w !in old(windowStack) ==> ZValues() == old(ZValues()) + [old(|windowStack|)]
      ensures Position(w.top, w.left) == CascadePosition(desktop, windowDefaults, old(|windowStack|))
      ensures Distinct(old(windowStack)) && w !in old(windowStack) ==> Distinct(windowStack)
    {
      var p := CascadePosition(desktop, windowDefaults, |windowStack|);
      w.top, w.left := p.top, p.left;
      ghost var before := windowStack;
      windowStack := windowStack + [w];
      Restack();
      LastIndicesAppend(before, w);
      assert old(ZValues()) == LastIndices(before);
      assert ZValues() == LastIndices(windowStack);
      assert ZValues()[|before|] == w.z;
      if Distinct(before) && w !in before {
        AppendDistinct(before, w);
      }
    }

    method RemoveWindow(w: Window)
      requires Valid()
      modifies this, (set v | v in windowStack)`z
      ensures Valid()
      ensures windowStack == RemoveFirst(old(windowStack), w)
      ensures w !in old(windowStack) ==> ZValues() == old(ZValues())
      ensures w !in windowStack ==> w.z == old(w.z)
      ensures Distinct(old(windowStack)) ==>
                Distinct(windowStack) && w !in windowStack &&
                forall i :: 0 <= i < |windowStack| ==> ZValues()[i] == i
    {
      ghost var before := windowStack;
      var index := IndexOf(windowStack, w);
      if index == -1 {
        return;
      }
      windowStack := windowStack[..index] + windowStack[index + 1..];
      Restack();
      if Distinct(before) {
        RemoveFirstDistinct(before, w);
        DistinctLastIndices(windowStack);
      }
    }

    method FocusWindow(w: Window)
      requires Valid()
      modifies this, (set v | v in windowStack)`z
      ensures Valid()
      ensures windowStack == Focused(old(windowStack), w)
      ensures windowStack == old(windowStack) ==> ZValues() == old(ZValues())
      ensures Distinct(old(windowStack)) ==>
                Distinct(windowStack) &&
                forall i :: 0 <= i < |windowStack| ==> ZValues()[i] == i
    {
      ghost var before := windowStack;
      var index := IndexOf(windowStack, w);
      if index == -1 {
        return;
      }
      windowStack := windowStack[..index] + windowStack[index + 1..];
      windowStack := windowStack + [w];
      Restack();
      if Distinct(before) {
        FocusedDistinct(before, w);
        DistinctLastIndices(windowStack);
      }
    }
  }

  /** On a stack without duplicates every window's stacking value is its index,
      so stacking values strictly increase from bottom to top. */
  lemma StackingStrictlyIncreasing(m: WindowManager)
    requires m.Valid() && Distinct(m.windowStack)
    ensures forall i :: 0 <= i < |m.windowStack| ==> m.windowStack[i].z == i
    ensures forall i, j :: 0 <= i < j < |m.windowStack| ==> m.windowStack[i].z < m.windowStack[j].z
  {
    DistinctLastIndices(m.windowStack);
    assert forall i :: 0 <= i < |m.windowStack| ==> m.ZValues()[i] == m.windowStack[i].z;
  }

  /** Adding a window already on the stack breaks `z == index`: after pushing
      `w` twice onto an empty stack, `w` sits at index 0 but carries z = 1. */
  lemma DuplicateAddStampsLastIndex<T>(w: T)
    ensures LastIndices([w, w]) == [1, 1]
  {
    LastIndicesAppend([w], w);
    assert [w] + [w] == [w, w];
  }
}
