/** `WindowInfoOptions`: an immutable set of three optional window filters.
    A null filter places no constraint; every populated filter must be
    passed for a window to be included. */
module WindowManagement {
  import opened Wrappers

  /** A native window handle (`nint`). */
  type Handle = int

  /** The record; `None` stands for a null collection. */
  datatype WindowInfoOptions = WindowInfoOptions(
    windowTitleFilter: Option<seq<string>>,
    windowHandleFilter: Option<seq<Handle>>,
    parentProcessFilter: Option<seq<string>>)

  /** What a filter is applied to: one top-level window. */
  datatype Window = Window(handle: Handle, title: string, processName: string)

  /** How a title is matched against one title pattern, and a process name
      against one process pattern; the record does not fix either. */
  datatype Matchers = Matchers(
    titleMatches: (string, string) -> bool,
    processMatches: (string, string) -> bool)

  /** The constructor: each argument defaults to null and is stored unchanged. */
  function Create(
    windowTitleFilter: Option<seq<string>> := None,
    windowHandleFilter: Option<seq<Handle>> := None,
    parentProcessFilter: Option<seq<string>> := None): (o: WindowInfoOptions)
    ensures o.windowTitleFilter == windowTitleFilter
    ensures o.windowHandleFilter == windowHandleFilter
    ensures o.parentProcessFilter == parentProcessFilter
  {
    WindowInfoOptions(windowTitleFilter, windowHandleFilter, parentProcessFilter)
  }

  /** A null title filter admits every window; otherwise the title must match
      one of its strings (so an empty list admits none). */
  predicate PassesTitleFilter(o: WindowInfoOptions, w: Window, m: Matchers)
  {
    match o.windowTitleFilter
    case None => true
    case Some(titles) => exists k :: 0 <= k < |titles| && m.titleMatches(w.title, titles[k])
  }

  /** A null handle filter admits every window; otherwise the handle must be in it. */
  predicate PassesHandleFilter(o: WindowInfoOptions, w: Window)
  {
    match o.windowHandleFilter
    case None => true
    case Some(handles) => w.handle in handles
  }

  /** A null or empty parent-process filter admits every window; otherwise the
      owning process name must match one of its entries. */
  predicate PassesParentProcessFilter(o: WindowInfoOptions, w: Window, m: Matchers)
  {
    match o.parentProcessFilter
    case None => true
    case Some(names) =>
      names == [] || exists k :: 0 <= k < |names| && m.processMatches(w.processName, names[k])
  }

  /** A window is included when it passes every filter. */
  predicate Permits(o: WindowInfoOptions, w: Window, m: Matchers)
  {
    PassesTitleFilter(o, w, m) && PassesHandleFilter(o, w) && PassesParentProcessFilter(o, w, m)
  }

  /** The windows of `windows` the options include, in their original order. */
  function Included(o: WindowInfoOptions, windows: seq<Window>, m: Matchers): (r: seq<Window>)
    ensures |r| <= |windows|
    ensures forall i :: 0 <= i < |r| ==> Permits(o, r[i], m)
  {
    if windows == [] then []
    else
      var rest := Included(o, windows[1..], m);
      if Permits(o, windows[0], m) then [windows[0]] + rest else rest
  }

  /** A window is in the result exactly when it is in the input and permitted. */
  lemma {:induction false} IncludedMembers(o: WindowInfoOptions, windows: seq<Window>, m: Matchers, w: Window)
    ensures w in Included(o, windows, m) <==> w in windows && Permits(o, w, m)
  {
    if windows != [] {
      IncludedMembers(o, windows[1..], m, w);
      assert windows == [windows[0]] + windows[1..];
    }
  }

  /** Filtering keeps the input order: it distributes over concatenation. */
  lemma {:induction false} IncludedAppend(o: WindowInfoOptions, a: seq<Window>, b: seq<Window>, m: Matchers)
    ensures Included(o, a + b, m) == Included(o, a, m) + Included(o, b, m)
  {
    if a == [] {
      assert a + b == b;
    } else {
      assert (a + b)[1..] == a[1..] + b;
      IncludedAppend(o, a[1..], b, m);
    }
  }

  /** With every argument left at its default, nothing is filtered out. */
  lemma DefaultPermitsAll(w: Window, m: Matchers)
    ensures Permits(Create(), w, m)
  {
  }

  /** The three filters combine with AND: each populated filter restricts on
      its own, as if it were the only one. */
  lemma FiltersCombineWithAnd(o: WindowInfoOptions, w: Window, m: Matchers)
    ensures Permits(o, w, m) <==>
      && Permits(Create(windowTitleFilter := o.windowTitleFilter), w, m)
      && Permits(Create(windowHandleFilter := o.windowHandleFilter), w, m)
      && Permits(Create(parentProcessFilter := o.parentProcessFilter), w, m)
  {
  }

  /** A handle-only filter includes exactly the windows whose handle it lists. */
  lemma HandleFilterExact(handles: seq<Handle>, w: Window, m: Matchers)
    ensures Permits(Create(windowHandleFilter := Some(handles)), w, m) <==> w.handle in handles
  {
  }

  /** The empty list behaves differently per filter: an empty title or handle
      list admits no window, an empty parent-process list admits every window. */
  lemma EmptyListsDiffer(w: Window, m: Matchers)
    ensures !Permits(Create(windowTitleFilter := Some([])), w, m)
    ensures !Permits(Create(windowHandleFilter := Some([])), w, m)
    ensures Permits(Create(parentProcessFilter := Some([])), w, m)
  {
  }

  /** Populating a filter that was null never admits more windows. */
  lemma AddingFilterRestricts(o: WindowInfoOptions, handles: seq<Handle>, windows: seq<Window>, m: Matchers)
    requires o.windowHandleFilter.None?
    ensures forall w :: w in Included(o.(windowHandleFilter := Some(handles)), windows, m) ==>
      w in Included(o, windows, m) && w.handle in handles
  {
    forall w | w in Included(o.(windowHandleFilter := Some(handles)), windows, m)
      ensures w in Included(o, windows, m) && w.handle in handles
    {
      IncludedMembers(o.(windowHandleFilter := Some(handles)), windows, m, w);
      IncludedMembers(o, windows, m, w);
    }
  }
}
