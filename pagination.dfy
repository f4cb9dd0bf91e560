/** The page-number window of the pager (src/components/Pagination.tsx): at most seven
    entries, page indices in increasing order with -1 standing for an ellipsis, and the
    buttons drawn from them. */
module Pagination {
  import opened Common

  /** The ellipsis marker. */
  const Gap := -1

  /** The integers lo, lo + 1, ..., hi - 1 (empty when hi <= lo). */
  function Range(lo: int, hi: int): (r: seq<int>)
    ensures |r| == if hi > lo then hi - lo else 0
    ensures forall i :: 0 <= i < |r| ==> r[i] == lo + i
    decreases hi - lo
  {
    if hi <= lo then [] else Range(lo, hi - 1) + [hi - 1]
  }

  /** `getVisiblePages`, case by case: every page when there are at most five; near
      the start the first five, a gap and the last; near the end the first, a gap and the
      last five; otherwise the first, a gap, the current page with its two neighbours, a
      gap and the last. */
  function VisiblePages(pageCount: int, pageIndex: int): seq<int>
  {
    if pageCount <= 5 then Range(0, pageCount)
    else if pageIndex <= 2 then Range(0, 5) + [Gap, pageCount - 1]
    else if pageIndex >= pageCount - 3 then [0, Gap] + Range(pageCount - 5, pageCount)
    else [0, Gap, pageIndex - 1, pageIndex, pageIndex + 1, Gap, pageCount - 1]
  }

  /** `getVisiblePages` as written: pushes onto an array in loops. */
  method GetVisiblePages(pageCount: int, pageIndex: int) returns (pages: seq<int>)
    ensures pages == VisiblePages(pageCount, pageIndex)
  {
    pages := [];
    if pageCount <= 5 {
      var i := 0;
      while i < pageCount
        invariant 0 <= i <= (if pageCount > 0 then pageCount else 0)
        invariant pages == Range(0, i)
      {
        pages := pages + [i];
        i := i + 1;
      }
      return;
    }
    if pageIndex <= 2 {
      var i := 0;
      while i < 5
        invariant 0 <= i <= 5
        invariant pages == Range(0, i)
      {
        pages := pages + [i];
        i := i + 1;
      }
      pages := pages + [Gap];
      pages := pages + [pageCount - 1];
    } else if pageIndex >= pageCount - 3 {
      pages := pages + [0];
      pages := pages + [Gap];
      var i := pageCount - 5;
      while i < pageCount
        invariant pageCount - 5 <= i <= pageCount
        invariant pages == [0, Gap] + Range(pageCount - 5, i)
      {
        pages := pages + [i];
        i := i + 1;
      }
    } else {
      pages := pages + [0];
      pages := pages + [Gap];
      pages := pages + [pageIndex - 1];
      pages := pages + [pageIndex];
      pages := pages + [pageIndex + 1];
      pages := pages + [Gap];
      pages := pages + [pageCount - 1];
    }
  }

  /** Bounds and order: at most seven entries; the page indices are strictly increasing
      and are real pages; an ellipsis appears only with more than five pages and never
      at either end. */
  lemma WindowShape(pageCount: int, pageIndex: int)
    ensures var w := VisiblePages(pageCount, pageIndex);
      && |w| <= 7
      && (forall i :: 0 <= i < |w| && w[i] != Gap ==> 0 <= w[i] < pageCount)
      && (forall i, j :: 0 <= i < j < |w| && w[i] != Gap && w[j] != Gap ==> w[i] < w[j])
      && (forall i :: 0 <= i < |w| && w[i] == Gap ==> pageCount > 5 && 0 < i < |w| - 1)
  {
    var w := VisiblePages(pageCount, pageIndex);
    if pageCount <= 5 {
    } else if pageIndex <= 2 {
      assert w == [0, 1, 2, 3, 4, Gap, pageCount - 1];
    } else if pageIndex >= pageCount - 3 {
      assert w == [0, Gap, pageCount - 5, pageCount - 4, pageCount - 3, pageCount - 2, pageCount - 1];
    }
  }

  /** Every page is shown when there are at most five; otherwise exactly seven entries. */
  lemma WindowLength(pageCount: int, pageIndex: int)
    ensures |VisiblePages(pageCount, pageIndex)| == if pageCount <= 0 then 0 else if pageCount <= 5 then pageCount else 7
  {
  }

  /** With at least one page, the first and the last page are always reachable. */
  lemma WindowEnds(pageCount: int, pageIndex: int)
    requires pageCount > 0
    ensures var w := VisiblePages(pageCount, pageIndex);
      |w| > 0 && w[0] == 0 && w[|w| - 1] == pageCount - 1
  {
  }

  /** The current page, when it is a real page, is always in the window. */
  lemma CurrentPageShown(pageCount: int, pageIndex: int)
    requires 0 <= pageIndex < pageCount
    ensures pageIndex in VisiblePages(pageCount, pageIndex)
  {
    var w := VisiblePages(pageCount, pageIndex);
    if pageCount <= 5 {
      assert w[pageIndex] == pageIndex;
    } else if pageIndex <= 2 {
      assert w[pageIndex] == pageIndex;
    } else if pageIndex >= pageCount - 3 {
      assert w[pageIndex - pageCount + 7] == pageIndex;
    } else {
      assert w[3] == pageIndex;
    }
  }

  /** What a pager control does when clicked. */
  datatype Command = PreviousPage | NextPage | GotoPage(page: int)

  /** A control of the pager, in drawing order. */
  datatype Control =
    | PrevButton(enabled: bool)
    | Ellipsis
    | PageButton(number: int, target: int, selected: bool)
    | NextButton(enabled: bool)

  /** The button or ellipsis drawn for one window entry. */
  function EntryControl(pageNum: int, pageIndex: int): Control
  {
    if pageNum == Gap then Ellipsis
    else PageButton(pageNum + 1, pageNum, pageNum == pageIndex)
  }

  function EntryControls(w: seq<int>, pageIndex: int): (r: seq<Control>)
    ensures |r| == |w|
    ensures forall i :: 0 <= i < |w| ==> r[i] == EntryControl(w[i], pageIndex)
  {
    if w == [] then [] else [EntryControl(w[0], pageIndex)] + EntryControls(w[1..], pageIndex)
  }

  /** The navigation row drawn from the computed window: previous arrow, one control per
      window entry, next arrow. */
  function Controls(canPreviousPage: bool, canNextPage: bool, visiblePages: seq<int>, pageIndex: int): (r: seq<Control>)
    ensures |r| == |visiblePages| + 2
    ensures r[0] == PrevButton(canPreviousPage) && r[|r| - 1] == NextButton(canNextPage)
  {
    [PrevButton(canPreviousPage)] + EntryControls(visiblePages, pageIndex) + [NextButton(canNextPage)]
  }

  /** The click handler of a control: the arrows call their callback only when enabled
      (`canPreviousPage && previousPage()`), a page button goes to its page. */
  function Click(c: Control): (r: Option<Command>)
    ensures c.PageButton? ==> r == Some(GotoPage(c.target))
    ensures c.PrevButton? ==> (r.Some? <==> c.enabled) && (r.Some? ==> r.value == PreviousPage)
    ensures c.NextButton? ==> (r.Some? <==> c.enabled) && (r.Some? ==> r.value == NextPage)
    ensures c.Ellipsis? ==> r == None
  {
    match c
    case PrevButton(enabled) => if enabled then Some(PreviousPage) else None
    case Ellipsis => None
    case PageButton(_, target, _) => Some(GotoPage(target))
    case NextButton(enabled) => if enabled then Some(NextPage) else None
  }

  lemma EntryButtons(w: seq<int>, pageCount: int, pageIndex: int)
    requires forall i :: 0 <= i < |w| && w[i] != Gap ==> 0 <= w[i] < pageCount
    requires forall i, j :: 0 <= i < j < |w| && w[i] != Gap && w[j] != Gap ==> w[i] < w[j]
    ensures var es := EntryControls(w, pageIndex);
      && (forall i :: 0 <= i < |es| && es[i].PageButton? ==>
            && es[i].number == es[i].target + 1
            && 0 <= es[i].target < pageCount
            && (es[i].selected <==> es[i].target == pageIndex))
      && (forall i, j :: (0 <= i < |es| && 0 <= j < |es| && es[i].PageButton? && es[j].PageButton?
            && es[i].selected && es[j].selected) ==> i == j)
      && (pageIndex in w && pageIndex != Gap ==> exists i :: 0 <= i < |es| && es[i].PageButton? && es[i].selected)
  {
    var es := EntryControls(w, pageIndex);
    forall i | 0 <= i < |es| && es[i].PageButton?
      ensures es[i].number == es[i].target + 1 && es[i].target == w[i] && w[i] != Gap
      ensures 0 <= es[i].target < pageCount && (es[i].selected <==> es[i].target == pageIndex)
    {
      assert es[i] == EntryControl(w[i], pageIndex);
    }
    forall i, j | 0 <= i < |es| && 0 <= j < |es| && es[i].PageButton? && es[j].PageButton? && es[i].selected && es[j].selected
      ensures i == j
    {
      assert w[i] == pageIndex == w[j];
    }
    if pageIndex in w && pageIndex != Gap {
      var k :| 0 <= k < |w| && w[k] == pageIndex;
      assert es[k].PageButton? && es[k].selected;
    }
  }

  /** Every page button shows its page number counted from one, leads to a real page,
      and is highlighted exactly when it is the current page; when the current page is a
      real page, exactly one button is highlighted. */
  lemma PageButtons(canPreviousPage: bool, canNextPage: bool, pageCount: int, pageIndex: int)
    ensures var r := Controls(canPreviousPage, canNextPage, VisiblePages(pageCount, pageIndex), pageIndex);
      && (forall i :: 0 <= i < |r| && r[i].PageButton? ==>
            && r[i].number == r[i].target + 1
            && 0 <= r[i].target < pageCount
            && (r[i].selected <==> r[i].target == pageIndex))
      && (forall i, j :: (0 <= i < |r| && 0 <= j < |r| && r[i].PageButton? && r[j].PageButton?
            && r[i].selected && r[j].selected) ==> i == j)
      && (0 <= pageIndex < pageCount ==> exists i :: 0 <= i < |r| && r[i].PageButton? && r[i].selected)
  {
    var w := VisiblePages(pageCount, pageIndex);
    WindowShape(pageCount, pageIndex);
    if 0 <= pageIndex < pageCount {
      CurrentPageShown(pageCount, pageIndex);
    }
    ControlButtons(canPreviousPage, canNextPage, w, pageCount, pageIndex);
  }

  lemma ControlButtons(canPreviousPage: bool, canNextPage: bool, w: seq<int>, pageCount: int, pageIndex: int)
    requires forall i :: 0 <= i < |w| && w[i] != Gap ==> 0 <= w[i] < pageCount
    requires forall i, j :: 0 <= i < j < |w| && w[i] != Gap && w[j] != Gap ==> w[i] < w[j]
    requires 0 <= pageIndex < pageCount ==> pageIndex in w
    ensures var r := Controls(canPreviousPage, canNextPage, w, pageIndex);
      && (forall i :: 0 <= i < |r| && r[i].PageButton? ==>
            && r[i].number == r[i].target + 1
            && 0 <= r[i].target < pageCount
            && (r[i].selected <==> r[i].target == pageIndex))
      && (forall i, j :: (0 <= i < |r| && 0 <= j < |r| && r[i].PageButton? && r[j].PageButton?
            && r[i].selected && r[j].selected) ==> i == j)
      && (0 <= pageIndex < pageCount ==> exists i :: 0 <= i < |r| && r[i].PageButton? && r[i].selected)
  {
    var r := Controls(canPreviousPage, canNextPage, w, pageIndex);
    var es := EntryControls(w, pageIndex);
    EntryButtons(w, pageCount, pageIndex);
    assert r == [PrevButton(canPreviousPage)] + es + [NextButton(canNextPage)];
    forall i | 0 <= i < |r| && r[i].PageButton?
      ensures 1 <= i < |r| - 1 && r[i] == es[i - 1]
    {
    }
    forall i, j | 0 <= i < |r| && 0 <= j < |r| && r[i].PageButton? && r[j].PageButton? && r[i].selected && r[j].selected
      ensures i == j
    {
      assert r[i] == es[i - 1] && r[j] == es[j - 1];
    }
    if 0 <= pageIndex < pageCount {
      var k :| 0 <= k < |es| && es[k].PageButton? && es[k].selected;
      assert r[k + 1] == es[k];
    }
  }
}
