/** The chevron icon (src/components/icons/ExpandIcon.tsx), used to show a row's expansion
    or a column's sort direction. */
module ExpandIcon {
  import opened Common

  datatype Mode = ExpandMode | SortMode
  datatype SortDirection = Asc | Desc

  /** What the icon draws: nothing, or the chevron rotated by `rotation` degrees, with a
      right margin in pixels and an opacity in tenths. */
  datatype IconView = Hidden | Chevron(rotation: int, marginRight: int, opacityTenths: int)

  /** The icon for the props `isExpanded`, `mode` (default expand) and `sortDirection`. */
  function IconFor(isExpanded: bool, mode: Mode, sortDirection: Option<SortDirection>): (r: IconView)
    ensures r.Hidden? <==> mode == SortMode && sortDirection.None?
    ensures mode == ExpandMode ==> r.rotation == (if isExpanded then 90 else 0)
    ensures mode == SortMode && sortDirection == Some(Asc) ==> r.rotation == -90
    ensures mode == SortMode && sortDirection == Some(Desc) ==> r.rotation == 90
    ensures r.Chevron? ==> r.marginRight == (if mode == SortMode then 4 else 8)
    ensures r.Chevron? ==> r.opacityTenths == (if mode == SortMode then 10 else 5)
  {
    var isSortMode := mode == SortMode;
    var isVisible := if isSortMode then sortDirection.Some? else true;
    var rotation :=
      if isSortMode then
        (if sortDirection == Some(Asc) then -90 else if sortDirection == Some(Desc) then 90 else 0)
      else if isExpanded then 90 else 0;
    if isSortMode && !isVisible then Hidden
    else Chevron(rotation, if isSortMode then 4 else 8, if isSortMode && sortDirection.Some? then 10 else 5)
  }

  /** In expand mode the icon is always drawn and a toggle turns it a quarter turn; in sort
      mode the two directions point opposite ways. */
  lemma ExpandIconTurns(sortDirection: Option<SortDirection>)
    ensures IconFor(true, ExpandMode, sortDirection).Chevron? && IconFor(false, ExpandMode, sortDirection).Chevron?
    ensures IconFor(true, ExpandMode, sortDirection).rotation - IconFor(false, ExpandMode, sortDirection).rotation == 90
    ensures IconFor(true, SortMode, Some(Asc)).rotation == -IconFor(true, SortMode, Some(Desc)).rotation != 0
  {
  }

  /** In sort mode, expansion has no effect on the icon. */
  lemma SortModeIgnoresExpansion(sortDirection: Option<SortDirection>)
    ensures IconFor(true, SortMode, sortDirection) == IconFor(false, SortMode, sortDirection)
  {
  }
}
