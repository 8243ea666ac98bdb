/** The part of a selection list that render_frame draws, render.c. */
module SelectionWindow {
  const MAX_VISIBLE := 8

  /** Computes the first row and the number of rows. For every selection that the key and message handlers
      can leave behind, the rows lie in the list, there are as many as fit, and a valid selection is among
      them, in the middle unless the list ends there; without a selection the window is at the top. */
  method Window(count: nat, sel: int) returns (start: int, rows: int)
    requires -1 <= sel && (sel < count || sel <= 0)
    ensures rows == if count < 8 then count else 8
    ensures 0 <= start && start + rows <= count
    ensures 0 <= sel < count ==> start <= sel < start + rows
    ensures 0 <= sel < count && start > 0 ==> sel - start >= 4
    ensures 0 <= sel < count && start + rows < count ==> sel - start <= 4
    ensures sel < 0 ==> start == 0
  {
    rows := if count < MAX_VISIBLE then count else MAX_VISIBLE;
    start := 0;
    if count > MAX_VISIBLE && sel >= 0 {
      start := sel - MAX_VISIBLE / 2;
      if start < 0 {
        start := 0;
      } else if start + MAX_VISIBLE > count {
        start := count - MAX_VISIBLE;
      }
    }
  }

  /** The drawing loops read one entry per row. */
  method VisibleRows<T>(entries: seq<T>, sel: int) returns (shown: seq<T>, start: nat)
    requires -1 <= sel && (sel < |entries| || sel <= 0)
    ensures |shown| == if |entries| < 8 then |entries| else 8
    ensures start + |shown| <= |entries| && shown == entries[start..start + |shown|]
    ensures 0 <= sel < |entries| ==> start <= sel < start + |shown| && shown[sel - start] == entries[sel]
  {
    var first, rows := Window(|entries|, sel);
    start, shown := first, [];
    for vi := 0 to rows
      invariant shown == entries[start..start + vi]
    {
      shown := shown + [entries[start + vi]];
    }
  }
}
