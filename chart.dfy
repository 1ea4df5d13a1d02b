/** The layout rule of `UsersController::chart`. */
module Chart {

  /** The chart's column span: the number of children, but never fewer than four columns. */
  function Colspan(childCount: nat): (span: nat)
    ensures span >= 4 && span >= childCount
    ensures span == childCount || span == 4
  {
    if childCount < 4 then 4 else childCount
  }
}
