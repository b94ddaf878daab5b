/** Runs as sequences of states. */
module Runs {

  function LastState<S>(run: seq<S>): S
    requires run != []
  {
    run[|run| - 1]
  }
}
