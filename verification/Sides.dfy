/** The two sides of a node. */
module Sides {
  datatype Side = L | R

  function Opp(s: Side): Side { if s == L then R else L }
}
