/** The two ends of a channel. */
module Endpoints {

  /** Which of the two derived key sets an end sends with. */
  datatype Role = Initiator | Responder

  /** The ends of a run between two peers. */
  datatype Side = A | B

  function Other(side: Side): (other: Side)
    ensures other != side
  {
    if side == A then B else A
  }
}
