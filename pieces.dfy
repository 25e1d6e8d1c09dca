/** The three-valued occupancy of a fork, with the enum's integer values,
    and the Python exceptions that the board and rules engine can raise. */
module Pieces {

  /** The exceptions raised by the modelled code. */
  datatype Error = KeyError | ValueError

  datatype Option<+T> = None | Some(value: T)

  datatype Result<+T> = Ok(value: T) | Err(error: Error)

  /** `Piece` enum: Empty = 0, Red = 1, Black = 2. */
  datatype Piece = Empty | Red | Black {

    /** The integer value carried by the enum member. */
    function Value(): (v: int)
      ensures 0 <= v <= 2
      ensures (v == 0) == Empty?
    {
      match this
      case Empty => 0
      case Red => 1
      case Black => 2
    }
  }

  /** Enum lookup by value, `Piece(v)`: raises ValueError when no member has value `v`. */
  function FromValue(v: int): (r: Result<Piece>)
    ensures r.Ok? <==> 0 <= v <= 2
    ensures r.Ok? ==> r.value.Value() == v
  {
    if v == 0 then Ok(Empty)
    else if v == 1 then Ok(Red)
    else if v == 2 then Ok(Black)
    else Err(ValueError)
  }

  /** Looking a member up by its own value gives the member back. */
  lemma FromValueRoundTrip(p: Piece)
    ensures FromValue(p.Value()) == Ok(p)
  {
  }

  /** `Piece(3 - p.value)`: the other colour; Empty has no opponent (Piece(3) raises). */
  function Opponent(p: Piece): (r: Result<Piece>)
    ensures r.Ok? <==> p != Empty
    ensures r.Ok? ==> r.value != Empty && r.value != p
    ensures r == Err(ValueError) || r == Ok(Red) || r == Ok(Black)
  {
    FromValue(3 - p.Value())
  }

  /** Flipping the turn twice gives back the colour that was to move. */
  lemma OpponentInvolutive(p: Piece)
    requires p != Empty
    ensures Opponent(p).Ok? && Opponent(Opponent(p).value) == Ok(p)
  {
  }
}
