/** Players and the game state: the board, the colour to move and the winner,
    with the move-legality predicate, the in-place move and the termination scan. */
module Game {
  import opened Pieces
  import opened Graphs
  import opened Boards

  /** A player: an index, a colour and a display name. */
  datatype Player = Player(index: int, piece: Piece, name: string) {

    /** `Player.get_opponent_piece`: `Piece(3 - piece.value)`. */
    function OpponentPiece(): (r: Result<Piece>)
      ensures r.Ok? <==> piece != Empty
      ensures r.Ok? ==> r.value != piece && r.value != Empty
      ensures r.Err? ==> r.error == ValueError
    {
      Opponent(piece)
    }
  }

  // ---------------------------------------------------------------------------
  // The termination scan on values

  /** The statuses of the forks listed in `ns`, in list order. */
  function Statuses(st: map<int, Piece>, ns: seq<int>): (r: seq<Piece>)
    requires forall t :: 0 <= t < |ns| ==> ns[t] in st
    ensures |r| == |ns| && forall t :: 0 <= t < |ns| ==> r[t] == st[ns[t]]
  {
    seq(|ns|, t requires 0 <= t < |ns| => st[ns[t]])
  }

  /** Statuses and adjacency have the same forks, and every listed neighbour is a fork. */
  predicate Consistent(st: map<int, Piece>, adj: Adjacency) {
    st.Keys == adj.Keys && Closed(adj)
  }

  /** The test of the scan: no neighbour of `k` is Empty and `k` is occupied. */
  predicate Blocked(st: map<int, Piece>, adj: Adjacency, k: int)
    requires Consistent(st, adj) && k in adj
    ensures Blocked(st, adj, k) <==>
      st[k] != Empty && forall t :: 0 <= t < |adj[k]| ==> st[adj[k][t]] != Empty
  {
    Empty !in Statuses(st, adj[k]) && st[k] != Empty
  }

  /** A fork is blocked exactly when it holds a piece and every one of its
      neighbours holds a piece. */
  lemma BlockedMeans(st: map<int, Piece>, adj: Adjacency, k: int)
    requires Consistent(st, adj) && k in adj
    ensures Blocked(st, adj, k) <==> st[k] != Empty && forall j :: j in adj[k] ==> st[j] != Empty
  {
    var sts := Statuses(st, adj[k]);
    if Empty in sts {
      var t :| 0 <= t < |sts| && sts[t] == Empty;
      var j := adj[k][t];
      assert j in adj[k] && st[j] == Empty;
      assert !Blocked(st, adj, k);
    } else {
      forall j | j in adj[k] ensures st[j] != Empty {
        var t :| 0 <= t < |adj[k]| && adj[k][t] == j;
        assert sts[t] == st[j];
      }
    }
  }

  /** The position in `ks` of the first blocked fork, if any. */
  function FirstBlockedAt(st: map<int, Piece>, adj: Adjacency, ks: seq<int>): (r: Option<nat>)
    requires Consistent(st, adj)
    requires forall t :: 0 <= t < |ks| ==> ks[t] in adj
    ensures r.Some? ==> r.value < |ks| && Blocked(st, adj, ks[r.value])
    ensures r.Some? ==> forall u :: 0 <= u < r.value ==> !Blocked(st, adj, ks[u])
    ensures r.None? ==> forall u :: 0 <= u < |ks| ==> !Blocked(st, adj, ks[u])
    decreases |ks|
  {
    if ks == [] then None
    else if Blocked(st, adj, ks[0]) then Some(0)
    else match FirstBlockedAt(st, adj, ks[1..])
      case None => None
      case Some(i) => Some(i + 1)
  }

  /** The winner expression of the scan, `mover if opponent(mover) == s else
      opponent(mover)`, for a colour `mover` to move. */
  function WinnerFor(mover: Piece, s: Piece): (r: Piece)
    requires mover != Empty
    ensures s != Empty ==> Opponent(s) == Ok(r)
  {
    var opp := Opponent(mover).value;
    if opp == s then mover else opp
  }

  /** On a freshly built board every fork is Empty, so the scan finds nothing
      and the winner stays unset. */
  lemma FreshBoardHasNoWinner(n: int)
    requires n >= 1
    ensures Consistent(EmptyStatus(n * 4), BoardAdj(n))
    ensures FirstBlockedAt(EmptyStatus(n * 4), BoardAdj(n), Indices(n * 4)) == None
  {
    BoardSymmetric(n);
    forall t | 0 <= t < |Indices(n * 4)| ensures Indices(n * 4)[t] in BoardAdj(n) {
      BoardAdjacency(n, t, 0);
    }
  }

  // ---------------------------------------------------------------------------
  // Colour counts

  /** The number of forks in `ks` holding `p`. */
  function CountOf(ks: seq<int>, st: map<int, Piece>, p: Piece): nat
    decreases |ks|
  {
    if ks == [] then 0
    else (if ks[0] in st && st[ks[0]] == p then 1 else 0) + CountOf(ks[1..], st, p)
  }

  /** Rewriting the status of one fork listed once changes its old colour's
      count by minus one and the new colour's by plus one. */
  lemma {:induction false} CountOfUpdate(ks: seq<int>, st: map<int, Piece>, k: int, v: Piece, q: Piece)
    requires Distinct(ks) && k in ks && k in st
    ensures CountOf(ks, st[k := v], q) + (if st[k] == q then 1 else 0)
         == CountOf(ks, st, q) + (if v == q then 1 else 0)
    decreases |ks|
  {
    if ks[0] == k {
      assert k !in ks[1..];
      CountOfUnchanged(ks[1..], st, k, v, q);
    } else {
      assert Distinct(ks[1..]);
      assert k in ks[1..];
      CountOfUpdate(ks[1..], st, k, v, q);
    }
  }

  lemma {:induction false} CountOfUnchanged(ks: seq<int>, st: map<int, Piece>, k: int, v: Piece, q: Piece)
    requires k !in ks
    ensures CountOf(ks, st[k := v], q) == CountOf(ks, st, q)
    decreases |ks|
  {
    if ks != [] {
      CountOfUnchanged(ks[1..], st, k, v, q);
    }
  }

  /** Moving a piece from `c` to the Empty fork `m` preserves the count of every colour. */
  lemma MoveKeepsCounts(ks: seq<int>, st: map<int, Piece>, c: int, m: int, q: Piece)
    requires Distinct(ks) && c in ks && m in ks && c in st && m in st
    requires st[c] != Empty && st[m] == Empty
    ensures CountOf(ks, st[m := st[c]][c := Empty], q) == CountOf(ks, st, q)
  {
    CountOfUpdate(ks, st, m, st[c], q);
    CountOfUpdate(ks, st[m := st[c]], c, Empty, q);
  }

  // ---------------------------------------------------------------------------
  // The in-place state

  class State {
    var board: Graph
    /** The colour to move. */
    var playerPiece: Piece
    var winner: Option<Piece>

    ghost predicate Valid()
      reads this, board
    {
      board.Valid() && Closed(board.adj)
      && (forall t :: 0 <= t < |board.order| ==> board.order[t] in board.adj)
    }

    /** `State(player, board)`: this player's colour moves first, no winner yet. */
    constructor (player: Player, b: Graph)
      requires b.Valid() && Closed(b.adj)
      ensures Valid()
      ensures board == b && playerPiece == player.piece && winner == None
    {
      assert forall t :: 0 <= t < |b.order| ==> b.order[t] in b.order;
      board := b;
      playerPiece := player.piece;
      winner := None;
    }

    /** `State.get_opponent_piece`. */
    function OpponentPiece(): (r: Result<Piece>)
      reads this
      ensures r.Ok? <==> playerPiece != Empty
      ensures r.Ok? ==> r.value != playerPiece && r.value != Empty
      ensures r.Err? ==> r.error == ValueError
    {
      Opponent(playerPiece)
    }

    /** `valid_move(c, m)`: KeyError when either fork is missing; otherwise
        whether `m` is listed as a neighbour of `c`, `c` holds the colour to
        move and `m` is Empty. */
    function ValidMove(c: int, m: int): (r: Result<bool>)
      reads this, board
      requires Valid()
      ensures r.Err? <==> c !in board.status || m !in board.status
      ensures r.Err? ==> r.error == KeyError
      ensures r == Ok(true) <==>
        c in board.status && m in board.status && m in board.adj[c]
        && board.status[c] == playerPiece && board.status[m] == Empty
      ensures r == Ok(true) && playerPiece != Empty ==> c != m
    {
      if c !in board.status || m !in board.status then Err(KeyError)
      else Ok(m in board.adj[c] && board.status[c] == playerPiece && board.status[m] == Empty)
    }

    /** `move(c, m)`: on a valid move the piece goes from `c` to `m` and the turn
        flips; a missing fork raises KeyError and an invalid move ValueError,
        leaving the board and the turn as they were. With Empty to move a valid
        move rewrites two Empty forks as Empty and then fails to flip the turn
        (`Piece(3)` raises ValueError). */
    method Move(c: int, m: int) returns (r: Result<()>)
      requires Valid()
      modifies this, board
      ensures Valid() && board == old(board) && winner == old(winner)
      ensures board.adj == old(board.adj) && board.order == old(board.order)
      ensures r.Ok? <==> old(ValidMove(c, m)) == Ok(true) && old(playerPiece) != Empty
      ensures r == Err(KeyError) <==> old(ValidMove(c, m)).Err?
      ensures r.Err? ==> board.status == old(board.status) && playerPiece == old(playerPiece)
      ensures r.Ok? ==> board.status == old(board.status)[m := old(playerPiece)][c := Empty]
      ensures r.Ok? ==> Opponent(old(playerPiece)) == Ok(playerPiece)
      ensures forall q :: CountOf(board.order, board.status, q) == CountOf(board.order, old(board.status), q)
    {
      var valid := ValidMove(c, m);
      if valid.Err? {
        return Err(KeyError);
      }
      if !valid.value {
        return Err(ValueError);
      }
      var mover := playerPiece;
      ghost var before := board.status;
      board.SetStatus(m, mover);
      board.SetStatus(c, Empty);
      var next := Opponent(mover);
      if next.Err? {
        assert board.status == before;
        return Err(ValueError);
      }
      playerPiece := next.value;
      forall q ensures CountOf(board.order, board.status, q) == CountOf(board.order, before, q) {
        MoveKeepsCounts(board.order, before, c, m, q);
      }
      return Ok(());
    }

    /** `update_winner()`: scans the forks in board order; at the first occupied
        fork without an Empty neighbour the winner becomes the opposite colour
        and the scan stops (raising ValueError instead when Empty is to move);
        without such a fork the winner is left as it was. */
    method UpdateWinner() returns (r: Result<()>)
      requires Valid()
      modifies this
      ensures Valid() && board == old(board) && playerPiece == old(playerPiece)
      ensures var f := FirstBlockedAt(board.status, board.adj, board.order);
        (r.Err? <==> f.Some? && playerPiece == Empty)
        && (r.Err? ==> r.error == ValueError)
        && winner == if f.Some? && playerPiece != Empty
                     then Some(Opponent(board.status[board.order[f.value]]).value)
                     else old(winner)
    {
      var t := 0;
      while t < |board.order|
        invariant 0 <= t <= |board.order|
        invariant board == old(board) && playerPiece == old(playerPiece) && winner == old(winner)
        invariant forall u :: 0 <= u < t ==> !Blocked(board.status, board.adj, board.order[u])
      {
        var k := board.order[t];
        var statuses := Statuses(board.status, board.adj[k]);
        if Empty !in statuses && board.status[k] != Empty {
          var opp := OpponentPiece();
          if opp.Err? {
            return Err(ValueError);
          }
          winner := Some(WinnerFor(playerPiece, board.status[k]));
          return Ok(());
        }
        t := t + 1;
      }
      return Ok(());
    }
  }
}
