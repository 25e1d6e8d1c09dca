# Board and rules engine of a two-colour token game

This project models the board and the rules engine of a two-colour
token-movement game. Red and Black pieces sit on the cells ("forks") of a
graph-shaped board. Players take turns moving one piece to an empty adjacent
fork. The game ends as soon as some occupied fork has no empty neighbour, and
the colour opposite to that piece wins.

The model has four modules, one per source component:

- `Pieces` (`pieces.dfy`), from the `Piece` enum (Empty = 0, Red = 1,
  Black = 2). It also models enum lookup by value, `Piece(v)`, and the
  opponent formula `Piece(3 - value)`. Python exceptions become a `Result`
  carrying `KeyError` or `ValueError`.
- `Graphs` (`graph.dfy`), from the sparse undirected graph. Class
  `Graph` keeps the two dictionaries of the source, keyed by vertex index:
  - `status` is `vertex_list`, holding each vertex's status;
  - `adj` is `adj_list`, holding the ordered neighbour lists;
  - `order` is the insertion order that both dictionaries share.

  Each in-place method is specified by a pure function on these values
  (`AddEdgeAdj`, `RemoveEdgeSpec`, `RemoveVertexAdj`). The properties of each
  operation are lemmas about that function.
- `Boards` (`board.dfy`), from `Board.__init__`. The constructor is written
  out as a sequence of `add_edge` calls (`BoardEdges`) applied to `Graph(4n)`.
  The method `NewBoard` builds the board imperatively and is proved to give
  exactly that adjacency. Lemmas then give:
  - the exact edge set;
  - symmetry, closure and absence of duplicates;
  - the `i -- i+1` chain and connectivity;
  - three distinct neighbours for every fork when `n >= 3`.
- `Game` (`game.dfy`), from `Player` and `State`. It has the legality
  function, the in-place move, the termination scan with its specification
  `FirstBlockedAt`, and colour counts.

Vertices are identified by their index. In the source, the adjacency
dictionary is keyed by `Vertex` objects and statuses change through those
shared objects. Here a status change is an update of `status` at that index.

Some behaviour of the code is modelled as written:

- `add_edge(a, b)` with `a` present and `b` absent appends `b` to `a`'s list
  before the lookup of `b` raises. The lemma `AddEdgeDangling` shows that this
  leaves a neighbour entry that names no vertex.
- `remove_edge` can likewise fail after its first removal. A self-loop is one
  example: the second `list.remove` finds nothing left to remove.
- `Board(n)` with `n < 1` raises `KeyError`. At that point the graph is empty
  and the first closure looks up fork `n - 1`.
- `Piece(3 - Empty.value)` raises `ValueError`. So when Empty is to move, a
  valid move rewrites two Empty forks as Empty and then raises. In the same
  situation, `update_winner` raises when it finds a blocked fork.

Three facts about the code are worth stating plainly:

- Move legality is exactly the three conditions of `valid_move`. There is no
  history argument and no check against repeated positions.
- For `n >= 3` every fork of `Board(n)` has three neighbours. This includes
  the ring-closure forks `n-1`, `n`, `3n-1`, `3n` and `4n-1`, because the
  chain edges `n-1 -- n` and `3n-1 -- 3n` cross ring boundaries.
- `Board(n)` is built for every `n >= 1`.

## Model

| member | source | states |
|---|---|---|
| `Pieces.FromValue` | constants.py:4-12 | enum lookup succeeds exactly for 0, 1, 2 and returns the member with that value; otherwise ValueError |
| `Pieces.FromValueRoundTrip` | constants.py:10-12 | looking a member up by its own value gives that member back |
| `Pieces.Opponent` | Game.py:83 | `Piece(3 - value)` fails (ValueError) exactly for Empty; otherwise it is the other colour, never Empty |
| `Pieces.OpponentInvolutive` | Game.py:106 | flipping the turn twice restores the colour to move |
| `Game.Player.OpponentPiece` | Game.py:24-25 | a player's opponent colour exists exactly when the player has a colour, and differs from it |
| `Graphs.Graph.constructor` | Graph.py:40-49 | `Graph(n)` holds exactly vertices `0..n-1`, inserted in index order, each Empty with an empty neighbour list |
| `Graphs.Graph.AddVertex` | Graph.py:86-94 | an absent index gets its status and an empty list, appended to the order; a present index leaves the graph unchanged |
| `Graphs.Graph.GetVertex` | Graph.py:53-70 | KeyError exactly when the index is absent; otherwise the vertex with that index and its status |
| `Graphs.Graph.Siblings` | Graph.py:73-82 | KeyError when the index is absent; otherwise that vertex's neighbour list |
| `Graphs.Graph.SetStatus` | Graph.py:25-26 | only the status of that vertex changes |
| `Graphs.Graph.AddEdge` | Graph.py:96-106 | succeeds exactly when both endpoints are vertices; the new adjacency is `AddEdgeAdj`, and statuses and order are unchanged |
| `Graphs.AddEdgeContents` | Graph.py:103-106 | afterwards each list holds what it held plus, for the endpoints, the other endpoint and nothing else new |
| `Graphs.AddEdgeOnlyAppends` | Graph.py:103-106 | each list keeps its old contents as a prefix and grows by at most one entry; lists of other vertices are unchanged |
| `Graphs.AddEdgeIdempotent` | Graph.py:103-106 | adding the same edge twice has the effect of adding it once |
| `Graphs.AddEdgeKeepsDistinct` | Graph.py:103-106 | `add_edge` never creates a duplicate entry |
| `Graphs.AddEdgeKeepsSymmetric` | Graph.py:103-106 | between two vertices, `add_edge` keeps adjacency symmetric and closed |
| `Graphs.AddEdgeDangling` | Graph.py:103-106 | with only the first endpoint present, the raised call leaves an entry naming no vertex |
| `Graphs.IndexOf` | Graph.py:118 | `list.index` returns the position of the first occurrence |
| `Graphs.RemoveFirstFacts` | Graph.py:129-130 | `list.remove` takes one copy out and keeps the rest (as a multiset); on a duplicate-free list nothing of it is left |
| `Graphs.Graph.RemoveEdge` | Graph.py:122-130 | the outcome and the new adjacency are `RemoveEdgeSpec`, with KeyError or ValueError after any partial removal |
| `Graphs.RemoveEdgeSucceeds` | Graph.py:129-130 | on a symmetric duplicate-free graph, success exactly for two distinct adjacent vertices, after which neither endpoint lists the other and other lists are unchanged |
| `Graphs.RemoveEdgeKeepsSymmetric` | Graph.py:129-130 | whatever its outcome, `remove_edge` keeps symmetry and absence of duplicates |
| `Graphs.RemoveFirst` | Graph.py:118 | `list.pop(list.index(x))` shortens the list by exactly one |
| `Graphs.RemoveFirstShape` | Graph.py:118 | the entries before the first `x` stay in place and those after it move down by one |
| `Graphs.Strip` | Graph.py:117-118 | a list holding `i` loses one entry, and a list without `i` keeps its length |
| `Graphs.StripFacts` | Graph.py:117-118 | on a duplicate-free list, the result is duplicate-free and holds exactly the old entries other than `i` |
| `Graphs.Graph.StripLists` | Graph.py:116-118 | the loop over the dictionary leaves every list as `Strip` of its old value, keeps the keys, and changes neither statuses nor order |
| `Graphs.Graph.RemoveVertex` | Graph.py:110-120 | KeyError with no change when absent; otherwise the index leaves both dictionaries and the order, and is taken out of every list |
| `Graphs.RemoveVertexForgets` | Graph.py:116-120 | afterwards the index is no vertex and no remaining list mentions it; symmetry is preserved |
| `Boards.AddStep` | Game.py:38-48 | on `Graph(4n)`, iteration `i` adds the chain edge `i -- i+1` and then the spoke from `i`, if any, so that iterations `0 .. i-1` become iterations `0 .. i` |
| `Boards.AddSpoke` | Game.py:43-48 | forks `i < n-1` get the spoke to `n+2+2i`, and forks `n+1, n+3, .. < 3n-1` the spoke to `3n+1+(i-n-1)/2`; other forks get none. Every spoke's far end is a fork of `Graph(4n)`, so its lookup succeeds |
| `Boards.AddLoop` | Game.py:38-48 | on a graph holding forks `0 .. 4n-1`, the loop applies the `add_edge` calls of iterations `0 .. 4n-2`, in order |
| `Boards.AddForkEdge` | Game.py:39-41 | between two forks of `Graph(4n)` both `get_vertex` lookups succeed and `add_edge` adds the edge; the forks stay vertices |
| `Boards.AddClosures` | Game.py:50-52 | outcome and adjacency are `ClosuresSpec`: the three closures in order, each raising KeyError from its lookups before it changes anything, with earlier closures kept |
| `Boards.ClosuresSpecOutcome` | Game.py:50-52 | the closures succeed exactly when their six forks are vertices and then add all three edges; a graph without fork `n-1` or `0` is left unchanged |
| `Boards.LookUpAndAddEdge` | Game.py:50-52 | `add_edge(get_vertex(a), get_vertex(b))` raises KeyError with nothing changed when either fork is missing, and otherwise adds the edge |
| `Boards.NewBoard` | Game.py:35-52 | `Board(n)` raises KeyError exactly when `n < 1`; otherwise it has forks `0..4n-1` in index order, all Empty, with adjacency `BoardAdj(n)` |
| `Boards.LoopEdgesMembers` | Game.py:38-48 | the loop calls `add_edge(a, b)` exactly for the chain edges and spokes whose first endpoint is an iteration index |
| `Boards.BoardEdgesMembers` | Game.py:38-52 | the constructor calls `add_edge` for exactly the chain edges, the two spoke families and the three closures |
| `Boards.ApplyContents` | Graph.py:103-106 | after a sequence of `add_edge` calls between vertices, a list holds `j` exactly when some call joined its vertex to `j` or the list already held it |
| `Boards.ApplyKeepsDistinct` | Graph.py:103-106 | a sequence of `add_edge` calls never creates a duplicate entry |
| `Boards.BoardAdjacency` | Game.py:36-52 | the board has exactly the forks `0..4n-1`, and fork `k` lists `j` exactly when an edge of the board joins them, in either direction |
| `Boards.BoardSymmetric` | Game.py:38-52 | the board's adjacency is symmetric, closed and duplicate-free |
| `Boards.BoardChain` | Game.py:38-41 | forks `i` and `i+1` are adjacent for every `i < 4n-1`, including `n-1 -- n` and `3n-1 -- 3n` |
| `Boards.BoardConnected` | Game.py:38-41 | every two forks are joined by a walk along the board's edges |
| `Boards.NeighboursExact` | Game.py:38-52 | for `n >= 3`, an edge of the board joins fork `k` to `j` exactly when `j` is one of the three forks listed for `k`'s region in `Neighbours` |
| `Boards.BoardDegreeThree` | Game.py:38-52 | for `n >= 3` every fork has exactly three distinct neighbours, which are the ones listed region by region in `Neighbours` |
| `Game.State.constructor` | Game.py:71-74 | the state holds the given board, the player's colour is to move, and there is no winner. It requires every listed neighbour to be a vertex, because here a neighbour's status is looked up by index, whereas the source's lists hold `Vertex` objects that carry their own status; `BoardSymmetric` gives this for every board |
| `Game.State.OpponentPiece` | Game.py:82-83 | the opponent of the colour to move exists exactly when a colour is to move, and differs from it |
| `Game.State.ValidMove` | Game.py:111-116 | KeyError when either fork is missing; otherwise true exactly when `m` is a neighbour of `c`, `c` holds the colour to move and `m` is Empty; a valid move with a colour to move never stays in place |
| `Game.State.Move` | Game.py:101-108 | succeeds exactly on a valid move with a colour to move. Then `m` holds the mover's colour, `c` is Empty, every other fork and the topology are unchanged, the turn flips and every colour count is kept. Otherwise it raises and neither the board nor the turn changes |
| `Game.MoveKeepsCounts` | Game.py:104-105 | moving a piece onto an Empty fork keeps the number of forks of every colour |
| `Game.CountOfUpdate` | Game.py:104-105 | rewriting one fork moves one unit of count from its old colour to its new one |
| `Game.Blocked` | Game.py:92 | the scan's test holds exactly when the fork is occupied and every entry of its neighbour list is occupied |
| `Game.BlockedMeans` | Game.py:92 | the scan's test holds exactly when the fork is occupied and every neighbour is occupied |
| `Game.FirstBlockedAt` | Game.py:91-92 | the position found is the first in board order whose fork is blocked; none is found exactly when no fork is blocked |
| `Game.WinnerFor` | Game.py:97 | the winner expression is the opposite colour of the blocked fork's occupant |
| `Game.State.UpdateWinner` | Game.py:88-98 | at the first blocked fork in board order, the winner becomes the opposite colour of its occupant (ValueError instead when Empty is to move); with no blocked fork the winner is untouched; board and turn never change |
| `Game.FreshBoardHasNoWinner` | Game.py:36 | on a freshly built board no fork is blocked, so the scan decides nothing |

## Left out

- `Vertex.set_index` (Graph.py:22-23) is not modelled. The index is the vertex's identity here, and renaming a stored vertex would desynchronise the dictionary keys in the source.
- The `type(index) != int` test of `get_vertex` (Graph.py:66-67) is not modelled, because indices are typed integers here. The truthiness test at Graph.py:68 is modelled as a test for absence, since a `Vertex` object is always truthy.
- Passing `add_edge` or `remove_edge` a `Vertex` object that is not the one stored in the graph is not modelled, because vertices are identified by index.
- The plain getters are not modelled as separate members, since each only returns a field: `get_index`, `get_status`, `get_fork`, `get_forks`, `get_paths`, `get_board`, `get_player_piece`, `get_winner`, `get_name`.
- The `__repr__` methods are not modelled, because they only format text.
- The default player name `f"Player-{index}"` (Game.py:13-16) is not modelled, because it is display text only. `Player` carries whatever name it is given.
- The shared default argument `board=Board(5)` of `State.__init__` (Game.py:71) is not modelled. Every `State` is given its board explicitly.
- The default arguments `Graph(num_vertices=0)` (Graph.py:40), `Board(outer_length=5)` (Game.py:35) and `Vertex(status=Piece.Empty)` (Graph.py:8) are not modelled as defaults. Each becomes a parameter that every caller passes, which loses no behaviour.
- The debug `print` calls inside `update_winner` (Game.py:93-96) are left out, because they are console output.
- `Bound`, `play` and `game_loop` (Game.py:122-147) are left out. They are driven by `input()` and `print`.
- The rendering component (Interface.py), the console prompts (main.py, utils.py) and the CSV result storage (tests.py) are not part of this model.
- The Monte-Carlo tree search in mcts.py is not part of this model. As written it cannot run: it uses undefined names and calls `State` methods that do not exist.
- History-based anti-repetition and minimax search are not part of this model. The modelled code contains neither.
