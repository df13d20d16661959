/**
  Replaying a list of moves against a board (puzzle.js `applyMoves`,
  lines 76-86).  A move that the board layer rejects at the edge of the grid
  is skipped; a board without a blank makes the replay fail, as `moveTile`
  throws.
 */
module Replay {
  import opened Board

  /** Left fold of the moves over the board, skipping blocked moves. */
  function Apply(s: State, ms: seq<Move>): Result<State>
    decreases ms
  {
    if ms == [] then Ok(s)
    else match Step(s, ms[0])
      case Err(e) => Err(e)
      case Ok(None) => Apply(s, ms[1..])
      case Ok(Some(t)) => Apply(t, ms[1..])
  }

  /** One replay step on the outcome so far: a slide, or no change when the move is blocked. */
  function ApplyOne(r: Result<State>, m: Move): Result<State> {
    match r
    case Err(e) => Err(e)
    case Ok(c) =>
      match Step(c, m)
      case Err(e) => Err(e)
      case Ok(None) => Ok(c)
      case Ok(Some(d)) => Ok(d)
  }

  /** Replaying `ms` and then `m` is replaying `ms` followed by one more step. */
  lemma {:induction false} ApplySnoc(s: State, ms: seq<Move>, m: Move)
    ensures Apply(s, ms + [m]) == ApplyOne(Apply(s, ms), m)
    decreases ms
  {
    if ms == [] {
      assert [m][1..] == [];
    } else {
      assert (ms + [m])[1..] == ms[1..] + [m];
      match Step(s, ms[0])
      case Err(_) =>
      case Ok(None) => ApplySnoc(s, ms[1..], m);
      case Ok(Some(t)) => ApplySnoc(t, ms[1..], m);
    }
  }

  /** A replay fails exactly when there is a move to make and the board has no blank. */
  lemma {:induction false} ApplyFailsIff(s: State, ms: seq<Move>)
    ensures Apply(s, ms).Err? <==> ms != [] && 0 !in s
    decreases ms
  {
    if ms != [] {
      match Step(s, ms[0])
      case Err(_) =>
      case Ok(None) => ApplyFailsIff(s, ms[1..]);
      case Ok(Some(t)) =>
        assert 0 in s <==> 0 in multiset(t);
        ApplyFailsIff(t, ms[1..]);
    }
  }

  /** A path whose every move is legal is replayed without skipping and ends where it leads. */
  lemma {:induction false} RunApply(s: State, ms: seq<Move>)
    requires Run(s, ms).Some?
    ensures Apply(s, ms) == Ok(Run(s, ms).value)
    decreases ms
  {
    if ms != [] {
      RunApply(Step(s, ms[0]).value.value, ms[1..]);
    }
  }

  /** Replays `moves` on a copy of `initial` and returns the board reached. */
  method ApplyMoves(initial: State, moves: seq<Move>) returns (r: Result<State>)
    ensures r == Apply(initial, moves)
    ensures moves == [] ==> r == Ok(initial)
  {
    var grid := CloneState(initial);
    var current: State := grid[..];
    for i := 0 to |moves|
      invariant Apply(initial, moves) == Apply(current, moves[i..])
    {
      assert moves[i..][1..] == moves[i + 1..];
      var next := MoveTile(current, moves[i]);
      match next {
        case Err(e) => return Err(e);
        case Ok(None) =>
        case Ok(Some(b)) => current := b;
      }
    }
    assert moves[|moves|..] == [];
    return Ok(current);
  }
}
