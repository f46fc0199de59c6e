/**
 * The game object: its fields change in place, as in `HideSeekGame`. Every
 * public event method (start, key press, clicks, the computer's move) is
 * proved to leave the fields equal to the corresponding function of module
 * Rules applied to the fields before, and to keep `RoundOk`; the helpers
 * that draw spots and move the target are proved equal to their Rules
 * functions on the fields they change.
 */
module Game {
  import opened Options
  import opened Grid
  import opened PathOracle
  import opened Proximity
  import opened Rules

  /** The weight `computer_move` gives a neighbour: its distance, scaled by 0.8 while Tom is within 3. */
  function Score(steps: nat, tomIsNear: bool): real {
    if tomIsNear then steps as real * 0.8 else steps as real
  }

  /** The common scaling factor never changes which of two distances scores lower. */
  lemma ScoreOrder(a: nat, b: nat, tomIsNear: bool)
    ensures Score(a, tomIsNear) < Score(b, tomIsNear) <==> a < b
  {
  }

  class HideSeekGame {
    const mode: GameMode
    var state: GameState
    var seeker1: Cell
    var seeker2: Cell
    var hidden: Option<Cell>
    var hidingSpots: seq<Cell>
    var stepsRemaining: int
    var winner: Option<Winner>
    var feedback: Option<Feedback>
    var player1MovedTarget: bool
    var player2MovedTarget: bool

    /** The fields as a round value. */
    function View(): Round
      reads this
    {
      Round(state, seeker1, seeker2, hidden, hidingSpots, stepsRemaining, winner, feedback,
            player1MovedTarget, player2MovedTarget)
    }

    ghost predicate Valid()
      reads this
    {
      RoundOk(View())
    }

    /** `__init__`: the menu, seekers home, no target, hiding spots drawn. */
    constructor (mode: GameMode, spotCount: int, cellDraws: seq<Cell>)
      requires SpotDrawsOk(spotCount, cellDraws)
      ensures this.mode == mode
      ensures View() == InitialRound(spotCount, cellDraws)
      ensures Valid()
    {
      this.mode := mode;
      player1MovedTarget := false;
      player2MovedTarget := false;
      state := Menu;
      stepsRemaining := MaxSteps;
      seeker1 := Seeker1Home;
      seeker2 := Seeker2Home;
      hidden := None;
      feedback := None;
      winner := None;
      hidingSpots := [];
      new;
      GenerateHidingSpots(spotCount, cellDraws);
      InitialRoundOk(spotCount, cellDraws);
    }

    /**
     * `generate_hiding_spots`: `count` times, draw cells until one is not yet a
     * spot and append it. `draws` is the stream of random cells.
     */
    method GenerateHidingSpots(count: int, draws: seq<Cell>)
      requires SpotDrawsOk(count, draws)
      modifies this`hidingSpots
      ensures hidingSpots == DrawnSpots(draws, count)
    {
      DedupCount(draws);
      hidingSpots := [];
      var next := 0;
      for k := 0 to count
        invariant next <= |draws| && hidingSpots == Dedup(draws[..next])
        invariant |hidingSpots| == k
      {
        UndrawnRemain(draws, next);
        while draws[next] in hidingSpots
          invariant next < |draws| && hidingSpots == Dedup(draws[..next])
          decreases |draws| - next
        {
          assert draws[..next + 1][..next] == draws[..next];
          next := next + 1;
        }
        assert draws[..next + 1][..next] == draws[..next];
        hidingSpots := hidingSpots + [draws[next]];
        next := next + 1;
      }
      DedupPrefix(draws, next);
    }

    /** `start_game`. */
    method StartGame(deal: Deal)
      requires DealOk(deal)
      modifies this
      ensures View() == FreshRound(deal)
      ensures Valid()
    {
      GenerateHidingSpots(deal.spotCount, deal.cellDraws);
      hidden := Some(hidingSpots[deal.hiddenChoice]);
      seeker1 := Seeker1Home;
      seeker2 := Seeker2Home;
      stepsRemaining := MaxSteps;
      feedback := None;
      winner := None;
      state := Player1Turn;
      player1MovedTarget := false;
      player2MovedTarget := false;
      FreshRoundOk(deal);
    }

    /**
     * `move_target_to_new_location`: draw spots until one differs from the
     * current target (or there is only one spot), move the target there and
     * give the seeker to move its feedback. `choices` are the drawn indices.
     */
    method MoveTargetToNewLocation(choices: seq<nat>)
      requires InBounds(seeker1) && InBounds(seeker2)
      requires hidingSpots != [] ==> ChoicesOk(hidingSpots, hidden, choices)
      requires forall c :: c in hidingSpots ==> InBounds(c)
      modifies this`hidden, this`feedback
      ensures View() == TargetRelocated(old(View()), choices)
    {
      if hidingSpots != [] {
        var newPos := hidingSpots[choices[0]];
        var drawn := 1;
        while Some(newPos) == hidden && |hidingSpots| > 1
          invariant 1 <= drawn <= |choices| && newPos == hidingSpots[choices[drawn - 1]]
          invariant ChoicesOk(hidingSpots, hidden, choices[drawn - 1..])
          invariant Relocated(hidingSpots, hidden, choices[drawn - 1..]) == Relocated(hidingSpots, hidden, choices)
          decreases |choices| - drawn
        {
          assert choices[drawn - 1..][1..] == choices[drawn..];
          newPos := hidingSpots[choices[drawn]];
          drawn := drawn + 1;
        }
        hidden := Some(newPos);
        if state == Player1Turn {
          var distance := AStarDistance(seeker1, newPos);
          feedback := Some(GetFeedback(distance));
        } else if state == Player2Turn {
          var distance := AStarDistance(seeker2, newPos);
          feedback := Some(GetFeedback(distance));
        }
      }
    }

    /** The arrow-key and WASD handlers of `run` for the player `p` to move. */
    method MoveSeeker(p: Player, d: Direction)
      requires Valid() && state == TurnOf(p)
      modifies this
      ensures View() == SeekerMoved(old(View()), p, d)
      ensures Valid()
    {
      ghost var before := View();
      HumanMoveFacts(before, p, d);
      var pos := if p == Player1 then seeker1 else seeker2;
      if CanStep(pos, d) {
        var next := Step(pos, d);
        if p == Player1 {
          seeker1 := next;
        } else {
          seeker2 := next;
        }
        stepsRemaining := stepsRemaining - 1;
        if next == hidden.value {
          winner := Some(HumanWinner(p));
          state := GameOver;
        } else {
          var distance := AStarDistance(next, hidden.value);
          feedback := Some(GetFeedback(distance));
          state := TurnOf(Other(p));
        }
      }
    }

    /** `computer_move`. `choices` feed the relocation, when the reflex fires. */
    method ComputerMove(choices: seq<nat>)
      requires Valid() && state == Player2Turn
      requires ReflexFires(View()) ==> ChoicesOk(hidingSpots, hidden, choices)
      modifies this
      ensures View() == ComputerMoved(old(View()), choices)
      ensures Valid()
    {
      ghost var before := View();
      ComputerMoveFacts(before, choices);
      var target := hidden.value;
      if !player2MovedTarget {
        var computerDistance := AStarDistance(seeker2, target);
        var playerDistance := AStarDistance(seeker1, target);
        if computerDistance.steps > 6 && playerDistance.steps <= 4 {
          MoveTargetToNewLocation(choices);
          player2MovedTarget := true;
          state := Player1Turn;
          return;
        }
      }
      var bestMove := ChooseStep(seeker2, target, seeker1);
      match bestMove {
        case Some(next) =>
          seeker2 := next;
          if next == target {
            winner := Some(Computer);
            state := GameOver;
          } else {
            state := Player1Turn;
          }
        case None =>
      }
    }

    /**
     * The neighbour loop of `computer_move`: score each in-bounds neighbour by
     * its distance to the target (times 0.8 while Tom, on `tom`, is within 3 of
     * it) and keep the first of least score.
     */
    static method ChooseStep(from: Cell, target: Cell, tom: Cell) returns (bestMove: Option<Cell>)
      requires InBounds(target) && InBounds(tom)
      ensures bestMove == GreedyStep(from, target)
    {
      bestMove := None;
      var bestScore: real := 0.0;
      for i := 0 to |Directions|
        invariant FirstClosest(from, target, i, bestMove)
        invariant GreedyScan(from, target, i, bestMove) == GreedyStep(from, target)
        invariant bestMove.Some? ==> bestScore == Score(Manhattan(bestMove.value, target), Manhattan(tom, target) <= 3)
      {
        var neighbour := Step(from, Directions[i]);
        if InBounds(neighbour) {
          var distance := AStarDistance(neighbour, target);
          var playerDistance := AStarDistance(tom, target);
          var tomIsNear := playerDistance.steps <= 3;
          var score := Score(distance.steps, tomIsNear);
          ScoreOrder(distance.steps, if bestMove.Some? then Manhattan(bestMove.value, target) else 0, tomIsNear);
          if bestMove.None? || score < bestScore {
            bestScore := score;
            bestMove := Some(neighbour);
          }
        }
      }
    }

    /** A key press, as `run` dispatches it. */
    method KeyDown(key: Key, deal: Deal)
      requires Valid()
      requires state == Menu || state == GameOver ==> DealOk(deal)
      modifies this
      ensures View() == KeyPressed(old(View()), mode, key, deal)
      ensures Valid()
    {
      if state == Menu || state == GameOver {
        StartGame(deal);
      } else if state == Player1Turn {
        match ArrowDirection(key) {
          case Some(d) => MoveSeeker(Player1, d);
          case None =>
        }
      } else if state == Player2Turn && mode == PlayerVsPlayer {
        match LetterDirection(key) {
          case Some(d) => MoveSeeker(Player2, d);
          case None =>
        }
      }
    }

    /** A click on "Next Round". */
    method ClickNextRound(deal: Deal)
      requires Valid()
      requires state == GameOver ==> DealOk(deal)
      modifies this
      ensures View() == NextRoundClicked(old(View()), deal)
      ensures Valid()
    {
      if state == GameOver {
        StartGame(deal);
      }
    }

    /** A click on "Move Target". */
    method ClickMoveTarget(choices: seq<nat>)
      requires Valid()
      requires state == Player1Turn || state == Player2Turn ==> ChoicesOk(hidingSpots, hidden, choices)
      modifies this
      ensures View() == MoveTargetClicked(old(View()), mode, choices)
      ensures Valid()
    {
      ghost var before := View();
      if state == Player1Turn && !player1MovedTarget {
        RelocationUsesAllowance(before, mode, choices);
        MoveTargetToNewLocation(choices);
        player1MovedTarget := true;
        state := Player2Turn;
      } else if state == Player2Turn && !player2MovedTarget && mode == PlayerVsPlayer {
        RelocationUsesAllowance(before, mode, choices);
        MoveTargetToNewLocation(choices);
        player2MovedTarget := true;
        state := Player1Turn;
      }
    }

    /** The frame step in which the computer takes Spike's turn. */
    method ComputerTick(choices: seq<nat>)
      requires Valid()
      requires state == Player2Turn && ReflexFires(View()) ==> ChoicesOk(hidingSpots, hidden, choices)
      modifies this
      ensures View() == ComputerTurn(old(View()), mode, choices)
      ensures Valid()
    {
      if state == Player2Turn && mode == PlayerVsComputer {
        ComputerMove(choices);
      }
    }
  }
}
