/**
 * The round of hide and seek as a value, and each event of the game as a
 * function from the round before to the round after. The class in game.dfy
 * updates its fields in place and is proved to agree with these functions;
 * the lemmas here state what the game promises about them.
 */
module Rules {
  import opened Options
  import opened Grid
  import opened PathOracle
  import opened Proximity

  const MaxSteps: int := 15
  const MinSpots: int := 8
  const MaxSpots: int := 12
  const Seeker1Home: Cell := Cell(0, 0)
  const Seeker2Home: Cell := Cell(7, 7)

  datatype GameState = Menu | Player1Turn | Player2Turn | GameOver

  datatype GameMode = PlayerVsComputer | PlayerVsPlayer

  /** The three winner texts: "Tom (Player 1)", "Spike (Player 2)" and "Computer". */
  datatype Winner = Tom | Spike | Computer

  datatype Player = Player1 | Player2

  /** The keys the game reacts to; every other key is `OtherKey`. */
  datatype Key = ArrowUp | ArrowDown | ArrowLeft | ArrowRight | KeyW | KeyA | KeyS | KeyD | OtherKey

  /** The state of the game that the events change. `feedback == None` is the empty feedback text. */
  datatype Round = Round(
    state: GameState,
    seeker1: Cell,
    seeker2: Cell,
    hidden: Option<Cell>,
    hidingSpots: seq<Cell>,
    stepsRemaining: int,
    winner: Option<Winner>,
    feedback: Option<Feedback>,
    player1MovedTarget: bool,
    player2MovedTarget: bool)

  // ---------------------------------------------------------------------------
  // Hiding spots
  // ---------------------------------------------------------------------------

  predicate Distinct(s: seq<Cell>) {
    forall i, j :: 0 <= i < j < |s| ==> s[i] != s[j]
  }

  /** The cells of `s` in order of first appearance. */
  function Dedup(s: seq<Cell>): (r: seq<Cell>)
    ensures Distinct(r)
    ensures forall c :: c in r <==> c in s
  {
    if s == [] then []
    else
      var r := Dedup(s[..|s| - 1]);
      var last := s[|s| - 1];
      assert forall c :: c in s <==> c in s[..|s| - 1] || c == last;
      if last in r then r else r + [last]
  }

  lemma {:induction false} DistinctCard(s: seq<Cell>)
    requires Distinct(s)
    ensures |set c | c in s| == |s|
  {
    if s != [] {
      var init := s[..|s| - 1];
      assert Distinct(init);
      DistinctCard(init);
      assert (set c | c in s) == (set c | c in init) + {s[|s| - 1]};
      assert s[|s| - 1] !in init;
    }
  }

  /** Deduplicating keeps one copy of each distinct cell. */
  lemma DedupCount(s: seq<Cell>)
    ensures |Dedup(s)| == |set c | c in s|
  {
    DistinctCard(Dedup(s));
    assert (set c | c in Dedup(s)) == (set c | c in s);
  }

  /** Deduplicating a prefix gives a prefix of the deduplicated whole. */
  lemma {:induction false} DedupPrefix(s: seq<Cell>, i: nat)
    requires i <= |s|
    ensures Dedup(s[..i]) <= Dedup(s)
    decreases |s|
  {
    if i < |s| {
      DedupPrefix(s[..|s| - 1], i);
      assert s[..|s| - 1][..i] == s[..i];
    } else {
      assert s[..i] == s;
    }
  }

  /** While fewer distinct cells have been seen than the draws hold, draws remain. */
  lemma UndrawnRemain(s: seq<Cell>, i: nat)
    requires i <= |s| && |Dedup(s[..i])| < |set c | c in s|
    ensures i < |s|
  {
    if i == |s| {
      assert s[..i] == s;
      DedupCount(s);
    }
  }

  /** A stream of `random.randint` cells with enough distinct ones for `count` spots. */
  predicate SpotDrawsOk(count: int, draws: seq<Cell>) {
    && MinSpots <= count <= MaxSpots
    && (forall c :: c in draws ==> InBounds(c))
    && count <= |set c | c in draws|
  }

  /** The spots `generate_hiding_spots` keeps: the first `count` distinct cells drawn. */
  function DrawnSpots(draws: seq<Cell>, count: nat): (spots: seq<Cell>)
    requires count <= |set c | c in draws|
    ensures |spots| == count && Distinct(spots)
    ensures forall c :: c in spots ==> c in draws
  {
    DedupCount(draws);
    Dedup(draws)[..count]
  }

  predicate SpotsOk(spots: seq<Cell>) {
    && MinSpots <= |spots| <= MaxSpots
    && Distinct(spots)
    && (forall c :: c in spots ==> InBounds(c))
  }

  // ---------------------------------------------------------------------------
  // The invariant of a round
  // ---------------------------------------------------------------------------

  /** What holds of the game's fields after construction and after every event. */
  predicate RoundOk(r: Round) {
    && SpotsOk(r.hidingSpots)
    && InBounds(r.seeker1) && InBounds(r.seeker2)
    && (r.state != Menu ==> r.hidden.Some?)
    && (r.hidden.Some? ==> r.hidden.value in r.hidingSpots)
    && (r.winner.Some? <==> r.state == GameOver)
    && (r.winner == Some(Tom) ==> r.hidden == Some(r.seeker1))
    && (r.winner == Some(Spike) || r.winner == Some(Computer) ==> r.hidden == Some(r.seeker2))
  }

  // ---------------------------------------------------------------------------
  // New rounds
  // ---------------------------------------------------------------------------

  /** The game as constructed: hiding spots drawn, no target yet, waiting in the menu. */
  function InitialRound(spotCount: int, cellDraws: seq<Cell>): Round
    requires SpotDrawsOk(spotCount, cellDraws)
  {
    Round(Menu, Seeker1Home, Seeker2Home, None, DrawnSpots(cellDraws, spotCount), MaxSteps, None, None, false, false)
  }

  /** The random draws of `start_game`: the spot count, the drawn cells and the index `random.choice` picks. */
  datatype Deal = Deal(spotCount: int, cellDraws: seq<Cell>, hiddenChoice: int)

  predicate DealOk(deal: Deal) {
    && SpotDrawsOk(deal.spotCount, deal.cellDraws)
    && 0 <= deal.hiddenChoice < deal.spotCount
  }

  /** `start_game`: fresh spots, the target among them, seekers home, full steps, nothing used. */
  function FreshRound(deal: Deal): Round
    requires DealOk(deal)
  {
    var spots := DrawnSpots(deal.cellDraws, deal.spotCount);
    Round(Player1Turn, Seeker1Home, Seeker2Home, Some(spots[deal.hiddenChoice]), spots,
          MaxSteps, None, None, false, false)
  }

  lemma InitialRoundOk(spotCount: int, cellDraws: seq<Cell>)
    requires SpotDrawsOk(spotCount, cellDraws)
    ensures RoundOk(InitialRound(spotCount, cellDraws))
  {
  }

  /** A fresh round has 8 to 12 distinct board cells as spots, the target among them, and Tom to move. */
  lemma FreshRoundOk(deal: Deal)
    requires DealOk(deal)
    ensures var r := FreshRound(deal);
      && RoundOk(r)
      && MinSpots <= |r.hidingSpots| <= MaxSpots && Distinct(r.hidingSpots)
      && (forall c :: c in r.hidingSpots ==> InBounds(c) && c in deal.cellDraws)
      && r.hidden.Some? && r.hidden.value in r.hidingSpots
      && r.state == Player1Turn && r.winner == None && r.feedback == None
      && r.seeker1 == Cell(0, 0) && r.seeker2 == Cell(7, 7) && r.stepsRemaining == 15
      && !r.player1MovedTarget && !r.player2MovedTarget
  {
  }

  // ---------------------------------------------------------------------------
  // Human moves
  // ---------------------------------------------------------------------------

  function TurnOf(p: Player): GameState {
    if p == Player1 then Player1Turn else Player2Turn
  }

  function Other(p: Player): Player {
    if p == Player1 then Player2 else Player1
  }

  function SeekerOf(r: Round, p: Player): Cell {
    if p == Player1 then r.seeker1 else r.seeker2
  }

  function WithSeeker(r: Round, p: Player, c: Cell): Round {
    if p == Player1 then r.(seeker1 := c) else r.(seeker2 := c)
  }

  function HumanWinner(p: Player): Winner {
    if p == Player1 then Tom else Spike
  }

  /** Tom moves with the arrow keys. */
  function ArrowDirection(k: Key): Option<Direction> {
    match k
    case ArrowUp => Some(Up)
    case ArrowDown => Some(Down)
    case ArrowLeft => Some(Left)
    case ArrowRight => Some(Right)
    case _ => None
  }

  /** Spike, played by a human, moves with W, S, A and D. */
  function LetterDirection(k: Key): Option<Direction> {
    match k
    case KeyW => Some(Up)
    case KeyS => Some(Down)
    case KeyA => Some(Left)
    case KeyD => Some(Right)
    case _ => None
  }

  /** The feedback a seeker on `seeker` gets for a target on `target` (the search distance is the Manhattan one). */
  function FeedbackAt(seeker: Cell, target: Cell): Feedback {
    GetFeedback(Finite(Manhattan(seeker, target)))
  }

  /** A human seeker's key press in its own turn. */
  function SeekerMoved(r: Round, p: Player, d: Direction): Round
    requires r.hidden.Some?
  {
    var pos := SeekerOf(r, p);
    if !CanStep(pos, d) then r
    else
      var next := Step(pos, d);
      var moved := WithSeeker(r, p, next).(stepsRemaining := r.stepsRemaining - 1);
      if next == r.hidden.value then moved.(winner := Some(HumanWinner(p)), state := GameOver)
      else moved.(feedback := Some(FeedbackAt(next, r.hidden.value)), state := TurnOf(Other(p)))
  }

  /**
   * A human move happens exactly when the destination is on the board; it then
   * costs one step (with no lower bound) and either wins the round or shows the
   * feedback and passes the turn. An off-board move changes nothing.
   */
  lemma HumanMoveFacts(r: Round, p: Player, d: Direction)
    requires RoundOk(r) && r.state == TurnOf(p)
    ensures var r' := SeekerMoved(r, p, d);
      var dest := Step(SeekerOf(r, p), d);
      && RoundOk(r')
      && (!InBounds(dest) ==> r' == r)
      && (InBounds(dest) ==>
            && SeekerOf(r', p) == dest && SeekerOf(r', Other(p)) == SeekerOf(r, Other(p))
            && r'.stepsRemaining == r.stepsRemaining - 1
            && r'.hidden == r.hidden && r'.hidingSpots == r.hidingSpots
            && r'.player1MovedTarget == r.player1MovedTarget && r'.player2MovedTarget == r.player2MovedTarget
            && (r'.state == GameOver <==> r.hidden == Some(dest))
            && (r'.state == GameOver ==> r'.winner == Some(HumanWinner(p)) && r'.feedback == r.feedback)
            && (r'.state != GameOver ==>
                  r'.state == TurnOf(Other(p)) && r'.winner == None &&
                  r'.feedback == Some(FeedbackAt(dest, r.hidden.value))))
  {
  }

  /** `KEYDOWN` in `run`: a new round from the menu or the end screen, otherwise the player to move moves. */
  function KeyPressed(r: Round, mode: GameMode, key: Key, deal: Deal): Round
    requires RoundOk(r)
    requires r.state == Menu || r.state == GameOver ==> DealOk(deal)
  {
    if r.state == Menu || r.state == GameOver then FreshRound(deal)
    else if r.state == Player1Turn then
      match ArrowDirection(key)
      case Some(d) => SeekerMoved(r, Player1, d)
      case None => r
    else if mode == PlayerVsPlayer then
      match LetterDirection(key)
      case Some(d) => SeekerMoved(r, Player2, d)
      case None => r
    else r
  }

  // ---------------------------------------------------------------------------
  // Moving the target
  // ---------------------------------------------------------------------------

  /** The `random.choice` indices are in range, and some index leaves the target's cell when there is another spot. */
  predicate ChoicesOk(spots: seq<Cell>, hidden: Option<Cell>, choices: seq<nat>) {
    && |choices| > 0
    && (forall i :: 0 <= i < |choices| ==> choices[i] < |spots|)
    && (|spots| > 1 ==> exists i :: 0 <= i < |choices| && Some(spots[choices[i]]) != hidden)
  }

  /** The spot the rejection loop of `move_target_to_new_location` settles on. */
  function Relocated(spots: seq<Cell>, hidden: Option<Cell>, choices: seq<nat>): (c: Cell)
    requires ChoicesOk(spots, hidden, choices)
    ensures c in spots
    ensures |spots| > 1 ==> Some(c) != hidden
    decreases |choices|
  {
    var pick := spots[choices[0]];
    if Some(pick) == hidden && |spots| > 1 then
      assert ChoicesOk(spots, hidden, choices[1..]) by {
        var i :| 0 <= i < |choices| && Some(spots[choices[i]]) != hidden;
        assert choices[1..][i - 1] == choices[i];
      }
      Relocated(spots, hidden, choices[1..])
    else pick
  }

  /** `move_target_to_new_location`: a new target spot, and fresh feedback for the seeker whose turn it is. */
  function TargetRelocated(r: Round, choices: seq<nat>): Round
    requires r.hidingSpots != [] ==> ChoicesOk(r.hidingSpots, r.hidden, choices)
  {
    if r.hidingSpots == [] then r
    else
      var h := Relocated(r.hidingSpots, r.hidden, choices);
      r.(hidden := Some(h),
         feedback := if r.state == Player1Turn then Some(FeedbackAt(r.seeker1, h))
                     else if r.state == Player2Turn then Some(FeedbackAt(r.seeker2, h))
                     else r.feedback)
  }

  /**
   * The target moves to a hiding spot other than its old one (there are always
   * several), the seeker to move gets feedback for the new spot, and nothing else changes.
   */
  lemma RelocationFacts(r: Round, choices: seq<nat>)
    requires RoundOk(r) && (r.state == Player1Turn || r.state == Player2Turn)
    requires ChoicesOk(r.hidingSpots, r.hidden, choices)
    ensures var r' := TargetRelocated(r, choices);
      && RoundOk(r')
      && r'.hidden.Some? && r'.hidden.value in r.hidingSpots && r'.hidden != r.hidden
      && r'.feedback == Some(FeedbackAt(SeekerOf(r, if r.state == Player1Turn then Player1 else Player2), r'.hidden.value))
      && r' == r.(hidden := r'.hidden, feedback := r'.feedback)
  {
  }

  /** A click on "Move Target"; the button is drawn for Tom, and for Spike only when Spike is human. */
  function MoveTargetClicked(r: Round, mode: GameMode, choices: seq<nat>): Round
    requires RoundOk(r)
    requires r.state == Player1Turn || r.state == Player2Turn ==> ChoicesOk(r.hidingSpots, r.hidden, choices)
  {
    if r.state == Player1Turn && !r.player1MovedTarget then
      TargetRelocated(r, choices).(player1MovedTarget := true, state := Player2Turn)
    else if r.state == Player2Turn && !r.player2MovedTarget && mode == PlayerVsPlayer then
      TargetRelocated(r, choices).(player2MovedTarget := true, state := Player1Turn)
    else r
  }

  /** Moving the target is allowed once per player per round: a second attempt changes nothing. */
  lemma SecondRelocationIgnored(r: Round, mode: GameMode, choices: seq<nat>)
    requires RoundOk(r)
    requires r.state == Player1Turn || r.state == Player2Turn ==> ChoicesOk(r.hidingSpots, r.hidden, choices)
    requires (r.state == Player1Turn && r.player1MovedTarget) || (r.state == Player2Turn && r.player2MovedTarget)
    ensures MoveTargetClicked(r, mode, choices) == r
  {
  }

  /** A first relocation by the player to move uses up that player's allowance and passes the turn. */
  lemma RelocationUsesAllowance(r: Round, mode: GameMode, choices: seq<nat>)
    requires RoundOk(r) && ChoicesOk(r.hidingSpots, r.hidden, choices)
    requires (r.state == Player1Turn && !r.player1MovedTarget) ||
             (r.state == Player2Turn && !r.player2MovedTarget && mode == PlayerVsPlayer)
    ensures var r' := MoveTargetClicked(r, mode, choices);
      && RoundOk(r')
      && r'.hidden.Some? && r'.hidden != r.hidden && r'.hidden.value in r.hidingSpots
      && (r.state == Player1Turn ==>
            r' == r.(hidden := r'.hidden, feedback := Some(FeedbackAt(r.seeker1, r'.hidden.value)),
                     player1MovedTarget := true, state := Player2Turn))
      && (r.state == Player2Turn ==>
            r' == r.(hidden := r'.hidden, feedback := Some(FeedbackAt(r.seeker2, r'.hidden.value)),
                     player2MovedTarget := true, state := Player1Turn))
  {
    RelocationFacts(r, choices);
  }

  /** A click on "Next Round", shown on the end screen. */
  function NextRoundClicked(r: Round, deal: Deal): Round
    requires r.state == GameOver ==> DealOk(deal)
  {
    if r.state == GameOver then FreshRound(deal) else r
  }

  // ---------------------------------------------------------------------------
  // The computer opponent
  // ---------------------------------------------------------------------------

  /** `n` is at least as close to `target` as every in-bounds neighbour among Directions[..i]. */
  ghost predicate ClosestAmong(from: Cell, target: Cell, n: Cell, i: nat)
    requires i <= |Directions|
  {
    forall j :: 0 <= j < i && InBounds(Step(from, Directions[j])) ==>
      Manhattan(n, target) <= Manhattan(Step(from, Directions[j]), target)
  }

  /** `n` is strictly closer to `target` than every in-bounds neighbour among Directions[..k]. */
  ghost predicate StrictlyCloser(from: Cell, target: Cell, n: Cell, k: nat)
    requires k <= |Directions|
  {
    forall j :: 0 <= j < k && InBounds(Step(from, Directions[j])) ==>
      Manhattan(n, target) < Manhattan(Step(from, Directions[j]), target)
  }

  /** `best` is the first in-bounds neighbour among Directions[..i] closest to `target` (None if there is none). */
  ghost predicate FirstClosest(from: Cell, target: Cell, i: nat, best: Option<Cell>)
    requires i <= |Directions|
  {
    match best
    case None => forall j :: 0 <= j < i ==> !InBounds(Step(from, Directions[j]))
    case Some(n) =>
      && InBounds(n) && ClosestAmong(from, target, n, i)
      && exists k :: 0 <= k < i && n == Step(from, Directions[k]) && StrictlyCloser(from, target, n, k)
  }

  /** Replacing the best only on a strictly smaller distance keeps the first closest neighbour. */
  function ScanStep(from: Cell, target: Cell, i: nat, best: Option<Cell>): (best': Option<Cell>)
    requires i < |Directions| && FirstClosest(from, target, i, best)
    ensures FirstClosest(from, target, i + 1, best')
  {
    var n := Step(from, Directions[i]);
    if InBounds(n) && (best.None? || Manhattan(n, target) < Manhattan(best.value, target)) then
      TakeKeepsFirstClosest(from, target, i, best);
      Some(n)
    else
      SkipKeepsFirstClosest(from, target, i, best);
      best
  }

  lemma TakeKeepsFirstClosest(from: Cell, target: Cell, i: nat, best: Option<Cell>)
    requires i < |Directions| && FirstClosest(from, target, i, best)
    requires var n := Step(from, Directions[i]);
      InBounds(n) && (best.None? || Manhattan(n, target) < Manhattan(best.value, target))
    ensures FirstClosest(from, target, i + 1, Some(Step(from, Directions[i])))
  {
    var n := Step(from, Directions[i]);
    assert StrictlyCloser(from, target, n, i) by {
      forall j | 0 <= j < i && InBounds(Step(from, Directions[j]))
        ensures Manhattan(n, target) < Manhattan(Step(from, Directions[j]), target)
      {
        assert best.Some?;
      }
    }
    assert ClosestAmong(from, target, n, i + 1);
  }

  lemma SkipKeepsFirstClosest(from: Cell, target: Cell, i: nat, best: Option<Cell>)
    requires i < |Directions| && FirstClosest(from, target, i, best)
    requires var n := Step(from, Directions[i]);
      !(InBounds(n) && (best.None? || Manhattan(n, target) < Manhattan(best.value, target)))
    ensures FirstClosest(from, target, i + 1, best)
  {
    if best.Some? {
      var b := best.value;
      var k :| 0 <= k < i && b == Step(from, Directions[k]) && StrictlyCloser(from, target, b, k);
      assert ClosestAmong(from, target, b, i + 1);
      assert 0 <= k < i + 1 && b == Step(from, Directions[k]) && StrictlyCloser(from, target, b, k);
    }
  }

  /** The scan over the remaining directions, as `computer_move`'s loop does it. */
  function GreedyScan(from: Cell, target: Cell, i: nat, best: Option<Cell>): (r: Option<Cell>)
    requires i <= |Directions| && FirstClosest(from, target, i, best)
    ensures FirstClosest(from, target, |Directions|, r)
    decreases |Directions| - i
  {
    if i == |Directions| then best
    else GreedyScan(from, target, i + 1, ScanStep(from, target, i, best))
  }

  /** The computer's step: the first in-bounds neighbour, in Directions order, closest to the target. */
  function GreedyStep(from: Cell, target: Cell): Option<Cell> {
    GreedyScan(from, target, 0, None)
  }

  /**
   * The greedy step always exists from a board cell, is one orthogonal move,
   * minimises the distance to the target over all in-bounds neighbours, and
   * brings the computer one step closer (or one step away, if it already stood on the target).
   */
  lemma GreedyStepIsClosest(from: Cell, target: Cell)
    requires InBounds(from) && InBounds(target)
    ensures GreedyStep(from, target).Some?
    ensures var n := GreedyStep(from, target).value;
      && InBounds(n) && Manhattan(from, n) == 1
      && (forall d: Direction :: InBounds(Step(from, d)) ==> Manhattan(n, target) <= Manhattan(Step(from, d), target))
      && Manhattan(n, target) == (if from == target then 1 else Manhattan(from, target) - 1)
  {
    var r := GreedyStep(from, target);
    assert FirstClosest(from, target, |Directions|, r);
    var some := if from.col < GridSize - 1 then Right else Left;
    assert InBounds(Step(from, Directions[DirIndex(some)]));
    var n := r.value;
    assert Manhattan(from, n) == 1;
    forall d: Direction | InBounds(Step(from, d))
      ensures Manhattan(n, target) <= Manhattan(Step(from, d), target)
    {
      assert Step(from, d) == Step(from, Directions[DirIndex(d)]);
    }
    if from != target {
      var t := TowardDir(from, target);
      assert Manhattan(n, target) <= Manhattan(Step(from, t), target);
    }
  }

  /** The relocate-target reflex: unused, the computer is far (> 6) and Tom is close (<= 4). */
  predicate ReflexFires(r: Round)
    requires r.hidden.Some?
  {
    !r.player2MovedTarget && Manhattan(r.seeker2, r.hidden.value) > 6 && Manhattan(r.seeker1, r.hidden.value) <= 4
  }

  /** `computer_move`. */
  function ComputerMoved(r: Round, choices: seq<nat>): Round
    requires RoundOk(r) && r.hidden.Some?
    requires ReflexFires(r) ==> ChoicesOk(r.hidingSpots, r.hidden, choices)
  {
    if ReflexFires(r) then
      TargetRelocated(r, choices).(player2MovedTarget := true, state := Player1Turn)
    else
      match GreedyStep(r.seeker2, r.hidden.value)
      case None => r
      case Some(next) =>
        if next == r.hidden.value then r.(seeker2 := next, winner := Some(Computer), state := GameOver)
        else r.(seeker2 := next, state := Player1Turn)
  }

  /**
   * The computer either spends its relocation (the target moves, Spike stays,
   * Tom is to move) or steps to the closest neighbour, one closer to the
   * target, winning exactly when it lands on it.
   */
  lemma ComputerMoveFacts(r: Round, choices: seq<nat>)
    requires RoundOk(r) && r.state == Player2Turn
    requires ReflexFires(r) ==> ChoicesOk(r.hidingSpots, r.hidden, choices)
    ensures var r' := ComputerMoved(r, choices);
      var h := r.hidden.value;
      && RoundOk(r')
      && (ReflexFires(r) ==>
            && r'.hidden.Some? && r'.hidden != r.hidden && r'.hidden.value in r.hidingSpots
            && r' == r.(hidden := r'.hidden, feedback := Some(FeedbackAt(r.seeker2, r'.hidden.value)),
                        player2MovedTarget := true, state := Player1Turn))
      && (!ReflexFires(r) ==>
            && InBounds(r'.seeker2) && Manhattan(r.seeker2, r'.seeker2) == 1
            && Manhattan(r'.seeker2, h) == (if r.seeker2 == h then 1 else Manhattan(r.seeker2, h) - 1)
            && (r'.state == GameOver <==> r'.seeker2 == h)
            && (r'.state == GameOver ==> r'.winner == Some(Computer))
            && (r'.state != GameOver ==> r'.state == Player1Turn)
            && r' == r.(seeker2 := r'.seeker2, winner := r'.winner, state := r'.state))
  {
    GreedyStepIsClosest(r.seeker2, r.hidden.value);
    if ReflexFires(r) {
      RelocationFacts(r, choices);
    }
  }

  /** The computer plays Spike's turn in player-vs-computer mode. */
  function ComputerTurn(r: Round, mode: GameMode, choices: seq<nat>): Round
    requires RoundOk(r)
    requires r.state == Player2Turn && ReflexFires(r) ==> ChoicesOk(r.hidingSpots, r.hidden, choices)
  {
    if r.state == Player2Turn && mode == PlayerVsComputer then ComputerMoved(r, choices) else r
  }

  // ---------------------------------------------------------------------------
  // Whole-game facts
  // ---------------------------------------------------------------------------

  /** A key press keeps the round invariant. */
  lemma KeyPressedKeepsRoundOk(r: Round, mode: GameMode, key: Key, deal: Deal)
    requires RoundOk(r)
    requires r.state == Menu || r.state == GameOver ==> DealOk(deal)
    ensures RoundOk(KeyPressed(r, mode, key, deal))
  {
    if r.state == Menu || r.state == GameOver {
      FreshRoundOk(deal);
    } else if r.state == Player1Turn {
      var d := ArrowDirection(key);
      if d.Some? { HumanMoveFacts(r, Player1, d.value); }
    } else {
      var d := LetterDirection(key);
      if d.Some? { HumanMoveFacts(r, Player2, d.value); }
    }
  }

  /** A click on "Move Target" keeps the round invariant. */
  lemma MoveTargetClickedKeepsRoundOk(r: Round, mode: GameMode, choices: seq<nat>)
    requires RoundOk(r)
    requires r.state == Player1Turn || r.state == Player2Turn ==> ChoicesOk(r.hidingSpots, r.hidden, choices)
    ensures RoundOk(MoveTargetClicked(r, mode, choices))
  {
    if r.state == Player1Turn || r.state == Player2Turn {
      RelocationFacts(r, choices);
    }
  }

  /** A click on "Next Round" keeps the round invariant. */
  lemma NextRoundClickedKeepsRoundOk(r: Round, deal: Deal)
    requires RoundOk(r)
    requires r.state == GameOver ==> DealOk(deal)
    ensures RoundOk(NextRoundClicked(r, deal))
  {
    if r.state == GameOver {
      FreshRoundOk(deal);
    }
  }

  /** The computer's turn keeps the round invariant. */
  lemma ComputerTurnKeepsRoundOk(r: Round, mode: GameMode, choices: seq<nat>)
    requires RoundOk(r)
    requires r.state == Player2Turn && ReflexFires(r) ==> ChoicesOk(r.hidingSpots, r.hidden, choices)
    ensures RoundOk(ComputerTurn(r, mode, choices))
  {
    if r.state == Player2Turn {
      ComputerMoveFacts(r, choices);
    }
  }

  /** Only a new round clears the relocation flags: inside a round no key press, click or computer move resets them. */
  lemma FlagsOnlyResetByNewRound(r: Round, mode: GameMode, key: Key, deal: Deal, choices: seq<nat>)
    requires RoundOk(r) && (r.state == Player1Turn || r.state == Player2Turn)
    requires ChoicesOk(r.hidingSpots, r.hidden, choices)
    ensures var k := KeyPressed(r, mode, key, deal);
      (r.player1MovedTarget ==> k.player1MovedTarget) && (r.player2MovedTarget ==> k.player2MovedTarget)
    ensures var m := MoveTargetClicked(r, mode, choices);
      (r.player1MovedTarget ==> m.player1MovedTarget) && (r.player2MovedTarget ==> m.player2MovedTarget)
    ensures var n := NextRoundClicked(r, deal);
      (r.player1MovedTarget ==> n.player1MovedTarget) && (r.player2MovedTarget ==> n.player2MovedTarget)
    ensures var c := ComputerTurn(r, mode, choices);
      (r.player1MovedTarget ==> c.player1MovedTarget) && (r.player2MovedTarget ==> c.player2MovedTarget)
  {
  }
}
