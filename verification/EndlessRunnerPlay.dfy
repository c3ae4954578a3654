/** What a player of the endless runner meets: when a game is lost, how long a jump or the fuel lasts, what comes. */
module EndlessRunnerPlay {
  import opened Bits
  import opened EndlessRunner

  // When a game is lost.

  /** A tick loses the game exactly when the ball is down after it and an obstacle was at the ball's two places. */
  lemma LosesExactly(g: Game, random: Pattern, held: bool)
    requires Shaped(g) && |random| == BITS && g.screen == Playing
    ensures
      var g1 := UpdateGame(g, random, held);
      if g.wait > 0 then g1 == g.(wait := g.wait - 1)
      else g1.screen == if g1.jump == NOT_JUMPING && (g.pattern[2] || g.pattern[3]) then Lose else Playing
  {
    hide NextPattern;
  }

  /** A ball on the ground stays there, so it loses at the first obstacle it does not jump. */
  lemma GroundLoses(g: Game, random: Pattern, held: bool)
    requires Shaped(g) && |random| == BITS && g.screen == Playing && g.wait == 0 && g.jump == NOT_JUMPING
    ensures UpdateGame(g, random, held).jump == NOT_JUMPING
    ensures UpdateGame(g, random, held).screen == if g.pattern[2] || g.pattern[3] then Lose else Playing
  {
    hide NextPattern;
  }

  // How long a jump lasts.

  /** Ticks one after the other, the button held or not. */
  function Ticks(g: Game, draws: seq<Pattern>, held: bool): (r: Game)
    requires Shaped(g) && forall i :: 0 <= i < |draws| ==> |draws[i]| == BITS
    ensures Shaped(r)
    decreases |draws|
  {
    if draws == [] then g
    else
      UpdateShaped(g, draws[0], held);
      Ticks(UpdateGame(g, draws[0], held), draws[1..], held)
  }

  /** One tick of the ball, without the obstacles. */
  lemma BallMoves(g: Game, random: Pattern, held: bool)
    requires Shaped(g) && |random| == BITS && g.wait == 0
    ensures
      var g1 := UpdateGame(g, random, held);
      && g1.wait == 0 && g1.difficulty == g.difficulty && g1.fuelMode == g.fuelMode
      && g1.jump == MoveBall(g, held).jump && g1.fuel == MoveBall(g, held).fuel
  {
    hide DisplayObstacles, MoveBall;
    ShownKeeps(g, random);
    SameBall(g, DisplayObstacles(g, random), held);
  }

  /** The ball moves by its own state and the button alone. */
  lemma SameBall(g: Game, h: Game, held: bool)
    requires h.difficulty == g.difficulty && h.fuelMode == g.fuelMode && h.jump == g.jump && h.fuel == g.fuel
    ensures var h1 := MoveBall(h, held);
      && h1.wait == h.wait && h1.difficulty == h.difficulty && h1.fuelMode == h.fuelMode
      && h1.jump == MoveBall(g, held).jump && h1.fuel == MoveBall(g, held).fuel
  {
    hide MoveBall, NextJump, NextFuel;
    BallKeeps(h, held);
    BallIs(g, held);
    BallIs(h, held);
    SameNext(g, h, held);
  }

  /** The jump after a frame: up on the ground only by a press, down after its frames, without fuel, or when let go. */
  function NextJump(g: Game, held: bool): nat {
    if g.jump == NOT_JUMPING || g.jump == JUMPING_FINAL_FRAME || (g.fuelMode && !held) then NOT_JUMPING
    else if g.fuelMode then (if g.fuel == 0 then JUMPING_FINAL_FRAME else g.jump)
    else if g.jump >= (if g.difficulty >= NORM then 3 else 4) then JUMPING_FINAL_FRAME
    else g.jump + 1
  }

  /** The fuel after a frame. */
  function NextFuel(g: Game): nat {
    if !g.fuelMode || g.jump == JUMPING_FINAL_FRAME then g.fuel
    else if g.jump == NOT_JUMPING then Recharged(g.fuel, g.difficulty, RECHARGE)
    else if g.fuel == 0 then 0
    else g.fuel - 1
  }

  lemma BallIs(g: Game, held: bool)
    ensures MoveBall(g, held).jump == NextJump(g, held) && MoveBall(g, held).fuel == NextFuel(g)
  {
    hide Recharged;
  }

  lemma SameNext(g: Game, h: Game, held: bool)
    requires h.difficulty == g.difficulty && h.fuelMode == g.fuelMode && h.jump == g.jump && h.fuel == g.fuel
    ensures NextJump(h, held) == NextJump(g, held) && NextFuel(h) == NextFuel(g)
  {
    hide Recharged;
  }

  lemma BallKeeps(h: Game, held: bool)
    ensures var h1 := MoveBall(h, held);
      h1.wait == h.wait && h1.difficulty == h.difficulty && h1.fuelMode == h.fuelMode
  {
    hide Recharged;
  }

  lemma ShownKeeps(g: Game, random: Pattern)
    requires Shaped(g) && |random| == BITS
    ensures var g1 := DisplayObstacles(g, random);
      && g1.wait == g.wait && g1.difficulty == g.difficulty && g1.fuelMode == g.fuelMode
      && g1.jump == g.jump && g1.fuel == g.fuel && g1.screen == g.screen
      && g1.loc2 == g.pattern[2] && g1.loc3 == g.pattern[3]
  {
    hide NextPattern;
  }

  /** The frames a jump from the ground has been under way. */
  function Frames(jump: nat): nat {
    if jump >= JUMPING_START then jump - JUMPING_START else 0
  }

  /**
   Without fuel a jump keeps the ball up for two ticks, on the two easiest levels for three, and at the next tick it is
   down.
   */
  lemma {:induction false} AirTime(g: Game, draws: seq<Pattern>, held: bool)
    requires Shaped(g) && forall i :: 0 <= i < |draws| ==> |draws[i]| == BITS
    requires !g.fuelMode && g.wait == 0 && JUMPING_START <= g.jump
    requires Frames(g.jump) < (if g.difficulty < NORM then 3 else 2)
    ensures
      var left := (if g.difficulty < NORM then 3 else 2) - Frames(g.jump);
      && (1 <= |draws| <= left ==> Ticks(g, draws, held).jump != NOT_JUMPING)
      && (|draws| == left + 1 ==> Ticks(g, draws, held).jump == NOT_JUMPING)
    decreases |draws|
  {
    hide UpdateGame;
    if draws != [] {
      var g1 := UpdateGame(g, draws[0], held);
      UpdateShaped(g, draws[0], held);
      BallMoves(g, draws[0], held);
      if g1.jump == JUMPING_FINAL_FRAME {
        LastTicks(g1, draws[1..], held);
      } else {
        LastTicks(g1, draws[1..], held);
        AirTime(g1, draws[1..], held);
      }
    }
  }

  lemma LastTicks(g: Game, draws: seq<Pattern>, held: bool)
    requires Shaped(g) && forall i :: 0 <= i < |draws| ==> |draws[i]| == BITS
    requires g.wait == 0
    ensures draws == [] ==> Ticks(g, draws, held) == g
    ensures |draws| == 1 && g.jump == JUMPING_FINAL_FRAME ==> Ticks(g, draws, held).jump == NOT_JUMPING
  {
    hide UpdateGame;
    if |draws| == 1 {
      BallMoves(g, draws[0], held);
      assert draws[1..] == [];
    }
  }

  /** With fuel and the button held, the ball stays up for as many ticks as there is fuel, and one more without. */
  lemma {:induction false} FuelFlight(g: Game, draws: seq<Pattern>)
    requires Shaped(g) && forall i :: 0 <= i < |draws| ==> |draws[i]| == BITS
    requires g.fuelMode && g.wait == 0 && g.jump == JUMPING_START
    ensures
      var r := Ticks(g, draws, true);
      && (|draws| <= g.fuel ==> r.jump == JUMPING_START && r.fuel == g.fuel - |draws|)
      && (|draws| == g.fuel + 1 ==> r.jump == JUMPING_FINAL_FRAME && r.fuel == 0)
    decreases |draws|
  {
    hide UpdateGame;
    if draws != [] {
      UpdateShaped(g, draws[0], true);
      BallMoves(g, draws[0], true);
      if g.fuel > 0 {
        FuelFlight(UpdateGame(g, draws[0], true), draws[1..]);
      } else {
        assert |draws| == 1 ==> draws[1..] == [];
      }
    }
  }

  /** Letting go ends the flight; on the ground three units of fuel come back, up to thirty, in mode 1F if any is left. */
  lemma FuelExactly(g: Game, random: Pattern, held: bool)
    requires Shaped(g) && |random| == BITS && g.fuelMode && g.wait == 0 && g.fuel <= MAX_FUEL
    ensures g.jump == JUMPING_START && !held ==> UpdateGame(g, random, held).jump == NOT_JUMPING
    ensures g.jump == NOT_JUMPING ==>
      UpdateGame(g, random, held).fuel ==
        if g.difficulty == FUEL_1 && g.fuel == 0 then 0 else if g.fuel + 3 > 30 then 30 else g.fuel + 3
  {
    hide UpdateGame;
    BallMoves(g, random, held);
    var f, d := g.fuel, g.difficulty;
    RechargesOne(f, d, 2);
    RechargesOne(f + 1, d, 1);
    RechargesOne(f + 2, d, 0);
  }

  lemma RechargesOne(fuel: nat, difficulty: nat, times: nat)
    ensures Recharged(fuel, difficulty, times + 1) ==
      if fuel >= MAX_FUEL || (difficulty == FUEL_1 && fuel == 0) then fuel else Recharged(fuel + 1, difficulty, times)
    ensures Recharged(fuel, difficulty, 0) == fuel && Recharged(fuel + 1, difficulty, 0) == fuel + 1
  {
  }

  // Obstacles come.

  /** The first random bit set makes the first obstacle, as many places later as zeros are put in. */
  lemma {:induction false} SpreadFirst(bits: Pattern, zeros: nat, k: nat)
    requires k < |bits| && bits[k] && forall i :: 0 <= i < k ==> !bits[i]
    ensures |Spread(bits, zeros)| > k + zeros && Spread(bits, zeros)[k + zeros]
    ensures forall i :: 0 <= i < k + zeros ==> !Spread(bits, zeros)[i]
    decreases k
  {
    if k > 0 {
      SpreadFirst(bits[1..], zeros, k - 1);
    }
  }

  /** Random bits whose first one is the second to the thirteenth of the twenty bring an obstacle, whatever was there. */
  lemma ObstaclesCome(random: Pattern, previous: Pattern, zeros: nat, k: nat)
    requires |random| == BITS && |previous| == BITS && 3 <= zeros <= 4
    requires 1 <= k <= 12 && random[GRID + k] && forall i :: GRID <= i < GRID + k ==> !random[i]
    ensures exists j :: GRID <= j < BITS && Drawn(random, previous, zeros)[j]
  {
    hide Spread, SeamShift;
    var bits := random[GRID..];
    SpreadFirst(bits, zeros, k);
    var spread := Spread(bits, zeros) + [false];
    var shift := SeamShift(previous[..GRID], zeros);
    var q := k + zeros - (|spread| - 20);
    assert spread[|spread| - 20..|spread| - shift][q] == spread[k + zeros];
    assert Drawn(random, previous, zeros)[GRID + shift + q];
  }

  /** Drawing anew loses no obstacle: what is on its way stays, and new ones come behind it. */
  lemma NothingLost(g: Game, random: Pattern)
    requires GameInv(g) && g.screen == Playing && |random| == BITS
    ensures |DisplayObstacles(g, random).pattern| == BITS
    ensures forall i :: 0 <= i < BITS - 1 && g.pattern[i + 1] ==> DisplayObstacles(g, random).pattern[i]
  {
    hide Drawn, Legal;
    var shifted := g.pattern[1..] + [false];
    DrawnLegal(random, shifted, MinZeros(g.difficulty));
    var drawn := Drawn(random, shifted, MinZeros(g.difficulty));
    forall i | 0 <= i < GRID
      ensures drawn[i] == shifted[i]
    {
      assert drawn[..GRID][i] == shifted[..GRID][i];
    }
    ShiftClear(g.pattern, g.index);
  }

  /** A game begins with the ball on the ground and, without sound, one tick later. */
  lemma GameBegins(g: Game, random: Pattern)
    requires Shaped(g) && |random| == BITS
    ensures
      var g1 := Step(Step(g, Activate), Up(random));
      && g1.screen == Playing && g1.jump == NOT_JUMPING && g1.index == 0 && !g1.loc2 && !g1.loc3
      && g1.wait == (if g.soundOn then 0 else 1)
      && g1.difficulty == g.difficulty && g1.fuelMode == (g.difficulty == 4 || g.difficulty == 5)
      && g1.fuel == if g1.fuelMode then 3 else 0
  {
    hide NextPattern;
  }

  /** Each long press on the title goes on to the next of six difficulties, of which the last two are fuel games. */
  lemma NextDifficulty(g: Game)
    requires Shaped(g)
    ensures
      var g1 := Step(g, LightLongPress);
      if g.screen != Title then g1 == g
      else
        && g1.difficulty == (if g.difficulty == 5 then 0 else g.difficulty + 1)
        && g1.fuelMode == (g1.difficulty == 4 || g1.difficulty == 5)
        && g1 == g.(difficulty := g1.difficulty, fuelMode := g1.fuelMode)
  {
  }

  /** A press starts a jump exactly from the ground of a running game, and with fuel where fuel is needed. */
  lemma PressJumps(g: Game)
    ensures
      var g1 := ButtonDown(g);
      var jumps := g.screen == Playing && g.jump == NOT_JUMPING && (g.fuelMode ==> g.fuel > 0);
      g1 == if jumps then g.(jump := 2) else g
  {
  }

  /** Letting a button go leads from a lost game to the title and does nothing in a game; sound is switched between games. */
  lemma BetweenGames(g: Game, random: Pattern)
    requires Shaped(g) && |random| == BITS
    ensures g.screen == Lose ==>
      && Step(g, Up(random)).screen == Title
      && Step(g, Up(random)).difficulty == g.difficulty && Step(g, Up(random)).soundOn == g.soundOn
    ensures g.screen == Playing ==> Step(g, Up(random)) == g == Step(g, AlarmLongPress)
    ensures g.screen != Playing ==> Step(g, AlarmLongPress) == g.(soundOn := !g.soundOn)
    ensures g.screen != Playing ==> forall held :: Step(g, Tick(random, held)) == g
  {
  }
}
