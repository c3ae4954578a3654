/** The endless runner: how obstacle patterns are drawn, and that every obstacle can be jumped. */
module EndlessRunner {
  import opened Bits

  /** A 32-bit obstacle pattern, most significant bit first: the bit at 0 is at grid location 0. */
  type Pattern = Word

  const GRID := 12
  const BITS := 32

  const NORM := 2
  const HARD := 3
  const FUEL := 4
  const FUEL_1 := 5

  function MinZeros(difficulty: nat): nat {
    if difficulty == HARD then 3 else 4
  }

  /** `p << k` in 32 bits. */
  function ShiftLeft(p: Pattern, k: nat): (r: Pattern)
    requires |p| == BITS && k <= BITS
    ensures |r| == BITS
  {
    p[k..] + Zeros(k)
  }

  /** `p >> k` in 32 bits. */
  function ShiftRight(p: Pattern, k: nat): (r: Pattern)
    requires |p| == BITS && k <= BITS
    ensures |r| == BITS
  {
    Zeros(k) + p[..BITS - k]
  }

  // Drawing a legal pattern.

  /** The random bits with zeros put in before every set bit; as many bits after it are skipped. */
  function Spread(bits: Pattern, zeros: nat): (s: Pattern)
    ensures |bits| <= |s| <= |bits| + zeros
    decreases |bits|
  {
    if bits == [] then []
    else if bits[0] then
      Zeros(zeros) + [true] + Spread(if zeros + 1 <= |bits| then bits[zeros + 1..] else [], zeros)
    else [false] + Spread(bits[1..], zeros)
  }

  /** The zeros at the right end. */
  function TrailingZeros(p: Pattern): (n: nat)
    ensures n <= |p| && (forall i :: |p| - n <= i < |p| ==> !p[i])
    ensures n < |p| ==> p[|p| - n - 1]
  {
    if p == [] || p[|p| - 1] then 0 else 1 + TrailingZeros(p[..|p| - 1])
  }

  /** How far the new obstacles move away from the last one on the grid. */
  function SeamShift(kept: Pattern, zeros: nat): (shift: nat)
    ensures shift <= zeros
  {
    if TrailingZeros(kept) <= zeros then zeros - TrailingZeros(kept) else 0
  }

  /** The new pattern: the top twelve bits stay, and the spread random bits follow at a distance. */
  function Drawn(random: Pattern, previous: Pattern, zeros: nat): (p: Pattern)
    requires |random| == BITS && |previous| == BITS && zeros <= 4
    ensures |p| == BITS
  {
    var spread := Spread(random[GRID..], zeros) + [false];
    var shift := SeamShift(previous[..GRID], zeros);
    previous[..GRID] + Zeros(shift) + spread[|spread| - 20..|spread| - shift]
  }

  /** At least `zeros` zeros between any two obstacles. */
  predicate Legal(p: Pattern, zeros: nat) {
    forall i, j :: 0 <= i < j < |p| && p[i] && p[j] ==> j - i > zeros
  }

  method GetRandomLegal(random: Pattern, previous: Pattern, difficulty: nat) returns (pattern: Pattern)
    requires |random| == BITS && |previous| == BITS
    ensures pattern == Drawn(random, previous, MinZeros(difficulty))
  {
    hide Spread, Zeros, TrailingZeros, SeamShift, Drawn, Register, ShiftLeft, ShiftRight, Rest;
    var zeros := if difficulty == HARD then 3 else 4;
    var legal := Zeros(BITS);
    var i := GRID + 1;
    ghost var done: Pattern := [];
    NothingPlaced(random, zeros);
    while i <= BITS
      invariant GRID + 1 <= i <= BITS + 1 + zeros
      invariant |done| == i - GRID - 1 && legal == Register(done)
      invariant Spread(random[GRID..], zeros) == done + Spread(Rest(random, i), zeros)
    {
      PlaceBit(done, random, i, zeros);
      var bit := random[i - 1];
      if bit {
        legal := ShiftLeft(legal, zeros);
        i := i + zeros;
        legal := legal[..BITS - 1] + [true];
        done := done + Zeros(zeros) + [true];
      } else {
        done := done + [false];
      }
      legal := ShiftLeft(legal, 1);
      i := i + 1;
    }
    assert done == Spread(random[GRID..], zeros) by { SpreadNothing(random, done, i, zeros); }
    legal := Zeros(GRID) + legal[GRID..];
    var k := 0;
    while k <= zeros
      invariant 0 <= k <= zeros + 1
      invariant forall j :: GRID - k <= j < GRID ==> !previous[j]
    {
      if previous[GRID - 1 - k] {
        legal := ShiftRight(legal, zeros - k);
        break;
      }
      k := k + 1;
    }
    FirstSet(previous[..GRID], k, zeros);
    pattern := previous[..GRID] + legal[GRID..];
    Seam(random, previous, done, zeros);
  }

  /** The register while the loop runs: the bits placed so far, one place up. */
  function Register(done: Pattern): (p: Pattern)
    requires |done| < BITS
    ensures |p| == BITS
  {
    Zeros(BITS - 1 - |done|) + done + [false]
  }

  lemma NothingPlaced(random: Pattern, zeros: nat)
    requires |random| == BITS
    ensures Zeros(BITS) == Register([]) && Spread(random[GRID..], zeros) == [] + Spread(Rest(random, GRID + 1), zeros)
  {
  }

  /** The random bits not looked at yet, in round `i`. */
  function Rest(random: Pattern, i: nat): Pattern
    requires |random| == BITS && i >= GRID + 1
  {
    if i <= BITS then random[i - 1..] else []
  }

  lemma SpreadNothing(random: Pattern, done: Pattern, i: nat, zeros: nat)
    requires |random| == BITS && i > BITS
    ensures done + Spread(Rest(random, i), zeros) == done
  {
  }

  lemma PlaceBit(done: Pattern, random: Pattern, i: nat, zeros: nat)
    requires |random| == BITS && zeros <= 4 && GRID + 1 <= i <= BITS && |done| == i - GRID - 1
    ensures Spread(Rest(random, i), zeros)
         == if random[i - 1]
            then Zeros(zeros) + [true] + Spread(Rest(random, i + zeros + 1), zeros)
            else [false] + Spread(Rest(random, i + 1), zeros)
    ensures ShiftLeft(ShiftLeft(Register(done), zeros)[..BITS - 1] + [true], 1) == Register(done + Zeros(zeros) + [true])
    ensures ShiftLeft(Register(done), 1) == Register(done + [false])
  {
    hide Zeros, ShiftLeft, Register;
    var bits := random[i - 1..];
    assert bits == [bits[0]] + bits[1..];
    if i + zeros <= BITS {
      assert bits[zeros + 1..] == random[i + zeros..];
    }
    if i + zeros >= BITS {
      assert i + zeros == BITS ==> random[i + zeros..] == [];
    }
    if i < BITS {
      assert bits[1..] == random[i..];
    } else {
      assert bits[1..] == [];
    }
    ShiftRegister(done, zeros);
    ShiftRegister(done, 1);
    SetRegister(done, zeros);
    ClearRegister(done);
  }

  lemma ShiftRegister(done: Pattern, k: nat)
    requires |done| + k < BITS
    ensures ShiftLeft(Register(done), k) == Zeros(BITS - 1 - |done| - k) + done + Zeros(k + 1)
  {
  }

  lemma SetRegister(done: Pattern, zeros: nat)
    requires |done| + zeros + 1 < BITS
    ensures
      var shifted := Zeros(BITS - 1 - |done| - zeros) + done + Zeros(zeros + 1);
      ShiftLeft(shifted[..BITS - 1] + [true], 1) == Register(done + Zeros(zeros) + [true])
  {
    var shifted := Zeros(BITS - 1 - |done| - zeros) + done + Zeros(zeros + 1);
    var lifted := Zeros(BITS - 1 - |done| - zeros) + (done + Zeros(zeros) + [true]);
    assert shifted[..BITS - 1] + [true] == lifted;
    assert lifted[1..] == Zeros(BITS - 2 - |done| - zeros) + (done + Zeros(zeros) + [true]);
  }

  lemma ClearRegister(done: Pattern)
    requires |done| + 1 < BITS
    ensures Zeros(BITS - 2 - |done|) + done + Zeros(2) == Register(done + [false])
  {
  }

  lemma FirstSet(kept: Pattern, k: nat, zeros: nat)
    requires |kept| == GRID && zeros <= 4 && k <= zeros + 1
    requires forall j :: GRID - k <= j < GRID ==> !kept[j]
    requires k <= zeros ==> kept[GRID - 1 - k]
    ensures SeamShift(kept, zeros) == if k <= zeros then zeros - k else 0
  {
    var n := TrailingZeros(kept);
    assert n < GRID ==> kept[GRID - n - 1];
    assert forall i :: GRID - n <= i < GRID ==> !kept[i];
  }

  lemma Seam(random: Pattern, previous: Pattern, done: Pattern, zeros: nat)
    requires |random| == BITS && |previous| == BITS && zeros <= 4
    requires done == Spread(random[GRID..], zeros)
    ensures
      var legal := Zeros(GRID) + Register(done)[GRID..];
      var shift := SeamShift(previous[..GRID], zeros);
      && previous[..GRID] + ShiftRight(legal, shift)[GRID..] == Drawn(random, previous, zeros)
      && (shift == 0 ==> previous[..GRID] + legal[GRID..] == Drawn(random, previous, zeros))
  {
    hide Spread, SeamShift;
    var spread := done + [false];
    var shift := SeamShift(previous[..GRID], zeros);
    var legal := Zeros(GRID) + Register(done)[GRID..];
    assert Register(done)[GRID..] == spread[|spread| - 20..];
    assert ShiftRight(legal, shift)[GRID..] == Zeros(shift) + legal[GRID..BITS - shift];
    assert legal[GRID..BITS - shift] == spread[|spread| - 20..|spread| - shift];
  }

  // The legality of what is drawn.

  /** No obstacle among the first `n`. */
  predicate ClearFor(p: Pattern, n: nat) {
    forall i :: 0 <= i < n && i < |p| ==> !p[i]
  }

  lemma {:induction false} SpreadLegal(bits: Pattern, zeros: nat)
    ensures Legal(Spread(bits, zeros), zeros) && ClearFor(Spread(bits, zeros), zeros)
    decreases |bits|
  {
    hide Legal, ClearFor;
    if bits == [] {
      LegalNothing(zeros);
    } else if bits[0] {
      var rest := if zeros + 1 <= |bits| then bits[zeros + 1..] else [];
      SpreadLegal(rest, zeros);
      LegalSet(Spread(rest, zeros), zeros);
    } else {
      SpreadLegal(bits[1..], zeros);
      LegalUnset(Spread(bits[1..], zeros), zeros);
    }
  }

  lemma LegalNothing(zeros: nat)
    ensures Legal([], zeros) && ClearFor([], zeros)
  {
  }

  lemma LegalSet(p: Pattern, zeros: nat)
    requires Legal(p, zeros) && ClearFor(p, zeros)
    ensures var q := Zeros(zeros) + [true] + p; Legal(q, zeros) && ClearFor(q, zeros)
  {
    var q := Zeros(zeros) + [true] + p;
    assert forall i :: zeros + 1 <= i < |q| ==> q[i] == p[i - zeros - 1];
  }

  lemma LegalUnset(p: Pattern, zeros: nat)
    requires Legal(p, zeros) && ClearFor(p, zeros)
    ensures var q := [false] + p; Legal(q, zeros) && ClearFor(q, zeros)
  {
    var q := [false] + p;
    assert forall i :: 1 <= i < |q| ==> q[i] == p[i - 1];
  }

  lemma LegalSlice(p: Pattern, from: nat, to: nat, zeros: nat)
    requires from <= to <= |p| && Legal(p, zeros)
    ensures Legal(p[from..to], zeros)
  {
    forall i, j | 0 <= i < j < to - from && p[from..to][i] && p[from..to][j]
      ensures j - i > zeros
    {
      assert p[from + i] && p[from + j];
    }
  }

  lemma LegalSeam(kept: Pattern, added: Pattern, zeros: nat)
    requires Legal(kept, zeros) && Legal(added, zeros)
    ensures Legal(kept + Zeros(SeamShift(kept, zeros)) + added, zeros)
  {
  }

  /** What is drawn keeps the grid as it is, and is legal exactly when the grid was, whatever the random bits. */
  lemma DrawnLegal(random: Pattern, previous: Pattern, zeros: nat)
    requires |random| == BITS && |previous| == BITS && zeros <= 4
    ensures Drawn(random, previous, zeros)[..GRID] == previous[..GRID]
    ensures Legal(Drawn(random, previous, zeros), zeros) <==> Legal(previous[..GRID], zeros)
  {
    hide Legal, SeamShift, Spread, ClearFor;
    var drawn := Drawn(random, previous, zeros);
    var kept := previous[..GRID];
    assert drawn[0..GRID] == kept;
    if Legal(drawn, zeros) {
      LegalSlice(drawn, 0, GRID, zeros);
    }
    if Legal(kept, zeros) {
      var spread := Spread(random[GRID..], zeros) + [false];
      SpreadLegal(random[GRID..], zeros);
      LegalAppend(Spread(random[GRID..], zeros), zeros);
      LegalSlice(spread, |spread| - 20, |spread| - SeamShift(kept, zeros), zeros);
      LegalSeam(kept, spread[|spread| - 20..|spread| - SeamShift(kept, zeros)], zeros);
    }
  }

  lemma LegalAppend(p: Pattern, zeros: nat)
    requires Legal(p, zeros)
    ensures Legal(p + [false], zeros)
  {
  }

  // The game.

  const JUMPING_FINAL_FRAME := 0
  const NOT_JUMPING := 1
  const JUMPING_START := 2
  const MAX_FUEL := 30
  const RECHARGE := 3

  datatype Screen = Title | Playing | Lose

  datatype Game = Game(
    difficulty: nat, fuelMode: bool, soundOn: bool, pattern: Pattern, index: nat, jump: nat, wait: nat,
    screen: Screen, loc2: bool, loc3: bool, fuel: nat)

  predicate Shaped(g: Game) {
    |g.pattern| == BITS && g.difficulty < 6
  }

  const FIRST_GAME := Game(NORM, false, true, Zeros(BITS), 0, NOT_JUMPING, 1, Title, false, false, 0)

  function FuelMode(difficulty: nat): bool {
    FUEL <= difficulty <= FUEL_1
  }

  function DisplayTitle(g: Game): Game {
    Game(g.difficulty, FuelMode(g.difficulty), g.soundOn, Zeros(BITS), 0, NOT_JUMPING, if g.soundOn then 0 else 1,
         Title, false, false, 0)
  }

  function ChangeDifficulty(g: Game): Game {
    var difficulty := (g.difficulty + 1) % 6;
    g.(difficulty := difficulty, fuelMode := FuelMode(difficulty))
  }

  /** In the fuel modes the low half is drawn anew; what it may hold is not modelled. */
  function NextPattern(fuelMode: bool, difficulty: nat, random: Pattern, previous: Pattern): (p: Pattern)
    requires |random| == BITS && |previous| == BITS
    ensures |p| == BITS
  {
    if fuelMode then previous[..16] + random[16..] else Drawn(random, previous, MinZeros(difficulty))
  }

  function BeginPlaying(g: Game, random: Pattern): Game
    requires |random| == BITS
  {
    g.(screen := Playing, pattern := NextPattern(g.fuelMode, g.difficulty, random, Zeros(BITS)),
       fuel := if g.fuelMode && g.fuel < RECHARGE then RECHARGE else g.fuel, jump := NOT_JUMPING)
  }

  function DisplayObstacles(g: Game, random: Pattern): Game
    requires Shaped(g) && |random| == BITS
  {
    var shifted := g.pattern[1..] + [false];
    var over := g.index + 1 >= if g.fuelMode then 16 else 20;
    g.(loc2 := g.pattern[2], loc3 := g.pattern[3], index := if over then 0 else g.index + 1,
       pattern := if over then NextPattern(g.fuelMode, g.difficulty, random, shifted) else shifted)
  }

  function Recharged(fuel: nat, difficulty: nat, times: nat): nat
    decreases times
  {
    if times == 0 || fuel >= MAX_FUEL || (difficulty == FUEL_1 && fuel == 0) then fuel
    else Recharged(fuel + 1, difficulty, times - 1)
  }

  function MoveBall(g: Game, held: bool): Game {
    if g.jump == NOT_JUMPING then
      (if g.fuelMode then g.(fuel := Recharged(g.fuel, g.difficulty, RECHARGE)) else g)
    else if g.jump == JUMPING_FINAL_FRAME then g.(jump := NOT_JUMPING)
    else if g.fuelMode then
      var g1 := if g.fuel == 0 then g.(jump := JUMPING_FINAL_FRAME) else g.(fuel := g.fuel - 1);
      if held then g1 else g1.(jump := NOT_JUMPING)
    else
      var frame := g.jump - NOT_JUMPING;
      g.(jump := if frame >= 3 || (g.difficulty >= NORM && frame >= 2) then JUMPING_FINAL_FRAME else g.jump + 1)
  }

  function UpdateGame(g: Game, random: Pattern, held: bool): Game
    requires Shaped(g) && |random| == BITS
  {
    if g.wait != 0 then g.(wait := g.wait - 1)
    else
      var moved := MoveBall(DisplayObstacles(g, random), held);
      if moved.jump == NOT_JUMPING && (moved.loc2 || moved.loc3) then moved.(screen := Lose) else moved
  }

  function ButtonDown(g: Game): Game {
    if g.screen == Playing && g.jump == NOT_JUMPING && !(g.fuelMode && g.fuel == 0) then g.(jump := JUMPING_START) else g
  }

  datatype Event =
    | Activate
    | Tick(random: Pattern, held: bool)
    | Up(random: Pattern)
    | Down
    | LightLongPress
    | AlarmLongPress

  predicate CanHappen(e: Event) {
    (e.Tick? || e.Up?) ==> |e.random| == BITS
  }

  function Step(g: Game, e: Event): Game
    requires Shaped(g) && CanHappen(e)
  {
    match e
    case Activate => DisplayTitle(g)
    case Tick(random, held) => if g.screen == Playing then UpdateGame(g, random, held) else g
    case Up(random) =>
      if g.screen == Title then BeginPlaying(g, random) else if g.screen == Lose then DisplayTitle(g) else g
    case Down => ButtonDown(g)
    case LightLongPress => if g.screen == Title then ChangeDifficulty(g) else g
    case AlarmLongPress => if g.screen != Playing then g.(soundOn := !g.soundOn) else g
  }

  class EndlessRunnerFace {
    var difficulty: nat
    var fuelMode: bool
    var soundOn: bool
    var obstPattern: Pattern
    var obstIndx: nat
    var jumpState: nat
    var secBeforeMoves: nat
    var screen: Screen
    var loc2On: bool
    var loc3On: bool
    var fuel: nat

    ghost function Abs(): Game
      reads this
    {
      Game(difficulty, fuelMode, soundOn, obstPattern, obstIndx, jumpState, secBeforeMoves, screen, loc2On, loc3On, fuel)
    }

    constructor ()
      ensures Abs() == FIRST_GAME
    {
      difficulty, fuelMode, soundOn, obstPattern := NORM, false, true, Zeros(BITS);
      obstIndx, jumpState, secBeforeMoves, screen := 0, NOT_JUMPING, 1, Title;
      loc2On, loc3On, fuel := false, false, 0;
    }

    method ShowTitle()
      modifies this
      ensures Abs() == DisplayTitle(old(Abs()))
    {
      hide Zeros;
      screen := Title;
      obstPattern := Zeros(BITS);
      obstIndx, jumpState, secBeforeMoves := 0, NOT_JUMPING, 1;
      loc2On, loc3On, fuel := false, false, 0;
      if soundOn {
        secBeforeMoves := secBeforeMoves - 1;
      }
      fuelMode := FUEL <= difficulty <= FUEL_1;
    }

    method HarderOrEasier()
      modifies this`difficulty, this`fuelMode
      ensures Abs() == ChangeDifficulty(old(Abs()))
    {
      difficulty := (difficulty + 1) % 6;
      fuelMode := FUEL <= difficulty <= FUEL_1;
    }

    method StartPlaying(random: Pattern)
      requires |random| == BITS
      modifies this
      ensures Abs() == BeginPlaying(old(Abs()), random)
    {
      hide Drawn, Zeros;
      screen := Playing;
      if fuelMode {
        obstPattern := Zeros(BITS)[..16] + random[16..];
        if fuel < RECHARGE {
          fuel := RECHARGE;
        }
      } else {
        obstPattern := GetRandomLegal(random, Zeros(BITS), difficulty);
      }
      jumpState := NOT_JUMPING;
    }

    method ShowObstacles(random: Pattern)
      requires |obstPattern| == BITS && |random| == BITS && difficulty < 6
      modifies this`loc2On, this`loc3On, this`obstPattern, this`obstIndx
      ensures Abs() == DisplayObstacles(old(Abs()), random)
    {
      hide Drawn, Zeros;
      for i := 0 to GRID
        invariant obstPattern == old(obstPattern) && obstIndx == old(obstIndx)
        invariant i > 2 ==> loc2On == obstPattern[2]
        invariant i > 3 ==> loc3On == obstPattern[3]
      {
        var obstacle := obstPattern[i];
        if i == 2 {
          loc2On := obstacle;
        } else if i == 3 {
          loc3On := obstacle;
        }
      }
      obstPattern := obstPattern[1..] + [false];
      obstIndx := obstIndx + 1;
      if fuelMode {
        if obstIndx >= 16 {
          obstIndx := 0;
          obstPattern := obstPattern[..16] + random[16..];
        }
      } else if obstIndx >= 20 {
        obstIndx := 0;
        obstPattern := GetRandomLegal(random, obstPattern, difficulty);
      }
    }

    /** Moves the ball on by one frame. */
    method Ball(held: bool)
      modifies this`jumpState, this`fuel
      ensures Abs() == MoveBall(old(Abs()), held)
    {
      if jumpState == NOT_JUMPING {
        if fuelMode {
          var times := 0;
          while times < RECHARGE && !(fuel >= MAX_FUEL || (difficulty == FUEL_1 && fuel == 0))
            invariant 0 <= times <= RECHARGE
            invariant Recharged(fuel, difficulty, RECHARGE - times) == Recharged(old(fuel), difficulty, RECHARGE)
            invariant jumpState == old(jumpState)
          {
            fuel := fuel + 1;
            times := times + 1;
          }
        }
      } else if jumpState == JUMPING_FINAL_FRAME {
        jumpState := NOT_JUMPING;
      } else if fuelMode {
        if fuel == 0 {
          jumpState := JUMPING_FINAL_FRAME;
        } else {
          fuel := fuel - 1;
        }
        if !held {
          jumpState := NOT_JUMPING;
        }
      } else {
        var frame := jumpState - NOT_JUMPING;
        if frame >= 3 || (difficulty >= NORM && frame >= 2) {
          jumpState := JUMPING_FINAL_FRAME;
        } else {
          jumpState := jumpState + 1;
        }
      }
    }

    method Update(random: Pattern, held: bool)
      requires |obstPattern| == BITS && |random| == BITS && difficulty < 6
      modifies this
      ensures Abs() == UpdateGame(old(Abs()), random, held)
    {
      hide DisplayObstacles, MoveBall;
      if secBeforeMoves != 0 {
        secBeforeMoves := secBeforeMoves - 1;
        return;
      }
      ShowObstacles(random);
      Ball(held);
      if jumpState == NOT_JUMPING && (loc2On || loc3On) {
        screen := Lose;
      }
    }

    method HandleEvent(e: Event)
      requires |obstPattern| == BITS && difficulty < 6 && CanHappen(e)
      modifies this
      ensures Abs() == Step(old(Abs()), e)
    {
      hide UpdateGame, BeginPlaying;
      match e {
        case Activate => ShowTitle();
        case Tick(random, held) =>
          if screen == Playing {
            Update(random, held);
          }
        case Up(random) =>
          if screen == Title {
            StartPlaying(random);
          } else if screen == Lose {
            ShowTitle();
          }
        case Down =>
          if screen == Playing && jumpState == NOT_JUMPING {
            if fuelMode && fuel == 0 {
              return;
            }
            jumpState := JUMPING_START;
          }
        case LightLongPress =>
          if screen == Title {
            HarderOrEasier();
          }
        case AlarmLongPress =>
          if screen != Playing {
            soundOn := !soundOn;
          }
      }
    }
  }

  /** No obstacle in the last `n` places. */
  predicate ClearEnd(p: Pattern, n: nat) {
    forall i :: 0 <= i < |p| && |p| - n <= i ==> !p[i]
  }

  /** What every event keeps: outside the fuel modes the pattern is legal, and what was shifted out left zeros. */
  predicate GameInv(g: Game) {
    && Shaped(g)
    && g.fuelMode == FuelMode(g.difficulty)
    && g.index < (if g.fuelMode then 16 else 20) && g.fuel <= MAX_FUEL
    && (g.screen == Title ==> g.index == 0)
    && (g.screen != Title ==> ClearEnd(g.pattern, g.index))
    && (g.screen != Title && !g.fuelMode ==> Legal(g.pattern, if g.difficulty == 3 then 3 else 4))
  }

  lemma ShiftLegal(p: Pattern, zeros: nat, n: nat)
    requires |p| == BITS && Legal(p, zeros) && ClearEnd(p, n)
    ensures Legal(p[1..] + [false], zeros) && ClearEnd(p[1..] + [false], n + 1)
    ensures Legal((p[1..] + [false])[..GRID], zeros)
  {
    hide ClearEnd;
    LegalSlice(p, 1, BITS, zeros);
    LegalAppend(p[1..], zeros);
    LegalSlice(p[1..] + [false], 0, GRID, zeros);
    assert (p[1..] + [false])[0..GRID] == (p[1..] + [false])[..GRID];
    ShiftClear(p, n);
  }

  lemma ShiftClear(p: Pattern, n: nat)
    requires |p| == BITS && ClearEnd(p, n)
    ensures ClearEnd(p[1..] + [false], n + 1)
  {
  }

  lemma ClearIsLegal(zeros: nat)
    ensures Legal(Zeros(BITS)[..GRID], zeros)
  {
  }

  lemma NoneCleared(p: Pattern)
    ensures ClearEnd(p, 0)
  {
  }

  lemma {:induction false} RechargedBound(fuel: nat, difficulty: nat, times: nat)
    ensures fuel <= MAX_FUEL ==> Recharged(fuel, difficulty, times) <= MAX_FUEL
    ensures difficulty == FUEL_1 && fuel == 0 ==> Recharged(fuel, difficulty, times) == 0
    decreases times
  {
    if times > 0 && fuel < MAX_FUEL {
      RechargedBound(fuel + 1, difficulty, times - 1);
    }
  }

  lemma ObstaclesInv(g: Game, random: Pattern)
    requires GameInv(g) && g.screen == Playing && |random| == BITS
    ensures GameInv(DisplayObstacles(g, random))
    ensures DisplayObstacles(g, random).screen == Playing
  {
    hide Legal, ClearEnd, Drawn;
    var zeros := MinZeros(g.difficulty);
    var shifted := g.pattern[1..] + [false];
    ShiftClear(g.pattern, g.index);
    NoneCleared(NextPattern(g.fuelMode, g.difficulty, random, shifted));
    if !g.fuelMode {
      ShiftLegal(g.pattern, zeros, g.index);
      DrawnLegal(random, shifted, zeros);
    }
  }

  lemma StepInv(g: Game, e: Event)
    requires GameInv(g) && CanHappen(e)
    ensures GameInv(Step(g, e))
  {
    hide Legal, ClearEnd, Drawn, Zeros, DisplayObstacles;
    if e.Tick? && g.screen == Playing {
      ObstaclesInv(g, e.random);
      var shown := DisplayObstacles(g, e.random);
      RechargedBound(shown.fuel, shown.difficulty, RECHARGE);
    } else if e.Up? && g.screen == Title {
      NoneCleared(NextPattern(g.fuelMode, g.difficulty, e.random, Zeros(BITS)));
      if !g.fuelMode {
        ClearIsLegal(MinZeros(g.difficulty));
        DrawnLegal(e.random, Zeros(BITS), MinZeros(g.difficulty));
      }
    }
  }

  function Run(events: seq<Event>): (g: Game)
    requires forall i :: 0 <= i < |events| ==> CanHappen(events[i])
    ensures Shaped(g)
  {
    if events == [] then FIRST_GAME
    else
      var before := Run(events[..|events| - 1]);
      StepShaped(before, events[|events| - 1]);
      Step(before, events[|events| - 1])
  }

  lemma StepShaped(g: Game, e: Event)
    requires Shaped(g) && CanHappen(e)
    ensures Shaped(Step(g, e))
  {
    hide Drawn, Zeros, UpdateGame;
    if e.Tick? {
      UpdateShaped(g, e.random, e.held);
    }
  }

  lemma UpdateShaped(g: Game, random: Pattern, held: bool)
    requires Shaped(g) && |random| == BITS
    ensures Shaped(UpdateGame(g, random, held))
  {
    hide DisplayObstacles;
    ShownShaped(g, random);
  }

  lemma ShownShaped(g: Game, random: Pattern)
    requires Shaped(g) && |random| == BITS
    ensures Shaped(DisplayObstacles(g, random))
  {
    hide NextPattern;
  }

  /**
   In every run of ticks and buttons with any random bits, every pattern of a game that is not a fuel game keeps
   the zeros its difficulty calls for, and only zeros are overwritten when new obstacles are drawn.
   */
  lemma {:induction false} PatternsLegal(events: seq<Event>)
    requires forall i :: 0 <= i < |events| ==> CanHappen(events[i])
    ensures GameInv(Run(events))
    decreases |events|
  {
    hide GameInv, Step;
    if events == [] {
      FirstInv();
    } else {
      PatternsLegal(events[..|events| - 1]);
      StepInv(Run(events[..|events| - 1]), events[|events| - 1]);
    }
  }

  lemma FirstInv()
    ensures GameInv(FIRST_GAME)
  {
  }

  // Every obstacle can be jumped.

  /** A tick of a player who jumps when an obstacle comes to the location before the ball. */
  function PlayTick(g: Game, random: Pattern): Game
    requires Shaped(g) && |random| == BITS
  {
    var pressed := if g.wait == 0 && g.pattern[3] then ButtonDown(g) else g;
    UpdateGame(pressed, random, false)
  }

  /** A jump is under way exactly over an obstacle, and the ball is on the ground only when the ground is clear. */
  predicate Clearing(g: Game) {
    && GameInv(g) && g.screen == Playing && !g.fuelMode
    && (if g.jump == NOT_JUMPING then !g.pattern[2]
        else if g.jump == 3 then g.pattern[2]
        else if g.jump == 4 then g.difficulty < NORM && g.pattern[1]
        else g.jump == JUMPING_FINAL_FRAME && if g.difficulty < NORM then g.pattern[0] else g.pattern[1])
  }

  lemma ShownNext(g: Game, random: Pattern)
    requires Shaped(g) && !g.fuelMode && |random| == BITS
    ensures
      var g1 := DisplayObstacles(g, random);
      && |g1.pattern| == BITS && g1.loc2 == g.pattern[2] && g1.loc3 == g.pattern[3]
      && g1.pattern[0] == g.pattern[1] && g1.pattern[1] == g.pattern[2] && g1.pattern[2] == g.pattern[3]
      && g1 == g.(loc2 := g1.loc2, loc3 := g1.loc3, index := g1.index, pattern := g1.pattern)
  {
    hide Drawn;
    var shifted := g.pattern[1..] + [false];
    var drawn := Drawn(random, shifted, MinZeros(g.difficulty));
    DrawnLegal(random, shifted, MinZeros(g.difficulty));
    assert drawn[..GRID][0] == shifted[..GRID][0] && drawn[..GRID][1] == shifted[..GRID][1];
    assert drawn[..GRID][2] == shifted[..GRID][2];
  }

  lemma NextClear(p: Pattern, zeros: nat)
    requires |p| == BITS && Legal(p, zeros) && zeros >= 3
    ensures p[0] || p[1] ==> !p[2] && !p[3]
  {
  }

  lemma PlayTickClears(g: Game, random: Pattern)
    requires Clearing(g) && |random| == BITS
    ensures Clearing(PlayTick(g, random))
  {
    hide Legal, ClearEnd, DisplayObstacles;
    var pressed := if g.wait == 0 && g.pattern[3] then ButtonDown(g) else g;
    ObstaclesInv(pressed, random);
    ShownNext(pressed, random);
    NextClear(g.pattern, MinZeros(g.difficulty));
  }

  function Play(g: Game, draws: seq<Pattern>): Game
    requires Shaped(g) && forall i :: 0 <= i < |draws| ==> |draws[i]| == BITS
    decreases |draws|
  {
    if draws == [] then g
    else
      PlayShaped(g, draws[0]);
      Play(PlayTick(g, draws[0]), draws[1..])
  }

  lemma PlayShaped(g: Game, random: Pattern)
    requires Shaped(g) && |random| == BITS
    ensures Shaped(PlayTick(g, random))
  {
    hide UpdateGame;
    UpdateShaped(if g.wait == 0 && g.pattern[3] then ButtonDown(g) else g, random, false);
  }

  /** The patterns drawn can always be played: jumping at each obstacle never loses, whatever is drawn. */
  lemma {:induction false} CanAlwaysBePlayed(g: Game, draws: seq<Pattern>)
    requires Clearing(g) && forall i :: 0 <= i < |draws| ==> |draws[i]| == BITS
    ensures Play(g, draws).screen == Playing
    decreases |draws|
  {
    hide Clearing;
    PlayingNow(g);
    if draws != [] {
      PlayTickClears(g, draws[0]);
      PlayingNow(PlayTick(g, draws[0]));
      CanAlwaysBePlayed(PlayTick(g, draws[0]), draws[1..]);
    }
  }

  lemma PlayingNow(g: Game)
    requires Clearing(g)
    ensures g.screen == Playing && Shaped(g)
  {
  }

  /** Every game that is not a fuel game begins with a clear ground. */
  lemma BeginsClear(g: Game, random: Pattern)
    requires GameInv(g) && g.screen == Title && !g.fuelMode && |random| == BITS
    ensures Clearing(Step(g, Up(random)))
  {
    hide Drawn, Legal, ClearEnd;
    StepInv(g, Up(random));
    DrawnLegal(random, Zeros(BITS), MinZeros(g.difficulty));
    assert Drawn(random, Zeros(BITS), MinZeros(g.difficulty))[..GRID][2] == Zeros(BITS)[..GRID][2];
  }
}
