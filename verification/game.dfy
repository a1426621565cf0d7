/**
 * The state of one game: the live cells, the history stack, the generation
 * counter, the frame rate and the flags through which the key handlers ask
 * the once-per-frame update to advance or rewind the counter.
 */
module GameModel {
  import opened Constants
  import opened Cells
  import opened Rules
  import opened History

  class Game {
    var frameRate: int
    var generation: int
    var isPaused: bool
    var nextUpdate: bool
    var previousGeneration: bool
    var activeCells: set<Cell>
    var generationStack: seq<set<Cell>>

    /**
     * The invariant the key commands and the per-frame update keep: the
     * frame rate within its limits, the history within its bound, and a
     * generation counter that may fall one below the history's length, but
     * only with at least two snapshots stored and no step back pending.
     */
    ghost predicate Valid()
      reads this`frameRate, this`generation, this`previousGeneration, this`generationStack
      ensures Valid() ==> generation >= 0
    {
      && MIN_FRAME_RATE <= frameRate <= MAX_FRAME_RATE
      && |generationStack| <= GENERATION_STACK_SIZE
      && generation >= |generationStack| - 1
      && (generation == |generationStack| - 1 ==> |generationStack| >= 2)
      && (previousGeneration ==> generation >= |generationStack|)
    }

    /**
     * The counter is at least the history's length, and a pending rewind
     * will not take it below that.
     */
    ghost predicate DepthTracked()
      reads this`generation, this`previousGeneration, this`generationStack
      ensures DepthTracked() ==> generation >= 0
    {
      && generation >= |generationStack|
      && (previousGeneration ==> generation > |generationStack| || |generationStack| <= 1)
    }

    constructor ()
      ensures frameRate == FRAME_RATE && generation == 0
      ensures isPaused && !nextUpdate && !previousGeneration
      ensures activeCells == {} && generationStack == []
      ensures Valid() && DepthTracked()
    {
      frameRate := FRAME_RATE;
      generation := 0;
      isPaused := true;
      nextUpdate := false;
      previousGeneration := false;
      activeCells := {};
      generationStack := [];
    }

    /** Make c live. */
    method Activate(c: Cell)
      modifies this`activeCells
      ensures activeCells == Activated(old(activeCells), c)
    {
      activeCells := activeCells + {c};
    }

    /** Make c dead if it is live. */
    method Deactivate(c: Cell)
      modifies this`activeCells
      ensures activeCells == Deactivated(old(activeCells), c)
    {
      if c in activeCells {
        activeCells := activeCells - {c};
      }
    }

    /** Flip c. */
    method Toggle(c: Cell)
      modifies this`activeCells
      ensures activeCells == Toggled(old(activeCells), c)
    {
      if c in activeCells {
        Deactivate(c);
      } else {
        Activate(c);
      }
    }

    /** Count the live neighbours of (x, y) with a loop over Delta x Delta. */
    method Neighbors(x: int, y: int) returns (count: nat)
      ensures count == NeighborCount(activeCells, (x, y))
    {
      count := 0;
      var a := 0;
      while a < |Delta|
        invariant 0 <= a <= |Delta|
        invariant count == LiveAmong(activeCells, x, y, a)
      {
        var dx := Delta[a];
        var b := 0;
        while b < |Delta|
          invariant 0 <= b <= |Delta|
          invariant count == LiveAmong(activeCells, x, y, a) + LiveInColumn(activeCells, x, y, dx, b)
        {
          var dy := Delta[b];
          if dx != 0 || dy != 0 {
            if (x + dx, y + dy) in activeCells {
              count := count + 1;
            }
          }
          b := b + 1;
        }
        a := a + 1;
      }
    }

    /** Apply the rule to every viewport cell in row-major order, updating the live set in place. */
    method ProduceNewGeneration()
      modifies this`activeCells
      ensures activeCells == NextGeneration(old(activeCells))
    {
      ghost var s := activeCells;
      ghost var k := 0;
      var i := 0;
      while i < ROWS
        invariant 0 <= i <= ROWS
        invariant k == i * COLS
        invariant activeCells == Sweep(s, k)
      {
        RowMajorPosition(i, 0);
        var j := 0;
        while j < COLS
          invariant 0 <= j <= COLS
          invariant k == i * COLS + j && 0 <= k <= CELLS
          invariant activeCells == Sweep(s, k)
        {
          RowMajorPosition(i, j);
          SweepStep(s, k, (j, i));
          ghost var before := activeCells;
          var neighbors := Neighbors(j, i);
          if (j, i) in activeCells {
            if neighbors < 2 || neighbors > 3 {
              activeCells := activeCells - {(j, i)};
            }
          } else {
            if neighbors == 3 {
              activeCells := activeCells + {(j, i)};
            }
          }
          assert activeCells == Visit(before, (j, i));
          j := j + 1;
          k := k + 1;
        }
        RowMajorPosition(i, COLS);
        i := i + 1;
      }
    }

    /** Push a copy of the live set onto the history, evicting the oldest snapshot past the bound. */
    method StoreOldGeneration()
      modifies this`generationStack
      ensures generationStack == Stored(old(generationStack), activeCells, GENERATION_STACK_SIZE)
    {
      generationStack := generationStack + [activeCells];
      if GENERATION_STACK_SIZE != -1 && |generationStack| > GENERATION_STACK_SIZE {
        generationStack := generationStack[1..];
      }
    }

    /**
     * With more than one snapshot, drop the top one and pop the next one into
     * the live set; the installed snapshot leaves the history.
     */
    method ProduceOldGeneration()
      modifies this`generationStack, this`activeCells
      ensures |old(generationStack)| <= 1 ==>
        generationStack == old(generationStack) && activeCells == old(activeCells)
      ensures |old(generationStack)| > 1 ==>
        && generationStack == old(generationStack)[..|old(generationStack)| - 2]
        && activeCells == old(generationStack)[|old(generationStack)| - 2]
    {
      if |generationStack| > 1 {
        generationStack := generationStack[..|generationStack| - 1];
        activeCells := generationStack[|generationStack| - 1];
        generationStack := generationStack[..|generationStack| - 1];
      }
    }

    /**
     * The once-per-frame update: a requested step forward counts up and
     * stores the current set; otherwise a requested step back counts down if
     * more than one snapshot is left; otherwise, while running, a new
     * generation is produced, counted and stored.
     */
    method UpdateGameScreen()
      requires Valid()
      modifies this`nextUpdate, this`previousGeneration, this`generation, this`activeCells, this`generationStack
      ensures Valid()
      ensures old(nextUpdate) ==>
        && !nextUpdate && previousGeneration == old(previousGeneration)
        && generation == old(generation) + 1
        && activeCells == old(activeCells)
        && generationStack == Stored(old(generationStack), activeCells, GENERATION_STACK_SIZE)
      ensures !old(nextUpdate) && old(previousGeneration) ==>
        && !nextUpdate && !previousGeneration
        && generation == old(generation) - (if |old(generationStack)| > 1 then 1 else 0)
        && activeCells == old(activeCells) && generationStack == old(generationStack)
      ensures !old(nextUpdate) && !old(previousGeneration) && !isPaused ==>
        && !nextUpdate && !previousGeneration
        && generation == old(generation) + 1
        && activeCells == NextGeneration(old(activeCells))
        && generationStack == Stored(old(generationStack), activeCells, GENERATION_STACK_SIZE)
      ensures !old(nextUpdate) && !old(previousGeneration) && isPaused ==>
        && !nextUpdate && !previousGeneration && generation == old(generation)
        && activeCells == old(activeCells) && generationStack == old(generationStack)
      ensures old(DepthTracked()) && !(old(nextUpdate) && old(previousGeneration)) ==> DepthTracked()
    {
      if nextUpdate {
        nextUpdate := false;
        generation := generation + 1;
        StoreOldGeneration();
      } else if previousGeneration {
        previousGeneration := false;
        if |generationStack| > 1 {
          generation := generation - 1;
        }
      } else if !isPaused {
        generation := generation + 1;
        ProduceNewGeneration();
        StoreOldGeneration();
      }
    }

    /** Space: pause or resume. */
    method TogglePause()
      modifies this`isPaused
      ensures isPaused == !old(isPaused)
    {
      isPaused := !isPaused;
    }

    /** R: a random pattern over the viewport, one coin per cell in row-major order. */
    method Randomize(bits: seq<bool>)
      requires |bits| == CELLS
      modifies this`activeCells
      ensures activeCells == Randomized(bits)
    {
      var seeded: set<Cell> := {};
      var k := 0;
      var i := 0;
      while i < ROWS
        invariant 0 <= i <= ROWS
        invariant k == i * COLS
        invariant forall c :: c in seeded <==> RowMajorBefore(c, i, 0) && bits[Index(c)]
      {
        RowMajorPosition(i, 0);
        var j := 0;
        while j < COLS
          invariant 0 <= j <= COLS
          invariant k == i * COLS + j && 0 <= k <= CELLS
          invariant forall c :: c in seeded <==> RowMajorBefore(c, i, j) && bits[Index(c)]
        {
          RowMajorPosition(i, j);
          if bits[k] {
            seeded := seeded + {(j, i)};
          }
          j := j + 1;
          k := k + 1;
        }
        RowMajorPosition(i, COLS);
        i := i + 1;
      }
      activeCells := seeded;
    }

    /** E: every viewport cell live. */
    method Fill()
      modifies this`activeCells
      ensures activeCells == Viewport()
    {
      activeCells := Viewport();
    }

    /** K: every cell dead. */
    method Clear()
      modifies this`activeCells
      ensures activeCells == {}
    {
      activeCells := {};
    }

    /** T: exactly the viewport cells that were dead become live. */
    method Invert()
      modifies this`activeCells
      ensures activeCells == Inverted(old(activeCells))
    {
      var inverted: set<Cell> := {};
      var i := 0;
      while i < ROWS
        invariant 0 <= i <= ROWS
        invariant forall c :: c in inverted <==> RowMajorBefore(c, i, 0) && c !in activeCells
      {
        var j := 0;
        while j < COLS
          invariant 0 <= j <= COLS
          invariant forall c :: c in inverted <==> RowMajorBefore(c, i, j) && c !in activeCells
        {
          if (j, i) !in activeCells {
            inverted := inverted + {(j, i)};
          }
          j := j + 1;
        }
        i := i + 1;
      }
      activeCells := inverted;
    }

    /** N (read only while paused): produce the next generation and ask the update to count and store it. */
    method RequestNextGeneration()
      modifies this`activeCells, this`nextUpdate
      ensures activeCells == NextGeneration(old(activeCells)) && nextUpdate
    {
      ProduceNewGeneration();
      nextUpdate := true;
    }

    /** P (read only while paused): step back through the history and ask the update to count down. */
    method RequestPreviousGeneration()
      requires Valid()
      modifies this`activeCells, this`generationStack, this`previousGeneration
      ensures Valid() && previousGeneration
      ensures |old(generationStack)| > 1 ==>
        && generationStack == old(generationStack)[..|old(generationStack)| - 2]
        && activeCells == old(generationStack)[|old(generationStack)| - 2]
      ensures |old(generationStack)| <= 1 ==>
        generationStack == old(generationStack) && activeCells == old(activeCells)
      ensures old(DepthTracked()) ==> DepthTracked()
    {
      ProduceOldGeneration();
      previousGeneration := true;
    }

    /** + (read only while running): one frame per second faster, up to the maximum. */
    method IncreaseFrameRate()
      requires Valid()
      modifies this`frameRate
      ensures Valid()
      ensures frameRate == Min(MAX_FRAME_RATE, old(frameRate) + 1)
      ensures old(frameRate) < MAX_FRAME_RATE ==> frameRate == old(frameRate) + 1
    {
      frameRate := Min(MAX_FRAME_RATE, frameRate + 1);
    }

    /** - (read only while running): one frame per second slower, down to the minimum. */
    method DecreaseFrameRate()
      requires Valid()
      modifies this`frameRate
      ensures Valid()
      ensures frameRate == Max(MIN_FRAME_RATE, old(frameRate) - 1)
      ensures old(frameRate) > MIN_FRAME_RATE ==> frameRate == old(frameRate) - 1
    {
      frameRate := Max(MIN_FRAME_RATE, frameRate - 1);
    }

    /** The pause and editing keys of one key-down event: Space, then R, E, K and T. */
    method EditKeys(keys: Keys, bits: seq<bool>)
      requires keys.randomize ==> |bits| == CELLS
      modifies this`isPaused, this`activeCells
      ensures isPaused == (old(isPaused) != keys.space)
      ensures activeCells == Edited(keys, bits, old(activeCells))
    {
      if keys.space {
        TogglePause();
      }
      if keys.randomize {
        Randomize(bits);
      }
      if keys.fill {
        Fill();
      }
      if keys.clear {
        Clear();
      }
      if keys.invert {
        Invert();
      }
    }

    /** The stepping keys N and P while paused, otherwise the speed keys + and -. */
    method StepKeys(keys: Keys)
      requires Valid()
      modifies this`activeCells, this`generationStack
      modifies this`nextUpdate, this`previousGeneration, this`frameRate
      ensures Valid()
      ensures !isPaused ==>
        && activeCells == old(activeCells) && generationStack == old(generationStack)
        && nextUpdate == old(nextUpdate) && previousGeneration == old(previousGeneration)
        && frameRate == Adjusted(keys, old(frameRate))
      ensures isPaused ==>
        && frameRate == old(frameRate)
        && nextUpdate == (old(nextUpdate) || keys.next)
        && previousGeneration == (old(previousGeneration) || keys.previous)
        && generationStack == (if keys.previous && |old(generationStack)| > 1
                               then old(generationStack)[..|old(generationStack)| - 2]
                               else old(generationStack))
        && activeCells == (if keys.previous && |old(generationStack)| > 1
                           then old(generationStack)[|old(generationStack)| - 2]
                           else if keys.next then NextGeneration(old(activeCells))
                           else old(activeCells))
      ensures old(DepthTracked()) ==> DepthTracked()
    {
      if isPaused {
        if keys.next {
          RequestNextGeneration();
        }
        if keys.previous {
          RequestPreviousGeneration();
        }
      } else {
        if keys.faster {
          IncreaseFrameRate();
        }
        if keys.slower {
          DecreaseFrameRate();
        }
      }
    }

    /**
     * One key-down event: every held key's handler runs, in a fixed order.
     * The pause state that decides between the stepping keys and the speed
     * keys is read after Space has flipped it.
     */
    method KeyDown(keys: Keys, bits: seq<bool>)
      requires Valid()
      requires keys.randomize ==> |bits| == CELLS
      modifies this`isPaused, this`activeCells, this`generationStack
      modifies this`nextUpdate, this`previousGeneration, this`frameRate
      ensures Valid()
      ensures isPaused == (old(isPaused) != keys.space)
      ensures !isPaused ==>
        && activeCells == Edited(keys, bits, old(activeCells))
        && generationStack == old(generationStack)
        && nextUpdate == old(nextUpdate) && previousGeneration == old(previousGeneration)
        && frameRate == Adjusted(keys, old(frameRate))
      ensures isPaused ==>
        && frameRate == old(frameRate)
        && nextUpdate == (old(nextUpdate) || keys.next)
        && previousGeneration == (old(previousGeneration) || keys.previous)
        && generationStack == (if keys.previous && |old(generationStack)| > 1
                               then old(generationStack)[..|old(generationStack)| - 2]
                               else old(generationStack))
        && activeCells == (if keys.previous && |old(generationStack)| > 1
                           then old(generationStack)[|old(generationStack)| - 2]
                           else if keys.next then NextGeneration(Edited(keys, bits, old(activeCells)))
                           else Edited(keys, bits, old(activeCells)))
      ensures old(DepthTracked()) ==> DepthTracked()
    {
      EditKeys(keys, bits);
      StepKeys(keys);
    }
  }

  /** The keys held during one key-down event. */
  datatype Keys = Keys(
    space: bool, randomize: bool, fill: bool, clear: bool, invert: bool,
    next: bool, previous: bool, faster: bool, slower: bool)

  /** The live set after the editing keys R, E, K and T, applied in that order. */
  function Edited(keys: Keys, bits: seq<bool>, s: set<Cell>): (r: set<Cell>)
    requires keys.randomize ==> |bits| == CELLS
    ensures keys.randomize || keys.fill || keys.clear || keys.invert ==> forall c :: c in r ==> InViewport(c)
    ensures keys.clear && !keys.invert ==> r == {}
    ensures !keys.randomize && !keys.fill && !keys.clear && !keys.invert ==> r == s
  {
    var afterR := if keys.randomize then Randomized(bits) else s;
    var afterE := if keys.fill then Viewport() else afterR;
    var afterK := if keys.clear then {} else afterE;
    if keys.invert then Inverted(afterK) else afterK
  }

  /** The frame rate after + and then -, each clamped to the limits. */
  function Adjusted(keys: Keys, rate: int): (r: int)
    ensures MIN_FRAME_RATE <= rate <= MAX_FRAME_RATE ==> -1 <= r - rate <= 1
    ensures !keys.faster && !keys.slower ==> r == rate
  {
    var faster := if keys.faster then Min(MAX_FRAME_RATE, rate + 1) else rate;
    if keys.slower then Max(MIN_FRAME_RATE, faster - 1) else faster
  }

  /** Holding K and T together fills the viewport, whatever else was held: the clear runs before the invert. */
  lemma ClearThenInvertFills(keys: Keys, bits: seq<bool>, s: set<Cell>)
    requires keys.randomize ==> |bits| == CELLS
    requires keys.clear && keys.invert
    ensures Edited(keys, bits, s) == Viewport()
  {

  }

  /** The speed keys stay within the limits, and both held at the maximum slow the game down by one. */
  lemma AdjustedWithinLimits(keys: Keys, rate: int)
    requires MIN_FRAME_RATE <= rate <= MAX_FRAME_RATE
    ensures MIN_FRAME_RATE <= Adjusted(keys, rate) <= MAX_FRAME_RATE
    ensures keys.faster && keys.slower && rate == MAX_FRAME_RATE ==> Adjusted(keys, rate) == MAX_FRAME_RATE - 1
  {
  }

  function Min(a: int, b: int): int { if a <= b then a else b }
  function Max(a: int, b: int): int { if a >= b then a else b }

  /** From a fresh game with one clicked cell c, one paused step forward. */
  method OneStepForward(c: Cell) returns (g: Game)
    ensures fresh(g)
    ensures g.Valid() && g.isPaused && !g.nextUpdate && !g.previousGeneration
    ensures g.generation == 1 && |g.generationStack| == 1
  {
    g := new Game();
    g.Activate(c);
    g.RequestNextGeneration();
    assert !Evicts(GENERATION_STACK_SIZE, 0);
    g.UpdateGameScreen();
  }

  /**
   * N and P held in the same key event while one snapshot is stored: the
   * step back pops nothing, the next update takes the forward branch and
   * stores a second snapshot, and the one after that counts down because
   * two snapshots are left.
   */
  method StepKeysTogether(g: Game)
    requires g.Valid() && g.isPaused && !g.nextUpdate && !g.previousGeneration
    requires g.generation == 1 && |g.generationStack| == 1
    modifies g
    ensures g.generation == 1 && |g.generationStack| == 2
  {
    g.KeyDown(Keys(false, false, false, false, false, true, true, false, false), []);
    assert g.nextUpdate && g.previousGeneration && |g.generationStack| == 1;
    assert !Evicts(GENERATION_STACK_SIZE, 1);
    g.UpdateGameScreen();
    assert g.generation == 2 && |g.generationStack| == 2;
    assert !g.nextUpdate && g.previousGeneration;
    g.UpdateGameScreen();
  }

  /** The counter can fall below the history's length. */
  method SimultaneousStepKeys(c: Cell) returns (g: Game)
    ensures g.generation < |g.generationStack|
  {
    g := OneStepForward(c);
    StepKeysTogether(g);
  }
}
