/**
 * The start-up splash screen (src/components/SplashScreen.tsx). A 30 ms
 * interval advances a progress counter by 2 until it reaches 100; the first
 * tick that finds it at 100 stops the interval and arms a 300 ms timeout
 * that fades the screen out and arms a 500 ms timeout calling `onComplete`.
 * Every timer firing is an explicit event.
 */
module SplashScreen {

  /** The `setProgress` updater the interval runs at every tick. */
  function Advance(prev: int): (next: int)
    ensures prev < 100 ==> next == prev + 2
    ensures prev >= 100 ==> next == 100
    ensures 0 <= prev <= 100 && prev % 2 == 0 ==> prev <= next <= 100 && next % 2 == 0
  {
    if prev >= 100 then 100 else prev + 2
  }

  /** Whether the tick that sees `prev` is the one that completes loading. */
  predicate ObservesFull(prev: int)
  {
    prev >= 100
  }

  /** The progress shown after `n` ticks. */
  function ProgressAfter(n: nat): int
  {
    if n == 0 then 0 else Advance(ProgressAfter(n - 1))
  }

  /** After `n` ticks the bar shows twice `n`, capped at 100. */
  lemma {:induction false} ProgressAfterIs(n: nat)
    ensures ProgressAfter(n) == if n <= 50 then 2 * n else 100
  {
    if n > 0 {
      ProgressAfterIs(n - 1);
    }
  }

  /** Progress never goes down from one tick to the next. */
  lemma ProgressNeverDecreases(m: nat, n: nat)
    requires m <= n
    ensures ProgressAfter(m) <= ProgressAfter(n)
  {
    ProgressAfterIs(m);
    ProgressAfterIs(n);
  }

  /**
   * Tick 51 is the first to observe a full bar: ticks 1 to 50 see less
   * than 100, and tick 51 sees the 100 that tick 50 produced.
   */
  lemma CompletesOnTick51(k: nat)
    ensures ObservesFull(ProgressAfter(k)) <==> k >= 50
  {
    ProgressAfterIs(k);
  }

  class Splash {
    var progress: int
    var fadeOut: bool
    /** Whether the interval is still set. */
    var running: bool
    /** Whether the 300 ms fade timeout is armed. */
    var fadePending: bool
    /** Whether the 500 ms completion timeout is armed. */
    var completePending: bool
    /** How many times `onComplete` has been called. */
    var completions: nat

    /** What every reachable state satisfies. */
    ghost predicate Valid()
      reads this
    {
      0 <= progress <= 100 && progress % 2 == 0 &&
      (running ==> !fadePending && !fadeOut && !completePending && completions == 0) &&
      (!running ==> progress == 100) &&
      (fadePending ==> !fadeOut && !completePending && completions == 0) &&
      (completePending ==> fadeOut && completions == 0) &&
      (fadeOut ==> !running && !fadePending) &&
      completions <= 1 &&
      (completions == 1 ==> fadeOut && !completePending)
    }

    /** Mounting the screen: nothing shown yet and the interval set. */
    constructor ()
      ensures Valid()
      ensures progress == 0 && !fadeOut && running && !fadePending && !completePending && completions == 0
    {
      progress := 0;
      fadeOut := false;
      running := true;
      fadePending := false;
      completePending := false;
      completions := 0;
    }

    /**
     * One firing of the interval. Below 100 the progress goes up by 2;
     * at 100 it stays, the interval is cleared and the fade timeout armed.
     * Once the interval is cleared there are no more firings.
     */
    method Tick()
      requires Valid()
      modifies this`progress, this`running, this`fadePending
      ensures Valid()
      ensures old(running) ==> progress == Advance(old(progress))
      ensures old(running) ==> (running <==> !ObservesFull(old(progress)))
      ensures old(running) ==> (fadePending <==> ObservesFull(old(progress)))
      ensures !old(running) ==> progress == old(progress) && !running && fadePending == old(fadePending)
      ensures progress >= old(progress)
    {
      if !running {
        return;
      }
      if progress >= 100 {
        running := false;
        fadePending := true;
        progress := 100;
      } else {
        progress := progress + 2;
      }
    }

    /** The 300 ms timeout: the screen fades and the completion timeout is armed. */
    method FireFade()
      requires Valid() && fadePending
      modifies this`fadeOut, this`fadePending, this`completePending
      ensures Valid()
      ensures fadeOut && !fadePending && completePending
    {
      fadePending := false;
      fadeOut := true;
      completePending := true;
    }

    /** The 500 ms timeout: `onComplete` is called, once. */
    method FireComplete()
      requires Valid() && completePending
      modifies this`completePending, this`completions
      ensures Valid()
      ensures !completePending && completions == old(completions) + 1 == 1
    {
      completePending := false;
      completions := completions + 1;
    }
  }

  /**
   * From mounting, the interval runs for exactly 51 ticks; after them the
   * bar is full, the interval is cleared and the fade is armed; the fade
   * and completion timeouts then call `onComplete` exactly once.
   */
  method RunToCompletion() returns (s: Splash, ticks: nat)
    ensures s.Valid() && ticks == 51
    ensures s.progress == 100 && !s.running && s.fadeOut && s.completions == 1
  {
    s := new Splash();
    ticks := 0;
    while s.running
      invariant s.Valid()
      invariant ticks <= 51
      invariant s.progress == ProgressAfter(ticks)
      invariant s.running <==> ticks <= 50
      invariant !s.running ==> ticks == 51 && s.fadePending
      decreases 51 - ticks
    {
      CompletesOnTick51(ticks);
      ProgressAfterIs(ticks);
      s.Tick();
      ticks := ticks + 1;
    }
    s.FireFade();
    s.FireComplete();
  }
}
