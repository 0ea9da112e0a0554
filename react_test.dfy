/**
 * The reaction-time test (src/pages/ReactTest.tsx). After an age is
 * entered, `startTest` arms a timeout of 2 to 5 seconds; when it fires the
 * target is shown and the clock is read; the click that follows records
 * the reaction time. Attempts accumulate until `reset`; their average is
 * shown rounded to whole milliseconds, and each result gets a rating.
 *
 * `Math.random()` and `Date.now()` are parameters, and the timeout firing
 * is an explicit event.
 */
module ReactTest {
  import opened Wrappers
  import opened RandomDraw

  /** `Math.random() * 3000 + 2000`: the wait before the target appears. */
  function Delay(draw: real): (ms: real)
    requires IsUnit(draw)
    ensures 2000.0 <= ms < 5000.0
  {
    draw * 3000.0 + 2000.0
  }

  /**
   * `attempts.reduce((a, b) => a + b, 0)`: a left fold from 0. Reaction
   * times are never negative, and neither is their total.
   */
  function Sum(a: seq<int>): (r: int)
    ensures (forall i :: 0 <= i < |a| ==> a[i] >= 0) ==> r >= 0
  {
    if a == [] then 0 else Sum(a[..|a| - 1]) + a[|a| - 1]
  }

  /**
   * The fold adds up a concatenation half by half, so the total of a run of
   * attempts is the total of earlier ones plus that of later ones.
   */
  lemma {:induction false} SumAppend(a: seq<int>, b: seq<int>)
    ensures Sum(a + b) == Sum(a) + Sum(b)
    decreases |b|
  {
    if b == [] {
      assert a + b == a;
    } else {
      var c := b[..|b| - 1];
      assert (a + b)[..|a + b| - 1] == a + c;
      SumAppend(a, c);
    }
  }

  /**
   * `Math.round(n / d)` for a positive divisor: the integer nearest to the
   * quotient, a half rounded up.
   */
  function RoundedQuotient(n: int, d: int): (r: int)
    requires d > 0
    ensures 2 * (d * r) - d <= 2 * n < 2 * (d * r) + d
  {
    var q := (2 * n + d) / (2 * d);
    assert (2 * d) * q == 2 * (d * q);
    q
  }

  /** `d * m >= d` for a positive `d` and `m`. */
  lemma MulAtLeast(d: int, m: int)
    requires d > 0 && m >= 1
    ensures d * m >= d
  {
    assert d * m == d + d * (m - 1);
  }

  /** `d * (a - b) == d * a - d * b`, the one product rule the proofs below need. */
  lemma MulSub(d: int, a: int, b: int)
    ensures d * (a - b) == d * a - d * b
  {
  }

  /** Only one integer is nearest to `n / d` with halves rounded up. */
  lemma RoundedQuotientUnique(n: int, d: int, k: int)
    requires d > 0
    requires 2 * (d * k) - d <= 2 * n < 2 * (d * k) + d
    ensures k == RoundedQuotient(n, d)
  {
    var r := RoundedQuotient(n, d);
    if k < r {
      MulSub(d, r, k);
      MulAtLeast(d, r - k);
    } else if k > r {
      MulSub(d, k, r);
      MulAtLeast(d, k - r);
    }
  }

  /** `averageTime`: none without attempts, else the rounded mean. */
  function Average(attempts: seq<int>): (r: Option<int>)
    ensures r.None? <==> attempts == []
    ensures r.Some? ==>
      2 * (|attempts| * r.value) - |attempts| <= 2 * Sum(attempts) < 2 * (|attempts| * r.value) + |attempts|
  {
    if |attempts| > 0 then Some(RoundedQuotient(Sum(attempts), |attempts|)) else None
  }

  /** `|a| * lo <= Sum(a) <= |a| * hi` when every element lies in [lo, hi]. */
  lemma {:induction false} SumBounds(a: seq<int>, lo: int, hi: int)
    requires forall i :: 0 <= i < |a| ==> lo <= a[i] <= hi
    ensures |a| * lo <= Sum(a) <= |a| * hi
    decreases |a|
  {
    if a != [] {
      SumBounds(a[..|a| - 1], lo, hi);
      assert |a| * lo == (|a| - 1) * lo + lo;
      assert |a| * hi == (|a| - 1) * hi + hi;
    }
  }

  /** The average of attempts that all lie in [lo, hi] lies in [lo, hi] too. */
  lemma AverageWithinRange(attempts: seq<int>, lo: int, hi: int)
    requires attempts != []
    requires forall i :: 0 <= i < |attempts| ==> lo <= attempts[i] <= hi
    ensures lo <= Average(attempts).value <= hi
  {
    var n, r := |attempts|, Average(attempts).value;
    SumBounds(attempts, lo, hi);
    if r > hi {
      MulSub(n, r, hi);
      MulAtLeast(n, r - hi);
    }
    if r < lo {
      MulSub(n, lo, r);
      MulAtLeast(n, lo - r);
    }
  }

  /** The three verdicts the result card shows. */
  datatype Rating = Incredible | Great | Good

  /** The verdict for a reaction time in milliseconds. */
  function Rate(ms: int): (r: Rating)
    ensures r == Incredible <==> ms < 200
    ensures r == Great <==> 200 <= ms < 300
    ensures r == Good <==> 300 <= ms
  {
    if ms < 200 then Incredible else if ms < 300 then Great else Good
  }

  /** The text of each verdict. */
  function Label(r: Rating): (s: string)
    ensures s == "Incredible!" <==> r == Incredible
    ensures s == "Great!" <==> r == Great
    ensures s == "Good!" <==> r == Good
  {
    match r
    case Incredible => "Incredible!"
    case Great => "Great!"
    case Good => "Good!"
  }

  /** How good a verdict is, best highest. */
  function Rank(r: Rating): nat
  {
    match r
    case Incredible => 2
    case Great => 1
    case Good => 0
  }

  /** A faster reaction never gets a worse verdict. */
  lemma RateMonotone(fast: int, slow: int)
    requires fast <= slow
    ensures Rank(Rate(fast)) >= Rank(Rate(slow))
  {
  }

  /** Which of the page's panels is on screen. */
  datatype Phase = Idle | Waiting | TargetShown | Result

  class ReactionTest {
    var age: string
    var hasStarted: bool
    var showTarget: bool
    var startTime: int
    var reactionTime: Option<int>
    var attempts: seq<int>

    /** The shown result, if any, is the last recorded attempt. */
    ghost predicate Valid()
      reads this
    {
      reactionTime.Some? ==> |attempts| > 0 && reactionTime.value == attempts[|attempts| - 1]
    }

    /** The panel the page renders for the current state. */
    function CurrentPhase(): (p: Phase)
      reads this
      ensures p == Idle <==> !hasStarted && reactionTime.None?
      ensures p == Waiting <==> hasStarted && !showTarget
      ensures p == TargetShown <==> hasStarted && showTarget
      ensures p == Result <==> !hasStarted && reactionTime.Some?
    {
      if hasStarted then (if showTarget then TargetShown else Waiting)
      else if reactionTime.None? then Idle
      else Result
    }

    /** `averageTime` for the current attempts. */
    function AverageTime(): Option<int>
      reads this
    {
      Average(attempts)
    }

    constructor ()
      ensures Valid() && CurrentPhase() == Idle
      ensures age == "" && !hasStarted && !showTarget && startTime == 0
      ensures reactionTime == None && attempts == []
    {
      age := "";
      hasStarted := false;
      showTarget := false;
      startTime := 0;
      reactionTime := None;
      attempts := [];
    }

    /** The age input's `onChange`. */
    method SetAge(value: string)
      modifies this`age
      ensures age == value
    {
      age := value;
    }

    /**
     * `startTest`: with no age entered nothing happens and no timeout is
     * armed. Otherwise the waiting panel is shown and a timeout is armed
     * for the returned delay, which lies in [2000, 5000) ms.
     */
    method StartTest(draw: real) returns (timeout: Option<real>)
      requires Valid() && IsUnit(draw)
      modifies this`hasStarted, this`reactionTime, this`showTarget
      ensures Valid()
      ensures old(age) == "" ==>
        timeout.None? && hasStarted == old(hasStarted) && reactionTime == old(reactionTime) &&
        showTarget == old(showTarget)
      ensures old(age) != "" ==>
        hasStarted && reactionTime.None? && !showTarget && CurrentPhase() == Waiting &&
        timeout.Some? && 2000.0 <= timeout.value < 5000.0
    {
      if age == "" {
        return None;
      }
      hasStarted := true;
      reactionTime := None;
      showTarget := false;
      timeout := Some(Delay(draw));
    }

    /** The armed timeout firing at time `now`: the target appears and the clock starts. */
    method FireTimeout(now: int)
      requires Valid()
      modifies this`showTarget, this`startTime
      ensures Valid()
      ensures showTarget && startTime == now
      ensures old(CurrentPhase()) == Waiting ==> CurrentPhase() == TargetShown
    {
      showTarget := true;
      startTime := now;
    }

    /**
     * `handleClick` at time `now`: before the target is shown it does
     * nothing. Afterwards the reaction time is `now - startTime`, it is
     * appended to the attempts, and the result panel is shown.
     */
    method HandleClick(now: int)
      requires Valid()
      modifies this`reactionTime, this`attempts, this`showTarget, this`hasStarted
      ensures Valid()
      ensures !old(showTarget) ==>
        reactionTime == old(reactionTime) && attempts == old(attempts) &&
        showTarget == old(showTarget) && hasStarted == old(hasStarted)
      ensures old(showTarget) ==>
        reactionTime == Some(now - startTime) &&
        attempts == old(attempts) + [now - startTime] &&
        |attempts| == |old(attempts)| + 1 &&
        !showTarget && !hasStarted && CurrentPhase() == Result
    {
      if !showTarget {
        return;
      }
      var time := now - startTime;
      reactionTime := Some(time);
      attempts := attempts + [time];
      showTarget := false;
      hasStarted := false;
    }

    /** `reset`: the age and every attempt are forgotten. */
    method Reset()
      modifies this`age, this`hasStarted, this`showTarget, this`reactionTime, this`attempts
      ensures Valid() && CurrentPhase() == Idle && AverageTime().None?
      ensures age == "" && !hasStarted && !showTarget && reactionTime.None? && attempts == []
    {
      age := "";
      hasStarted := false;
      showTarget := false;
      reactionTime := None;
      attempts := [];
    }
  }

  /**
   * One full round: start, the timeout firing at `shownAt`, the click at
   * `clickedAt`. The reaction time is the difference, and it becomes the
   * newest attempt.
   */
  method OneRound(t: ReactionTest, draw: real, shownAt: int, clickedAt: int)
    requires t.Valid() && IsUnit(draw) && t.age != ""
    modifies t
    ensures t.Valid() && t.CurrentPhase() == Result
    ensures t.reactionTime == Some(clickedAt - shownAt)
    ensures t.attempts == old(t.attempts) + [clickedAt - shownAt]
  {
    var timeout := t.StartTest(draw);
    t.FireTimeout(shownAt);
    t.HandleClick(clickedAt);
  }
}
