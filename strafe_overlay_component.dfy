/**
 * The strafe key card (src/components/StrafeOverlay.tsx): eight flags for
 * W, A, S, D, Space, Ctrl and the two mouse buttons. Pressing A releases D
 * and pressing D releases A, so at most one strafe direction is shown.
 * The file also holds `cn`, the class-name joiner.
 */
module StrafeOverlayComponent {
  import opened Wrappers
  import opened KeyInput

  datatype Keys = Keys(
    w: bool, a: bool, s: bool, d: bool,
    space: bool, ctrl: bool,
    mouse1: bool, mouse2: bool)

  /** The state before any event: nothing is pressed. */
  const Initial: Keys := Keys(false, false, false, false, false, false, false, false)

  /** The two strafe keys are never shown pressed together. */
  predicate Exclusive(k: Keys)
  {
    !(k.a && k.d)
  }

  /** The flag that displays keyboard key `n`. */
  function Get(k: Keys, n: KeyName): bool
  {
    match n
    case W => k.w
    case A => k.a
    case S => k.s
    case D => k.d
    case Space => k.space
    case Ctrl => k.ctrl
  }

  /** `k` with key `n`'s flag set to `v` and every other flag as it was. */
  function Set(k: Keys, n: KeyName, v: bool): (r: Keys)
    ensures Get(r, n) == v
    ensures forall m: KeyName :: m != n ==> Get(r, m) == Get(k, m)
    ensures r.mouse1 == k.mouse1 && r.mouse2 == k.mouse2
  {
    match n
    case W => Keys(v, k.a, k.s, k.d, k.space, k.ctrl, k.mouse1, k.mouse2)
    case A => Keys(k.w, v, k.s, k.d, k.space, k.ctrl, k.mouse1, k.mouse2)
    case S => Keys(k.w, k.a, v, k.d, k.space, k.ctrl, k.mouse1, k.mouse2)
    case D => Keys(k.w, k.a, k.s, v, k.space, k.ctrl, k.mouse1, k.mouse2)
    case Space => Keys(k.w, k.a, k.s, k.d, v, k.ctrl, k.mouse1, k.mouse2)
    case Ctrl => Keys(k.w, k.a, k.s, k.d, k.space, v, k.mouse1, k.mouse2)
  }

  /**
   * What a keydown of key `n` does, flag by flag: each recognised key sets
   * its own flag, and A and D also clear each other; an unrecognised key
   * (`None`) matches nothing.
   */
  function Press(k: Keys, n: Option<KeyName>): Keys
  {
    Keys(
      k.w || n == Some(W),
      if n == Some(A) then true else if n == Some(D) then false else k.a,
      k.s || n == Some(S),
      if n == Some(D) then true else if n == Some(A) then false else k.d,
      k.space || n == Some(Space),
      k.ctrl || n == Some(Ctrl),
      k.mouse1, k.mouse2)
  }

  /** A strafe key is pressed and its opposite released. */
  lemma PressStrafeKey(k: Keys)
    ensures Press(k, Some(A)) == Set(Set(k, A, true), D, false)
    ensures Press(k, Some(D)) == Set(Set(k, D, true), A, false)
  {
  }

  /** Any other recognised key is pressed alone. */
  lemma PressOtherKey(k: Keys, n: KeyName)
    ensures n != A && n != D ==> Press(k, Some(n)) == Set(k, n, true)
  {
    match n
    case W =>
    case A =>
    case S =>
    case D =>
    case Space =>
    case Ctrl =>
  }

  /** A keydown never touches the mouse flags and keeps A and D exclusive. */
  lemma PressKeepsMouseAndExclusion(k: Keys, n: Option<KeyName>)
    ensures Press(k, n).mouse1 == k.mouse1 && Press(k, n).mouse2 == k.mouse2
    ensures Exclusive(k) ==> Exclusive(Press(k, n))
  {
  }

  /**
   * `handleKeyDown`: lower-case the key, copy the previous flags, then
   * overwrite them one by one. Each `key === "..."` test of the source is a
   * test of which key the string names.
   */
  method HandleKeyDown(prev: Keys, eventKey: string) returns (newKeys: Keys)
    ensures newKeys == Press(prev, Recognize(Lower(eventKey)))
  {
    var key := Recognize(Lower(eventKey));
    newKeys := OverwriteKeys(prev, key);
  }

  /**
   * The body of the `setKeys` updater in `handleKeyDown`: the copy
   * `{ ...prev }` is held flag by flag, overwritten in the source's order,
   * and returned as a new state.
   */
  method OverwriteKeys(prev: Keys, key: Option<KeyName>) returns (newKeys: Keys)
    ensures newKeys == Press(prev, key)
  {
    var w, a, s, d, space, ctrl := prev.w, prev.a, prev.s, prev.d, prev.space, prev.ctrl;
    if key == Some(W) { w := true; }
    if key == Some(S) { s := true; }
    if key == Some(Space) { space := true; }
    if key == Some(Ctrl) { ctrl := true; }
    if key == Some(A) {
      a := true;
      d := false;
    }
    if key == Some(D) {
      d := true;
      a := false;
    }
    newKeys := Keys(w, a, s, d, space, ctrl, prev.mouse1, prev.mouse2);
  }

  /** What a keyup of key `n` does: that flag alone is cleared. */
  function Release(prev: Keys, key: Option<KeyName>): Keys
  {
    Keys(
      if key == Some(W) then false else prev.w,
      if key == Some(A) then false else prev.a,
      if key == Some(S) then false else prev.s,
      if key == Some(D) then false else prev.d,
      if key == Some(Space) then false else prev.space,
      if key == Some(Ctrl) then false else prev.ctrl,
      prev.mouse1, prev.mouse2)
  }

  /** A keyup clears the released key's flag and nothing else. */
  lemma ReleaseClearsOnlyThatKey(prev: Keys, n: KeyName)
    ensures Release(prev, Some(n)) == Set(prev, n, false)
  {
    match n
    case W =>
    case A =>
    case S =>
    case D =>
    case Space =>
    case Ctrl =>
  }

  /** A key that names no flag changes nothing, on keydown or on keyup. */
  lemma UnknownKeyChangesNothing(k: Keys)
    ensures Press(k, None) == k
    ensures Release(k, None) == k
  {
  }

  /**
   * `handleKeyUp`: every flag is rebuilt from `prev`, the released one as
   * false. Keyup has no exclusion: only the released key's flag changes.
   */
  function HandleKeyUp(prev: Keys, eventKey: string): (r: Keys)
    ensures Recognize(Lower(eventKey)).None? ==> r == prev
    ensures Recognize(Lower(eventKey)).Some? ==> r == Set(prev, Recognize(Lower(eventKey)).value, false)
  {
    var key := Recognize(Lower(eventKey));
    if key.Some? then
      ReleaseClearsOnlyThatKey(prev, key.value);
      Release(prev, key)
    else
      Release(prev, key)
  }

  /** `handleMouseDown`: button 0 drives `mouse1`, button 2 drives `mouse2`. */
  function HandleMouseDown(prev: Keys, button: int): (r: Keys)
    ensures button == 0 ==> r == prev.(mouse1 := true)
    ensures button == 2 ==> r == prev.(mouse2 := true)
    ensures button != 0 && button != 2 ==> r == prev
  {
    prev.(
      mouse1 := if button == 0 then true else prev.mouse1,
      mouse2 := if button == 2 then true else prev.mouse2)
  }

  /** `handleMouseUp`: the release of the same buttons. */
  function HandleMouseUp(prev: Keys, button: int): (r: Keys)
    ensures button == 0 ==> r == prev.(mouse1 := false)
    ensures button == 2 ==> r == prev.(mouse2 := false)
    ensures button != 0 && button != 2 ==> r == prev
  {
    prev.(
      mouse1 := if button == 0 then false else prev.mouse1,
      mouse2 := if button == 2 then false else prev.mouse2)
  }

  /** One window event applied to the key state (keydown as `HandleKeyDown` promises). */
  function Step(k: Keys, e: Input): Keys
  {
    match e
    case KeyDown(key) => Press(k, Recognize(Lower(key)))
    case KeyUp(key) => HandleKeyUp(k, key)
    case MouseDown(b) => HandleMouseDown(k, b)
    case MouseUp(b) => HandleMouseUp(k, b)
  }

  /** The key state after a sequence of events, in arrival order. */
  function Run(k: Keys, events: seq<Input>): Keys
    decreases |events|
  {
    if events == [] then k else Run(Step(k, events[0]), events[1..])
  }

  /** A and D are never both shown pressed, whatever the events. */
  lemma {:induction false} RunKeepsExclusive(k: Keys, events: seq<Input>)
    requires Exclusive(k)
    ensures Exclusive(Run(k, events))
    decreases |events|
  {
    if events != [] {
      StepKeepsExclusive(k, events[0]);
      RunKeepsExclusive(Step(k, events[0]), events[1..]);
    }
  }

  /** No single event presses both strafe keys. */
  lemma StepKeepsExclusive(k: Keys, e: Input)
    requires Exclusive(k)
    ensures Exclusive(Step(k, e))
  {
    match e
    case KeyDown(key) =>
    case KeyUp(key) =>
      var n := Recognize(Lower(key));
      assert Release(k, n).a ==> k.a;
      assert Release(k, n).d ==> k.d;
    case MouseDown(b) =>
    case MouseUp(b) =>
  }

  /** From the initial state, every reachable state has A and D exclusive. */
  lemma ReachableIsExclusive(events: seq<Input>)
    ensures Exclusive(Run(Initial, events))
  {
    RunKeepsExclusive(Initial, events);
  }

  /** A key and its lower-cased spelling are the same event. */
  lemma CaseInsensitive(k: Keys, eventKey: string)
    ensures Step(k, KeyDown(eventKey)) == Step(k, KeyDown(Lower(eventKey)))
    ensures Step(k, KeyUp(eventKey)) == Step(k, KeyUp(Lower(eventKey)))
  {
    LowerIdempotent(eventKey);
  }
}

/**
 * `cn` from the same file: the class names that are not falsy (empty),
 * joined by single spaces.
 */
module ClassNames {

  /** `inputs.filter(Boolean)`: the non-empty strings, in order. */
  function NonEmpty(inputs: seq<string>): (r: seq<string>)
    ensures |r| <= |inputs|
    ensures forall i :: 0 <= i < |r| ==> r[i] != ""
    ensures forall x :: x in r <==> x in inputs && x != ""
    ensures r == [] <==> forall i :: 0 <= i < |inputs| ==> inputs[i] == ""
  {
    if inputs == [] then []
    else if inputs[0] == "" then NonEmpty(inputs[1..])
    else [inputs[0]] + NonEmpty(inputs[1..])
  }

  /** The total length of the parts. */
  function Lengths(parts: seq<string>): nat
  {
    if parts == [] then 0 else |parts[0]| + Lengths(parts[1..])
  }

  /**
   * `Array.prototype.join(sep)`: every part once, in order, with one
   * separator between neighbours and none at either end.
   */
  function Join(parts: seq<string>, sep: string): (r: string)
    ensures parts != [] ==> |r| == Lengths(parts) + (|parts| - 1) * |sep|
    ensures parts != [] ==> r[..|parts[0]|] == parts[0]
  {
    if parts == [] then ""
    else if |parts| == 1 then parts[0]
    else parts[0] + sep + Join(parts[1..], sep)
  }

  /** `cn(...inputs)`, with every input a string and "" the only falsy one. */
  function Cn(inputs: seq<string>): (r: string)
    ensures r == "" <==> forall i :: 0 <= i < |inputs| ==> inputs[i] == ""
  {
    JoinOfNonEmpty(NonEmpty(inputs), " ");
    Join(NonEmpty(inputs), " ")
  }

  /**
   * The filter keeps order and multiplicity: filtering a concatenation is
   * the concatenation of the filtered halves.
   */
  lemma {:induction false} NonEmptyAppend(a: seq<string>, b: seq<string>)
    ensures NonEmpty(a + b) == NonEmpty(a) + NonEmpty(b)
  {
    if a != [] {
      assert (a + b)[0] == a[0];
      assert (a + b)[1..] == a[1..] + b;
      NonEmptyAppend(a[1..], b);
    } else {
      assert a + b == b;
    }
  }

  /**
   * `cn` one input at a time, for every input: an empty first input is
   * dropped, and a non-empty one is followed by a space only when
   * something non-empty follows it.
   */
  lemma CnCons(x: string, rest: seq<string>)
    ensures Cn([x] + rest) == if x == "" then Cn(rest)
                              else if Cn(rest) == "" then x
                              else x + " " + Cn(rest)
  {
    assert ([x] + rest)[0] == x;
    assert ([x] + rest)[1..] == rest;
    var tail := NonEmpty(rest);
    if x != "" {
      assert NonEmpty([x] + rest) == [x] + tail;
      JoinOfNonEmpty(tail, " ");
      if tail != [] {
        assert ([x] + tail)[1..] == tail;
      }
    }
  }

  /**
   * The card's own call: the fixed classes, then the background classes the
   * transparency toggle picks, separated by one space.
   */
  lemma CardClassName(transparentMode: bool)
    ensures var background := if transparentMode then "bg-background/20 backdrop-blur-md"
                              else "bg-card/90 backdrop-blur-sm";
            Cn(["relative p-8 border-2 border-primary/30 shadow-2xl", background])
            == "relative p-8 border-2 border-primary/30 shadow-2xl" + " " + background
  {
    var background := if transparentMode then "bg-background/20 backdrop-blur-md"
                      else "bg-card/90 backdrop-blur-sm";
    CnCons(background, []);
    assert [background] + [] == [background];
    CnCons("relative p-8 border-2 border-primary/30 shadow-2xl", [background]);
  }

  /** Joining non-empty parts gives "" exactly when there are none. */
  lemma JoinOfNonEmpty(parts: seq<string>, sep: string)
    requires forall i :: 0 <= i < |parts| ==> parts[i] != ""
    ensures Join(parts, sep) == "" <==> parts == []
  {
    if |parts| >= 1 {
      assert |Join(parts, sep)| >= |parts[0]| > 0;
    }
  }

  /** `s.split(c)`: the pieces between occurrences of `c`. */
  function Split(s: string, c: char): (r: seq<string>)
    ensures |r| >= 1
  {
    if s == [] then [""]
    else
      var rest := Split(s[1..], c);
      if s[0] == c then [""] + rest else [[s[0]] + rest[0]] + rest[1..]
  }

  /** A piece without the separator splits to itself. */
  lemma {:induction false} SplitWithoutSeparator(p: string, c: char)
    requires c !in p
    ensures Split(p, c) == [p]
  {
    if p != [] {
      SplitWithoutSeparator(p[1..], c);
      assert [p[0]] + p[1..] == p;
    }
  }

  /** Splitting stops at the first separator. */
  lemma {:induction false} SplitAtSeparator(p: string, c: char, rest: string)
    requires c !in p
    ensures Split(p + [c] + rest, c) == [p] + Split(rest, c)
  {
    if p == [] {
      assert p + [c] + rest == [c] + rest;
      assert ([c] + rest)[1..] == rest;
    } else {
      SplitAtSeparator(p[1..], c, rest);
      var s := p + [c] + rest;
      assert s[0] == p[0] && s[0] != c;
      assert s[1..] == p[1..] + [c] + rest;
      assert [p[0]] + p[1..] == p;
    }
  }

  /** Joined parts without the separator split back into the parts. */
  lemma {:induction false} SplitJoin(parts: seq<string>, c: char)
    requires parts != []
    requires forall i :: 0 <= i < |parts| ==> c !in parts[i]
    ensures Split(Join(parts, [c]), c) == parts
    decreases |parts|
  {
    if |parts| == 1 {
      SplitWithoutSeparator(parts[0], c);
    } else {
      var tail := Join(parts[1..], [c]);
      assert Join(parts, [c]) == parts[0] + [c] + tail;
      SplitJoin(parts[1..], c);
      SplitAtSeparator(parts[0], c, tail);
      assert [parts[0]] + parts[1..] == parts;
    }
  }

  /**
   * `cn` loses nothing: when no class name contains a space and at least
   * one is non-empty, splitting its result on spaces gives back exactly the
   * non-empty inputs, in their order.
   */
  lemma CnSplitsBack(inputs: seq<string>)
    requires exists i :: 0 <= i < |inputs| && inputs[i] != ""
    requires forall i :: 0 <= i < |inputs| ==> ' ' !in inputs[i]
    ensures Split(Cn(inputs), ' ') == NonEmpty(inputs)
  {
    var parts := NonEmpty(inputs);
    forall i | 0 <= i < |parts|
      ensures ' ' !in parts[i]
    {
      assert parts[i] in inputs;
    }
    SplitJoin(parts, ' ');
  }
}
