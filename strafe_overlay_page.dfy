/**
 * The full-page strafe overlay (src/pages/StrafeOverlay.tsx): eight
 * independent flags, one per key or mouse button, set on press and cleared
 * on release. Unlike the card component there is no A/D exclusion here.
 */
module StrafeOverlayPage {
  import opened Wrappers
  import opened KeyInput

  datatype Keys = Keys(
    w: bool, a: bool, s: bool, d: bool,
    space: bool, ctrl: bool,
    leftMouse: bool, rightMouse: bool)

  /** The state before any event: nothing is pressed. */
  const Initial: Keys := Keys(false, false, false, false, false, false, false, false)

  /** The flag that displays keyboard key `n`. */
  function Get(k: Keys, n: KeyName): bool
  {
    match n
    case W => k.w
    case A => k.a
    case S => k.s
    case D => k.d
    case Space => k.space
    case Ctrl => k.ctrl
  }

  /** `k` with key `n`'s flag set to `v` and every other flag as it was. */
  function Set(k: Keys, n: KeyName, v: bool): (r: Keys)
    ensures Get(r, n) == v
    ensures forall m: KeyName :: m != n ==> Get(r, m) == Get(k, m)
    ensures r.leftMouse == k.leftMouse && r.rightMouse == k.rightMouse
  {
    match n
    case W => Keys(v, k.a, k.s, k.d, k.space, k.ctrl, k.leftMouse, k.rightMouse)
    case A => Keys(k.w, v, k.s, k.d, k.space, k.ctrl, k.leftMouse, k.rightMouse)
    case S => Keys(k.w, k.a, v, k.d, k.space, k.ctrl, k.leftMouse, k.rightMouse)
    case D => Keys(k.w, k.a, k.s, v, k.space, k.ctrl, k.leftMouse, k.rightMouse)
    case Space => Keys(k.w, k.a, k.s, k.d, v, k.ctrl, k.leftMouse, k.rightMouse)
    case Ctrl => Keys(k.w, k.a, k.s, k.d, k.space, v, k.leftMouse, k.rightMouse)
  }

  /** The same flag written to the same name, one `setKeys` updater per branch. */
  function SetByValue(k: Keys, key: string, v: bool): Keys
  {
    if key == "w" then Keys(v, k.a, k.s, k.d, k.space, k.ctrl, k.leftMouse, k.rightMouse)
    else if key == "a" then Keys(k.w, v, k.s, k.d, k.space, k.ctrl, k.leftMouse, k.rightMouse)
    else if key == "s" then Keys(k.w, k.a, v, k.d, k.space, k.ctrl, k.leftMouse, k.rightMouse)
    else if key == "d" then Keys(k.w, k.a, k.s, v, k.space, k.ctrl, k.leftMouse, k.rightMouse)
    else if key == " " then Keys(k.w, k.a, k.s, k.d, v, k.ctrl, k.leftMouse, k.rightMouse)
    else if key == "control" then Keys(k.w, k.a, k.s, k.d, k.space, v, k.leftMouse, k.rightMouse)
    else k
  }

  /** Writing by key value writes the flag of the key the value names. */
  lemma SetByValueIsSet(k: Keys, key: string, v: bool)
    ensures Recognize(key).Some? ==> SetByValue(k, key, v) == Set(k, Recognize(key).value, v)
    ensures Recognize(key).None? ==> SetByValue(k, key, v) == k
  {
    if key == "w" {
    } else if key == "a" {
    } else if key == "s" {
    } else if key == "d" {
    } else if key == " " {
    } else if key == "control" {
    }
  }

  /** `handleKeyDown`: the recognised key's flag becomes true, nothing else moves. */
  function HandleKeyDown(k: Keys, eventKey: string): (r: Keys)
    ensures Recognize(Lower(eventKey)).Some? ==> r == Set(k, Recognize(Lower(eventKey)).value, true)
    ensures Recognize(Lower(eventKey)).None? ==> r == k
  {
    SetByValueIsSet(k, Lower(eventKey), true);
    SetByValue(k, Lower(eventKey), true)
  }

  /** `handleKeyUp`: the recognised key's flag becomes false, nothing else moves. */
  function HandleKeyUp(k: Keys, eventKey: string): (r: Keys)
    ensures Recognize(Lower(eventKey)).Some? ==> r == Set(k, Recognize(Lower(eventKey)).value, false)
    ensures Recognize(Lower(eventKey)).None? ==> r == k
  {
    SetByValueIsSet(k, Lower(eventKey), false);
    SetByValue(k, Lower(eventKey), false)
  }

  /** `handleMouseDown`: button 0 is the left button, button 2 the right one. */
  function HandleMouseDown(k: Keys, button: int): (r: Keys)
    ensures button == 0 ==> r == k.(leftMouse := true)
    ensures button == 2 ==> r == k.(rightMouse := true)
    ensures button != 0 && button != 2 ==> r == k
  {
    var k1 := if button == 0 then k.(leftMouse := true) else k;
    if button == 2 then k1.(rightMouse := true) else k1
  }

  /** `handleMouseUp`: the release of the same buttons. */
  function HandleMouseUp(k: Keys, button: int): (r: Keys)
    ensures button == 0 ==> r == k.(leftMouse := false)
    ensures button == 2 ==> r == k.(rightMouse := false)
    ensures button != 0 && button != 2 ==> r == k
  {
    var k1 := if button == 0 then k.(leftMouse := false) else k;
    if button == 2 then k1.(rightMouse := false) else k1
  }

  /** One window event applied to the key state. */
  function Step(k: Keys, e: Input): Keys
  {
    match e
    case KeyDown(key) => HandleKeyDown(k, key)
    case KeyUp(key) => HandleKeyUp(k, key)
    case MouseDown(b) => HandleMouseDown(k, b)
    case MouseUp(b) => HandleMouseUp(k, b)
  }

  /** The key state after a sequence of events, in arrival order. */
  function Run(k: Keys, events: seq<Input>): Keys
    decreases |events|
  {
    if events == [] then k else Run(Step(k, events[0]), events[1..])
  }

  /** Pressing then releasing a key leaves its flag false and every other flag as before. */
  lemma PressThenRelease(k: Keys, eventKey: string)
    ensures Recognize(Lower(eventKey)).Some? ==>
      HandleKeyUp(HandleKeyDown(k, eventKey), eventKey) == Set(k, Recognize(Lower(eventKey)).value, false)
    ensures Recognize(Lower(eventKey)).None? ==>
      HandleKeyUp(HandleKeyDown(k, eventKey), eventKey) == k
  {
    match Recognize(Lower(eventKey))
    case None =>
    case Some(n) =>
      SetTwice(k, n, true, false);
  }

  /** Writing a flag twice keeps only the second write. */
  lemma SetTwice(k: Keys, n: KeyName, u: bool, v: bool)
    ensures Set(Set(k, n, u), n, v) == Set(k, n, v)
  {
    match n
    case W =>
    case A =>
    case S =>
    case D =>
    case Space =>
    case Ctrl =>
  }

  /** With no exclusion, holding A and D together shows both as pressed. */
  lemma StrafeKeysAreIndependent()
    ensures var k := Run(Initial, [KeyDown("a"), KeyDown("D")]); k.a && k.d
  {
    var k1 := HandleKeyDown(Initial, "a");
    assert Lower("D") == "d";
    assert Run(Initial, [KeyDown("a"), KeyDown("D")]) == Run(k1, [KeyDown("D")]);
  }

  /** Key events never touch a mouse flag. */
  lemma {:induction false} KeyEventsKeepMouse(k: Keys, events: seq<Input>)
    requires forall i :: 0 <= i < |events| ==> events[i].KeyDown? || events[i].KeyUp?
    ensures Run(k, events).leftMouse == k.leftMouse
    ensures Run(k, events).rightMouse == k.rightMouse
    decreases |events|
  {
    if events != [] {
      KeyEventsKeepMouse(Step(k, events[0]), events[1..]);
    }
  }
}
