/**
 * What the two strafe overlays share: the browser's `KeyboardEvent.key`
 * lower-cased, and the six keyboard keys they recognise.
 */
module KeyInput {
  import opened Wrappers

  /** Lower-case of one character; only 'A'..'Z' have one in this model. */
  function LowerChar(c: char): (r: char)
    ensures 'A' <= c <= 'Z' ==> 'a' <= r <= 'z' && r as int - c as int == 32
    ensures !('A' <= c <= 'Z') ==> r == c
  {
    if 'A' <= c <= 'Z' then (c as int + 32) as char else c
  }

  /** `String.prototype.toLowerCase`, restricted to ASCII letters. */
  function Lower(s: string): (r: string)
    ensures |r| == |s|
    ensures forall i :: 0 <= i < |s| ==> r[i] == LowerChar(s[i])
  {
    if s == [] then [] else [LowerChar(s[0])] + Lower(s[1..])
  }

  /** The keyboard keys both overlays display. */
  datatype KeyName = W | A | S | D | Space | Ctrl

  /** The lower-cased `e.key` value that names each key. */
  function KeyValue(n: KeyName): string
  {
    match n
    case W => "w"
    case A => "a"
    case S => "s"
    case D => "d"
    case Space => " "
    case Ctrl => "control"
  }

  /** Which key, if any, a lower-cased `e.key` value names. */
  function Recognize(key: string): Option<KeyName>
  {
    if key == "w" then Some(W)
    else if key == "a" then Some(A)
    else if key == "s" then Some(S)
    else if key == "d" then Some(D)
    else if key == " " then Some(Space)
    else if key == "control" then Some(Ctrl)
    else None
  }

  /** Each key's own value is recognised as that key. */
  lemma RecognizeKeyValue(n: KeyName)
    ensures Recognize(KeyValue(n)) == Some(n)
  {
  }

  /** A value is recognised only when it is exactly the value of the key found. */
  lemma RecognizedIsKeyValue(key: string)
    ensures Recognize(key).Some? ==> KeyValue(Recognize(key).value) == key
  {
  }

  /** An event the overlays listen to on `window`. */
  datatype Input =
    | KeyDown(key: string)
    | KeyUp(key: string)
    | MouseDown(button: int)
    | MouseUp(button: int)

  /** Lower-casing twice is lower-casing once. */
  lemma {:induction false} LowerIdempotent(s: string)
    ensures Lower(Lower(s)) == Lower(s)
  {
    if s != [] {
      LowerIdempotent(s[1..]);
      assert Lower(s)[0] == LowerChar(s[0]);
      assert Lower(s)[1..] == Lower(s[1..]);
    }
  }
}
