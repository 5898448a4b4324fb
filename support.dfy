/**
 * Small building blocks shared by the rest of the model: optional values,
 * Python-style error results, Python's `int()` on a float, and the
 * elementary functions (sin, cos, sqrt, atan2) that numpy supplies and that
 * this model receives as parameters instead of defining.
 */
module Support {

  datatype Option<+T> = None | Some(value: T)

  /** The exceptions the modelled code raises. */
  datatype Error =
    | ValueError(message: string)
    | ZeroDivisionError

  datatype Result<+T> = Ok(value: T) | Err(error: Error)

  /** numpy's `np.pi`, as the double-precision literal it is. */
  const Pi: real := 3.141592653589793

  /**
   * Transcendental functions the source takes from numpy. They are left
   * abstract: every lemma that needs a fact about them states it as a
   * precondition (for example `sin(0) == 0`).
   */
  datatype Elementary = Elementary(
    sin: real -> real,
    cos: real -> real,
    sqrt: real -> real,
    atan2: (real, real) -> real)

  /** A Python 3-tuple of floats: a position, a (roll, pitch, yaw) orientation or a direction. */
  datatype Point3 = Point3(x: real, y: real, z: real)

  function Abs(x: real): (r: real)
    ensures r >= 0.0
    ensures r == x || r == -x
  {
    if x < 0.0 then -x else x
  }

  /** Python's `int(x)` on a float: truncation toward zero. */
  function Trunc(x: real): (n: int)
    ensures x >= 0.0 ==> 0 <= n && n as real <= x < n as real + 1.0
    ensures x < 0.0 ==> n <= 0 && n as real - 1.0 < x <= n as real
  {
    if x >= 0.0 then x.Floor else -((-x).Floor)
  }

  /** `prefix` is where `s` starts: Python's `s.startswith(prefix)`. */
  predicate IsPrefix(prefix: string, s: string) {
    |prefix| <= |s| && s[..|prefix|] == prefix
  }

  /** `pattern` occurs in `s` starting at index `i`. */
  predicate OccursAt(s: string, pattern: string, i: int) {
    0 <= i <= |s| - |pattern| && s[i..i + |pattern|] == pattern
  }

  /**
   * Python's `pattern in s` on strings, computed by trying every start
   * position in turn.
   */
  function Contains(s: string, pattern: string): (b: bool)
    ensures b <==> exists i :: OccursAt(s, pattern, i)
    decreases |s|
  {
    if IsPrefix(pattern, s) then
      assert OccursAt(s, pattern, 0);
      true
    else if |s| == 0 then false
    else
      assert !OccursAt(s, pattern, 0);
      forall i | 1 <= i
        ensures OccursAt(s, pattern, i) == OccursAt(s[1..], pattern, i - 1)
      {
        if i <= |s| - |pattern| {
          assert s[1..][i - 1..i - 1 + |pattern|] == s[i..i + |pattern|];
        }
      }
      assert forall j :: OccursAt(s[1..], pattern, j) ==> OccursAt(s, pattern, j + 1);
      Contains(s[1..], pattern)
  }

  /** Every string contains itself. */
  lemma ContainsItself(s: string)
    ensures Contains(s, s)
  {
    assert OccursAt(s, s, 0);
  }

  /**
   * `pattern` (of length two or more) is not in `s` when no start position
   * matches its first two characters.
   */
  lemma NotContained(s: string, pattern: string)
    requires 2 <= |pattern|
    requires forall i :: 0 <= i <= |s| - |pattern| ==> s[i] != pattern[0] || s[i + 1] != pattern[1]
    ensures !Contains(s, pattern)
  {
    forall i | 0 <= i <= |s| - |pattern| ensures !OccursAt(s, pattern, i) {
      assert s[i..i + |pattern|][0] == s[i];
      assert s[i..i + |pattern|][1] == s[i + 1];
    }
  }

  /** ASCII lower-casing of one character, as `str.lower()` does for ASCII. */
  function LowerChar(c: char): (d: char)
    ensures 'A' <= c <= 'Z' ==> d as int == c as int + 32
    ensures !('A' <= c <= 'Z') ==> d == c
  {
    if 'A' <= c <= 'Z' then (c as int + 32) as char else c
  }

  function Lower(s: string): (t: string)
    ensures |t| == |s|
    ensures forall i :: 0 <= i < |s| ==> t[i] == LowerChar(s[i])
  {
    seq(|s|, i requires 0 <= i < |s| => LowerChar(s[i]))
  }
}
