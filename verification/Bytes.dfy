/** Byte strings, and the two library searches the stream code uses. A byte is an integer; the range is
    only mentioned where a computed byte must be shown to stay within it. */
module Bytes {
  import opened Wrappers

  type Byte = int

  type Text = seq<Byte>

  /** File paths are only compared, so they are plain strings. */
  type Path = string

  /** The bytes of a text in ASCII. */
  function Ascii(s: string): (t: Text)
    ensures |t| == |s| && forall i | 0 <= i < |s| :: t[i] == s[i] as int
  {
    seq(|s|, i requires 0 <= i < |s| => s[i] as int)
  }

  const LF: Byte := 10
  const CR: Byte := 13

  /** The first position of `c` at or after `from`; the length of `s` when there is none. */
  function IndexOf(s: Text, c: Byte, from: nat): (i: nat)
    requires from <= |s|
    ensures from <= i <= |s|
    ensures i < |s| ==> s[i] == c
    ensures forall j | from <= j < i :: s[j] != c
    decreases |s| - from
  {
    if from == |s| || s[from] == c then from else IndexOf(s, c, from + 1)
  }

  predicate OccursAt(s: Text, pattern: Text, i: nat) {
    i + |pattern| <= |s| && s[i..i + |pattern|] == pattern
  }

  /** The first occurrence of a pattern at or after `from`. */
  function Find(s: Text, pattern: Text, from: nat): (r: Option<nat>)
    requires from <= |s|
    ensures r.Some? ==> from <= r.value && OccursAt(s, pattern, r.value)
    ensures forall j | from <= j < (if r.Some? then r.value else |s| + 1) :: !OccursAt(s, pattern, j)
    decreases |s| - from
  {
    if OccursAt(s, pattern, from) then Some(from)
    else if from == |s| then None
    else Find(s, pattern, from + 1)
  }

  /** Found at i means that the text up to there holds no occurrence, and the pattern follows. */
  lemma FindSplits(s: Text, pattern: Text)
    ensures Find(s, pattern, 0).Some? <==> exists a, b :: s == a + pattern + b
    ensures Find(s, pattern, 0).Some? ==>
              var i := Find(s, pattern, 0).value;
              s == s[..i] + pattern + s[i + |pattern|..] && forall a, b | s == a + pattern + b :: |a| >= i
  {
    forall a: Text, b: Text | s == a + pattern + b
      ensures OccursAt(s, pattern, |a|)
    {
    }
    var r := Find(s, pattern, 0);
    if r.Some? {
      assert s == s[..r.value] + pattern + s[r.value + |pattern|..];
    }
  }

  /** A first occurrence stays the first when the text grows. */
  lemma FindGrows(a: Text, b: Text, pattern: Text)
    ensures Find(a, pattern, 0).Some? ==> Find(a + b, pattern, 0) == Find(a, pattern, 0)
  {
    var r, r' := Find(a, pattern, 0), Find(a + b, pattern, 0);
    if r.Some? {
      assert (a + b)[r.value..r.value + |pattern|] == a[r.value..r.value + |pattern|];
      assert OccursAt(a + b, pattern, r.value);
      assert r'.Some? && r'.value <= r.value;
      assert (a + b)[r'.value..r'.value + |pattern|] == a[r'.value..r'.value + |pattern|];
      assert OccursAt(a, pattern, r'.value);
    }
  }
}
