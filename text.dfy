/** The few string operations of Python's `str` that the modelled code relies on. */
module Text {

  /** `c.lower()` for one character; only ASCII capitals are folded. */
  function LowerChar(c: char): (l: char)
    ensures !('A' <= l <= 'Z')
    ensures 'A' <= c <= 'Z' ==> 'a' <= l <= 'z' && l as int - c as int == 'a' as int - 'A' as int
    ensures !('A' <= c <= 'Z') ==> l == c
  {
    if 'A' <= c <= 'Z' then (c as int - 'A' as int + 'a' as int) as char else c
  }

  /** `s.lower()`, character by character. */
  function Lower(s: string): (r: string)
    ensures |r| == |s|
    ensures forall i :: 0 <= i < |s| ==> r[i] == LowerChar(s[i])
  {
    seq(|s|, i requires 0 <= i < |s| => LowerChar(s[i]))
  }

  /** `s.endswith(suffix)`: `s` is some prefix followed by `suffix`. */
  predicate EndsWith(s: string, suffix: string): (b: bool)
    ensures b <==> |suffix| <= |s| && s[..|s| - |suffix|] + suffix == s
  {
    |suffix| <= |s| && s[|s| - |suffix|..] == suffix
  }

  /** `sep.join(parts)`: the parts in order, with `sep` between neighbours. */
  function Join(sep: string, parts: seq<string>): (r: string)
    ensures |parts| == 0 ==> r == ""
    ensures |parts| > 0 ==> |parts[0]| <= |r| && r[..|parts[0]|] == parts[0]
    decreases |parts|
  {
    if |parts| == 0 then ""
    else if |parts| == 1 then parts[0]
    else parts[0] + sep + Join(sep, parts[1..])
  }

  /** Where part `i` starts inside `Join(sep, parts)`. */
  function PartOffset(sep: string, parts: seq<string>, i: nat): nat
    requires i <= |parts|
    decreases i
  {
    if i == 0 then 0 else |parts[0]| + |sep| + PartOffset(sep, parts[1..], i - 1)
  }

  /** Lower-casing never leaves an ASCII capital and is idempotent. */
  lemma LowerIdempotent(s: string)
    ensures forall i :: 0 <= i < |s| ==> !('A' <= Lower(s)[i] <= 'Z')
    ensures Lower(Lower(s)) == Lower(s)
  {
  }

  /** Lower-casing works piecewise on a concatenation. */
  lemma LowerAppend(a: string, b: string)
    ensures Lower(a + b) == Lower(a) + Lower(b)
  {
  }

  /** Every part appears, unchanged, at its offset in the joined string. */
  lemma {:induction false} JoinHoldsPart(sep: string, parts: seq<string>, i: nat)
    requires i < |parts|
    ensures PartOffset(sep, parts, i) + |parts[i]| <= |Join(sep, parts)|
    ensures Join(sep, parts)[PartOffset(sep, parts, i)..PartOffset(sep, parts, i) + |parts[i]|] == parts[i]
    decreases i
  {
    if i == 0 {
      if |parts| > 1 {
        assert Join(sep, parts) == parts[0] + (sep + Join(sep, parts[1..]));
      }
    } else {
      var rest := Join(sep, parts[1..]);
      JoinHoldsPart(sep, parts[1..], i - 1);
      var head := parts[0] + sep;
      assert Join(sep, parts) == head + rest;
      var o := PartOffset(sep, parts[1..], i - 1);
      assert PartOffset(sep, parts, i) == |head| + o;
      assert (head + rest)[|head| + o..|head| + o + |parts[i]|] == rest[o..o + |parts[i]|];
    }
  }

  /** The next part starts after this part and one separator. */
  lemma {:induction false} PartOffsetStep(sep: string, parts: seq<string>, i: nat)
    requires i < |parts|
    ensures PartOffset(sep, parts, i + 1) == PartOffset(sep, parts, i) + |parts[i]| + |sep|
    decreases i
  {
    if i > 0 {
      PartOffsetStep(sep, parts[1..], i - 1);
    }
  }

  /** The separator stands right after every part but the last. */
  lemma {:induction false} JoinSeparates(sep: string, parts: seq<string>, i: nat)
    requires i + 1 < |parts|
    ensures PartOffset(sep, parts, i) + |parts[i]| + |sep| <= |Join(sep, parts)|
    ensures Join(sep, parts)[PartOffset(sep, parts, i) + |parts[i]|..PartOffset(sep, parts, i) + |parts[i]| + |sep|] == sep
    decreases i
  {
    var rest := Join(sep, parts[1..]);
    var head := parts[0] + sep;
    assert Join(sep, parts) == head + rest;
    if i == 0 {
      assert (head + rest)[|parts[0]|..|parts[0]| + |sep|] == sep;
    } else {
      JoinSeparates(sep, parts[1..], i - 1);
      var o := PartOffset(sep, parts[1..], i - 1) + |parts[i]|;
      assert PartOffset(sep, parts, i) + |parts[i]| == |head| + o;
      assert (head + rest)[|head| + o..|head| + o + |sep|] == rest[o..o + |sep|];
    }
  }

  /** The join ends exactly where the last part ends: nothing follows it. */
  lemma {:induction false} JoinLength(sep: string, parts: seq<string>)
    requires |parts| > 0
    ensures |Join(sep, parts)| == PartOffset(sep, parts, |parts| - 1) + |parts[|parts| - 1]|
    decreases |parts|
  {
    if |parts| > 1 {
      JoinLength(sep, parts[1..]);
    }
  }
}
