/** PHP's `explode('.', ...)` with and without a limit, its inverse `implode('.', ...)`, and
    `empty($parts[$k])` on the array explode returns. */
module PhpStrings {
  import opened PhpValues

  /** Index of the first '.' in `s`, or `|s|` when there is none. */
  function IndexOfDot(s: string): (i: nat)
    ensures i <= |s|
    ensures i < |s| ==> s[i] == '.'
    ensures forall k :: 0 <= k < i ==> s[k] != '.'
  {
    if s == [] || s[0] == '.' then 0 else 1 + IndexOfDot(s[1..])
  }

  /** `explode('.', s, 2)`: the text before the first dot and, when there is a dot,
      everything after it (which may itself hold further dots). */
  function ExplodeLimit2(s: string): (parts: seq<string>)
    ensures |parts| == 1 || |parts| == 2
    ensures |parts| == 1 <==> '.' !in s
    ensures |parts| == 1 ==> parts[0] == s
    ensures |parts| == 2 ==> '.' !in parts[0] && s == parts[0] + "." + parts[1]
  {
    var i := IndexOfDot(s);
    if i == |s| then [s]
    else
      assert s == s[..i] + "." + s[i + 1..];
      [s[..i], s[i + 1..]]
  }

  /** `implode('.', parts)`. */
  function Implode(parts: seq<string>): (s: string)
    requires |parts| >= 1
  {
    if |parts| == 1 then parts[0] else parts[0] + "." + Implode(parts[1..])
  }

  /** The number of dots in `s`. */
  function DotCount(s: string): (n: nat) {
    multiset(s)['.']
  }

  /** `explode('.', s)`: every dot-free segment of `s`, in order; one more than there are dots. */
  function Explode(s: string): (segments: seq<string>)
    ensures |segments| == DotCount(s) + 1
    ensures |segments| == 1 <==> '.' !in s
    ensures forall k :: 0 <= k < |segments| ==> '.' !in segments[k]
    ensures Implode(segments) == s
    decreases |s|
  {
    var nested := ExplodeLimit2(s);
    if |nested| == 1 then
      assert multiset(s)['.'] == 0;
      nested
    else
      var tail := Explode(nested[1]);
      assert multiset(s) == multiset(nested[0]) + multiset(".") + multiset(nested[1]);
      assert multiset(nested[0])['.'] == 0;
      assert ([nested[0]] + tail)[1..] == tail;
      [nested[0]] + tail
  }

  /** PHP's `empty($parts[$k])` on a list of strings: the key is unset, or the segment is ""
      or "0". */
  predicate EmptyAt(parts: seq<string>, k: nat)
    ensures EmptyAt(parts, k) <==> k >= |parts| || parts[k] == "" || parts[k] == "0"
  {
    k >= |parts| || !IsTruthy(Str(parts[k]))
  }

  /** Splitting `a + "." + b` at its first dot gives back `a` and `b` whenever `a` has no dot. */
  lemma ExplodeLimit2Of(a: string, b: string)
    requires '.' !in a
    ensures ExplodeLimit2(a + "." + b) == [a, b]
  {
    var s := a + "." + b;
    assert s[|a|] == '.';
    var parts := ExplodeLimit2(s);
    assert |parts[0]| == |a|;
    assert parts[0] == s[..|a|] == a;
    assert parts[1] == s[|a| + 1..] == b;
  }

  /** Explode from the first dot on is the explode of the remainder. */
  lemma ExplodeTail(s: string)
    requires '.' in s
    ensures Explode(s) == [ExplodeLimit2(s)[0]] + Explode(ExplodeLimit2(s)[1])
  {
  }

  /** Joining three parts with dots groups either way. */
  lemma JoinAssociates(a: string, b: string, c: string)
    ensures a + "." + b + "." + c == a + "." + (b + "." + c)
  {
  }

  /** Splitting at the first dot moves one dot out of the remainder. */
  lemma ExplodeDotCount(s: string)
    ensures '.' in s ==> DotCount(s) == DotCount(ExplodeLimit2(s)[1]) + 1
  {
    if '.' in s {
      ExplodeTail(s);
    }
  }

  /** Round trip: exploding an implode of dot-free segments gives back the segments. */
  lemma {:induction false} ExplodeImplode(parts: seq<string>)
    requires |parts| >= 1
    requires forall k :: 0 <= k < |parts| ==> '.' !in parts[k]
    ensures Explode(Implode(parts)) == parts
  {
    if |parts| == 1 {
      DotFreeImplode(parts[0]);
    } else {
      var rest := parts[1..];
      assert forall k :: 0 <= k < |rest| ==> '.' !in rest[k] by {
        forall k | 0 <= k < |rest| ensures '.' !in rest[k] { assert rest[k] == parts[k + 1]; }
      }
      ExplodeImplode(rest);
      var s := Implode(parts);
      assert s == parts[0] + "." + Implode(rest);
      ExplodeLimit2Of(parts[0], Implode(rest));
      ExplodeTail(s);
      assert parts == [parts[0]] + rest;
    }
  }

  lemma DotFreeImplode(s: string)
    requires '.' !in s
    ensures Explode(s) == [s]
  {
  }
}
