/** Searching in text, shared by the formats that join fields with bars. */
module Strings {
  import opened Bytes

  /** Index of the first c at or behind i. */
  function FindChar(s: string, c: char, i: nat := 0): (r: Option<nat>)
    requires i <= |s|
    ensures r.Some? ==> i <= r.value < |s| && s[r.value] == c && c !in s[i..r.value]
    ensures r.None? ==> c !in s[i..]
    decreases |s| - i
  {
    if i == |s| then None
    else if s[i] == c then Some(i)
    else
      var r := FindChar(s, c, i + 1);
      assert r.Some? ==> s[i..r.value] == [s[i]] + s[i + 1..r.value];
      assert s[i..] == [s[i]] + s[i + 1..];
      r
  }

  lemma {:induction false} FindCharAt(s: string, c: char, i: nat, p: nat)
    requires i <= p < |s| && s[p] == c && forall k | i <= k < p :: s[k] != c
    ensures FindChar(s, c, i) == Some(p)
    decreases p - i
  {
    if i < p {
      FindCharAt(s, c, i + 1, p);
    }
  }

  predicate NoBar(s: string) {
    '|' !in s
  }

  predicate NoNewline(s: string) {
    '\n' !in s
  }

  /** Bar-free fronts make joined strings injective. */
  lemma BarSplits(a: string, b: string, x: string, y: string)
    requires NoBar(a) && NoBar(b) && a + "|" + x == b + "|" + y
    ensures a == b && x == y
  {
    var s := a + "|" + x;
    assert forall i | 0 <= i < |a| :: s[i] == a[i] && a[i] in a;
    assert forall i | 0 <= i < |b| :: s[i] == b[i] && b[i] in b;
    assert s[|a|] == '|' && s[|b|] == '|';
    assert |a| == |b|;
    assert a == s[..|a|] == b;
    assert x == s[|a| + 1..] == y;
  }
}
