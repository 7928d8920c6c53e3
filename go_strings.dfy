// The pieces of Go's strings package the services use, on strings as
// sequences of characters: Split and Join on a one-character separator,
// Trim of a one-character cutset and Contains.
module GoStrings {
  /** The first position of c in s. */
  function IndexOf(s: string, c: char): (i: nat)
    requires c in s
    ensures i < |s| && s[i] == c && c !in s[..i]
  {
    if s[0] == c then 0 else 1 + IndexOf(s[1..], c)
  }

  /** strings.Split with a one-character separator: the pieces between the separators, always at least one. */
  function Split(s: string, c: char): (parts: seq<string>)
    ensures |parts| >= 1
    ensures forall k :: 0 <= k < |parts| ==> c !in parts[k]
    decreases |s|
  {
    if c !in s then [s]
    else
      var i := IndexOf(s, c);
      [s[..i]] + Split(s[i + 1..], c)
  }

  /** strings.Join with a one-character separator. */
  function Join(parts: seq<string>, c: char): string
    requires |parts| >= 1
  {
    if |parts| == 1 then parts[0] else parts[0] + [c] + Join(parts[1..], c)
  }

  /** Joining the pieces of a split gives the string back. */
  lemma {:induction false} JoinSplit(s: string, c: char)
    ensures Join(Split(s, c), c) == s
    decreases |s|
  {
    if c in s {
      var i := IndexOf(s, c);
      JoinSplit(s[i + 1..], c);
      assert Split(s, c)[1..] == Split(s[i + 1..], c);
      assert s == s[..i] + [c] + s[i + 1..];
    }
  }

  /** Splitting a string with exactly one separator gives the two sides. */
  lemma SplitPair(a: string, b: string, c: char)
    requires c !in a && c !in b
    ensures Split(a + [c] + b, c) == [a, b]
  {
    var s := a + [c] + b;
    assert s[|a|] == c;
    var i := IndexOf(s, c);
    assert i == |a| by {
      assert s[..|a|] == a;
    }
    assert s[..i] == a && s[i + 1..] == b;
  }

  /** A split of x + [c] + y with a separator inside y has more than two pieces. */
  lemma SplitMany(a: string, b: string, c: char)
    requires c !in a && c in b
    ensures |Split(a + [c] + b, c)| > 2
  {
    var s := a + [c] + b;
    assert s[|a|] == c;
    var i := IndexOf(s, c);
    assert i == |a| by {
      assert s[..|a|] == a;
    }
    assert s[i + 1..] == b;
    var j := IndexOf(b, c);
    assert |Split(b, c)| == 1 + |Split(b[j + 1..], c)|;
  }

  /** How many copies of c s starts with. */
  function LeadCount(s: string, c: char): (n: nat)
    ensures n <= |s| && (forall k :: 0 <= k < n ==> s[k] == c) && (n < |s| ==> s[n] != c)
  {
    if s == [] || s[0] != c then 0 else 1 + LeadCount(s[1..], c)
  }

  /** How many copies of c s ends with. */
  function TrailCount(s: string, c: char): (n: nat)
    ensures n <= |s| && (forall k :: |s| - n <= k < |s| ==> s[k] == c) && (n < |s| ==> s[|s| - 1 - n] != c)
  {
    if s == [] || s[|s| - 1] != c then 0 else 1 + TrailCount(s[..|s| - 1], c)
  }

  /**
   * strings.Trim with a one-character cutset: s without its leading and
   * trailing copies of c, which is empty exactly when s is all c's.
   */
  function Trim(s: string, c: char): (r: string)
    ensures var i := LeadCount(s, c);
      i + |r| <= |s| && r == s[i..i + |r|] && forall k :: i + |r| <= k < |s| ==> s[k] == c
    ensures r != [] ==> r[0] != c && r[|r| - 1] != c
    ensures r == [] <==> forall k :: 0 <= k < |s| ==> s[k] == c
  {
    var i := LeadCount(s, c);
    var rest := s[i..];
    var j := TrailCount(rest, c);
    assert forall k :: i + |rest| - j <= k < |s| ==> s[k] == rest[k - i];
    rest[..|rest| - j]
  }

  /** Position i starts an occurrence of sub in s. */
  predicate OccursAt(s: string, sub: string, i: int)
  {
    0 <= i <= |s| - |sub| && s[i..i + |sub|] == sub
  }

  /** strings.Contains: sub occurs somewhere in s (the empty string everywhere). */
  predicate Contains(s: string, sub: string)
  {
    exists i :: 0 <= i <= |s| - |sub| && OccursAt(s, sub, i)
  }

  /** A substring as long as the string occurs in it only as the whole string. */
  lemma ContainsSameLength(s: string, sub: string)
    requires |s| == |sub|
    ensures Contains(s, sub) <==> s == sub
  {
    if s == sub {
      assert OccursAt(s, sub, 0);
    }
  }
}
