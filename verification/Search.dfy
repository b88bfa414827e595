/** Python's `find`, `count` and `replace` on byte strings and text: leftmost, non-overlapping. */
module Search {

  predicate OccursAt<T(==)>(s: seq<T>, p: seq<T>, i: int) {
    0 <= i && i + |p| <= |s| && forall k :: 0 <= k < |p| ==> s[i + k] == p[k]
  }

  /** `s.find(p)`: the least index where p occurs, or -1 (see FindIsLeftmost). */
  function Find<T(==)>(s: seq<T>, p: seq<T>): (r: int)
    ensures -1 <= r && (r >= 0 ==> r + |p| <= |s|)
  {
    FindFrom(s, p, 0)
  }

  function FindFrom<T(==)>(s: seq<T>, p: seq<T>, i: nat): (r: int)
    ensures -1 <= r && (r >= 0 ==> r + |p| <= |s|)
    decreases |s| + 1 - i
  {
    if i + |p| > |s| then -1
    else if OccursAt(s, p, i) then i
    else FindFrom(s, p, i + 1)
  }

  /** p occurs nowhere in s before the given index. */
  ghost predicate NoneBefore<T>(s: seq<T>, p: seq<T>, end: int) {
    forall j :: 0 <= j < end ==> !OccursAt(s, p, j)
  }

  lemma {:induction false} FindFromIsLeftmost<T>(s: seq<T>, p: seq<T>, i: nat)
    requires NoneBefore(s, p, i)
    ensures var r := FindFrom(s, p, i);
      if r < 0 then NoneBefore(s, p, |s| + 1) else OccursAt(s, p, r) && NoneBefore(s, p, r)
    decreases |s| + 1 - i
  {
    if i + |p| <= |s| && !OccursAt(s, p, i) {
      FindFromIsLeftmost(s, p, i + 1);
    }
  }

  /** Find yields the leftmost occurrence, and -1 exactly when there is none. */
  lemma FindIsLeftmost<T>(s: seq<T>, p: seq<T>)
    ensures var r := Find(s, p);
      if r < 0 then NoneBefore(s, p, |s| + 1) else OccursAt(s, p, r) && NoneBefore(s, p, r)
  {
    FindFromIsLeftmost(s, p, 0);
  }

  /** The converse: a leftmost occurrence is what Find yields. */
  lemma FindIs<T>(s: seq<T>, p: seq<T>, at: nat)
    requires OccursAt(s, p, at) && NoneBefore(s, p, at)
    ensures Find(s, p) == at
  {
    FindIsLeftmost(s, p);
  }

  lemma FindNone<T>(s: seq<T>, p: seq<T>)
    requires NoneBefore(s, p, |s| + 1)
    ensures Find(s, p) == -1
  {
    FindIsLeftmost(s, p);
  }

  /** `s.replace(p, r)` for a non-empty p. */
  function Replace<T(==)>(s: seq<T>, p: seq<T>, r: seq<T>): seq<T>
    requires |p| > 0
  {
    var at := Find(s, p);
    if at < 0 then s else s[..at] + r + Replace(s[at + |p|..], p, r)
  }

  /** `s.count(p)` for a non-empty p. */
  function Count<T(==)>(s: seq<T>, p: seq<T>): nat
    requires |p| > 0
  {
    var at := Find(s, p);
    if at < 0 then 0 else 1 + Count(s[at + |p|..], p)
  }

  /** An occurrence that lies wholly in the second part of u + x, seen from x. */
  lemma OccursShift<T>(u: seq<T>, x: seq<T>, p: seq<T>, i: int)
    requires i >= 0
    ensures OccursAt(u + x, p, |u| + i) <==> OccursAt(x, p, i)
  {
    if i + |p| <= |x| {
      assert (u + x)[|u| + i..|u| + i + |p|] == x[i..i + |p|];
    }
  }

  /** An occurrence that ends inside the first part of u + x, seen from u. */
  lemma OccursPrefix<T>(u: seq<T>, x: seq<T>, p: seq<T>, i: int)
    requires 0 <= i && i + |p| <= |u|
    ensures OccursAt(u + x, p, i) <==> OccursAt(u, p, i)
  {
    assert (u + x)[i..i + |p|] == u[i..i + |p|];
  }

  /** When no occurrence in u + x starts inside u, searching may begin at x. */
  lemma FindSkipsPrefix<T>(u: seq<T>, x: seq<T>, p: seq<T>)
    requires NoneBefore(u + x, p, |u|)
    ensures Find(u + x, p) == (if Find(x, p) < 0 then -1 else |u| + Find(x, p))
  {
    FindIsLeftmost(u + x, p);
    FindIsLeftmost(x, p);
    var at := Find(u + x, p);
    if at >= 0 {
      OccursShift(u, x, p, at - |u|);
      forall j | 0 <= j < at - |u| ensures !OccursAt(x, p, j) {
        OccursShift(u, x, p, j);
      }
      FindIs(x, p, at - |u|);
    } else if Find(x, p) >= 0 {
      OccursShift(u, x, p, Find(x, p));
    }
  }

  lemma Regroup<T>(a: seq<T>, b: seq<T>, c: seq<T>, d: seq<T>)
    ensures (a + b) + c + d == a + (b + c + d)
  {
  }

  lemma SplitAfter<T>(u: seq<T>, x: seq<T>, at: nat, len: nat)
    requires at + len <= |x|
    ensures (u + x)[..|u| + at] == u + x[..at]
    ensures (u + x)[|u| + at + len..] == x[at + len..]
  {
  }

  /** One unfolding of Replace and Count. */
  lemma ReplaceAt<T>(s: seq<T>, p: seq<T>, r: seq<T>)
    requires |p| > 0
    ensures var at := Find(s, p);
      if at < 0 then Replace(s, p, r) == s && Count(s, p) == 0
      else Replace(s, p, r) == s[..at] + r + Replace(s[at + |p|..], p, r) && Count(s, p) == 1 + Count(s[at + |p|..], p)
  {
    hide Find;
  }

  lemma SkipPrefix<T>(u: seq<T>, x: seq<T>, p: seq<T>, r: seq<T>)
    requires |p| > 0 && NoneBefore(u + x, p, |u|)
    ensures Replace(u + x, p, r) == u + Replace(x, p, r)
    ensures Count(u + x, p) == Count(x, p)
  {
    hide Find, Replace, Count, NoneBefore;
    FindSkipsPrefix(u, x, p);
    ReplaceAt(u + x, p, r);
    ReplaceAt(x, p, r);
    var at := Find(x, p);
    if at >= 0 {
      SplitAfter(u, x, at, |p|);
      Regroup(u, x[..at], r, Replace(x[at + |p|..], p, r));
    }
  }

  /** The leftmost occurrence in s stays leftmost whatever follows s. */
  lemma FindStable<T>(s: seq<T>, b: seq<T>, p: seq<T>)
    requires |p| > 0 && Find(s, p) >= 0
    ensures Find(s + b, p) == Find(s, p)
  {
    var at := Find(s, p);
    FindIsLeftmost(s, p);
    OccursPrefix(s, b, p, at);
    forall j | 0 <= j < at ensures !OccursAt(s + b, p, j) {
      OccursPrefix(s, b, p, j);
    }
    FindIs(s + b, p, at);
  }

  lemma ReplaceStable<T>(s: seq<T>, b: seq<T>, p: seq<T>, r: seq<T>)
    requires |p| > 0 && Find(s, p) >= 0
    ensures var at := Find(s, p);
      && Replace(s + b, p, r) == s[..at] + r + Replace(s[at + |p|..] + b, p, r)
      && Count(s + b, p) == 1 + Count(s[at + |p|..] + b, p)
  {
    hide Find, Replace, Count;
    FindStable(s, b, p);
    ReplaceAt(s + b, p, r);
    var at := Find(s, p);
    assert (s + b)[..at] == s[..at];
    assert (s + b)[at + |p|..] == s[at + |p|..] + b;
  }

  /** Deleting p removes exactly |p| elements per occurrence counted. */
  lemma {:induction false} DeleteLength<T>(s: seq<T>, p: seq<T>)
    requires |p| > 0
    ensures |Replace(s, p, [])| + |p| * Count(s, p) == |s|
  {
    hide Find, Replace, Count;
    ReplaceAt(s, p, []);
    var at := Find(s, p);
    if at >= 0 {
      var rest := s[at + |p|..];
      DeleteLength(rest, p);
      assert |p| * (1 + Count(rest, p)) == |p| + |p| * Count(rest, p);
    }
  }

  // ---------------------------------------------------------------- replacement without recursion

  /** Parts with a separator between them, as `sep.join(parts)` computes it. */
  function Join<T>(parts: seq<seq<T>>, sep: seq<T>): seq<T>
    requires parts != []
  {
    if |parts| == 1 then parts[0] else parts[0] + sep + Join(parts[1..], sep)
  }

  /** The parts are what a search for p from the left, again and again, leaves between the occurrences. */
  ghost predicate CutAt<T>(parts: seq<seq<T>>, p: seq<T>) {
    && parts != []
    && (forall i :: 0 <= i < |parts| - 1 ==> NoneBefore(parts[i] + p, p, |parts[i]|))
    && NoneBefore(parts[|parts| - 1], p, |parts[|parts| - 1]| + 1)
  }

  /** Replacing joins the parts between the leftmost non-overlapping occurrences with the replacement, and
      counting counts the joints. */
  lemma {:induction false} ReplaceJoins<T>(s: seq<T>, p: seq<T>, r: seq<T>) returns (parts: seq<seq<T>>)
    requires |p| > 0
    ensures CutAt(parts, p) && Join(parts, p) == s
    ensures Replace(s, p, r) == Join(parts, r) && Count(s, p) == |parts| - 1
  {
    hide Find, Replace, Count, NoneBefore;
    var at := Find(s, p);
    ReplaceAt(s, p, r);
    FindIsLeftmost(s, p);
    if at < 0 {
      parts := [s];
    } else {
      var rest := ReplaceJoins(s[at + |p|..], p, r);
      parts := [s[..at]] + rest;
      assert parts[1..] == rest;
      FirstPart(s, p, at);
      assert s == s[..at] + p + s[at + |p|..];
      forall i | 1 <= i < |parts| - 1 ensures NoneBefore(parts[i] + p, p, |parts[i]|) {
        assert parts[i] == rest[i - 1];
      }
      assert parts[|parts| - 1] == rest[|rest| - 1];
    }
  }

  lemma FirstPart<T>(s: seq<T>, p: seq<T>, at: nat)
    requires OccursAt(s, p, at) && NoneBefore(s, p, at)
    ensures at + |p| <= |s| && s[at..at + |p|] == p && NoneBefore(s[..at] + p, p, at)
  {
    var front := s[..at + |p|];
    assert front == s[..at] + p && s == front + s[at + |p|..];
    forall j | 0 <= j < at ensures !OccursAt(front, p, j) {
      OccursPrefix(front, s[at + |p|..], p, j);
    }
  }
}
