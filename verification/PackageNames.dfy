/** Canonical package names of zpip.py, and why only finitely many exist. */
module PackageNames {
  import opened Prelude
  import PythonText

  predicate IsAlnum(c: char) {
    'a' <= c <= 'z' || 'A' <= c <= 'Z' || '0' <= c <= '9'
  }

  predicate IsSeparator(c: char) {
    c == '-' || c == '_' || c == '.'
  }

  const MAX_NAME: nat := 128

  /** The _NAME pattern, matched in full. */
  predicate MatchesName(s: string) {
    && 1 <= |s| <= MAX_NAME && IsAlnum(s[0])
    && forall i :: 0 <= i < |s| ==> IsAlnum(s[i]) || IsSeparator(s[i])
  }

  /** str.lower() on the characters a name may hold. */
  function LowerChar(c: char): char {
    if 'A' <= c <= 'Z' then (c as int + 32) as char else c
  }

  function Lower(s: string): (r: string)
    ensures |r| == |s| && forall i :: 0 <= i < |s| ==> r[i] == LowerChar(s[i])
  {
    seq(|s|, i requires 0 <= i < |s| => LowerChar(s[i]))
  }

  /** Every run of separators replaced by one hyphen; after tells whether one was just written. */
  function Collapse(s: string, after: bool): string {
    if s == "" then ""
    else if IsSeparator(s[0]) then (if after then "" else "-") + Collapse(s[1..], true)
    else [s[0]] + Collapse(s[1..], false)
  }

  /** None stands for the ValueError on an invalid name. */
  function Canonicalize(name: string): Option<string> {
    if MatchesName(PythonText.Strip(name)) then Some(Collapse(Lower(PythonText.Strip(name)), false)) else None
  }

  // ---------------------------------------------------------------- what the canonical form is

  /** Words with runs of separators between them; the last word is empty when a run ends the name. */
  function Spelled(words: seq<string>, runs: seq<string>): string
    requires |words| == |runs| + 1
  {
    if runs == [] then words[0] else words[0] + runs[0] + Spelled(words[1..], runs[1..])
  }

  function Hyphenated(words: seq<string>): string
    requires words != []
  {
    if |words| == 1 then words[0] else words[0] + "-" + Hyphenated(words[1..])
  }

  function LowerAll(words: seq<string>): (r: seq<string>)
    ensures |r| == |words| && forall i :: 0 <= i < |r| ==> r[i] == Lower(words[i])
  {
    seq(|words|, i requires 0 <= i < |words| => Lower(words[i]))
  }

  ghost predicate Alnum(s: string) {
    forall c :: c in s ==> IsAlnum(c)
  }

  ghost predicate SeparatorRun(s: string) {
    s != "" && forall c :: c in s ==> IsSeparator(c)
  }

  ghost predicate Splits(words: seq<string>, runs: seq<string>) {
    && |words| == |runs| + 1
    && (forall w :: w in words ==> Alnum(w))
    && (forall r :: r in runs ==> SeparatorRun(r))
    && (forall i :: 0 <= i < |runs| ==> words[i] != "")
  }

  lemma {:induction false} CollapseWord(word: string, rest: string, after: bool)
    requires Alnum(word)
    ensures Collapse(word + rest, after) == word + Collapse(rest, if word == "" then after else false)
  {
    if word == "" {
      assert word + rest == rest && word + Collapse(rest, after) == Collapse(rest, after);
    } else {
      assert word[0] in word && (word + rest)[0] == word[0] && (word + rest)[1..] == word[1..] + rest;
      CollapseWord(word[1..], rest, false);
      assert [word[0]] + word[1..] == word;
    }
  }

  lemma {:induction false} CollapseRun(run: string, rest: string, after: bool)
    requires SeparatorRun(run)
    ensures Collapse(run + rest, after) == (if after then "" else "-") + Collapse(rest, true)
  {
    assert run[0] in run && (run + rest)[0] == run[0] && (run + rest)[1..] == run[1..] + rest;
    if |run| == 1 {
      assert run[1..] + rest == rest;
    } else {
      CollapseRun(run[1..], rest, true);
      assert "" + Collapse(rest, true) == Collapse(rest, true);
    }
  }

  lemma {:induction false} CollapseSpelled(words: seq<string>, runs: seq<string>, after: bool)
    requires Splits(words, runs)
    ensures Collapse(Spelled(words, runs), after) == Hyphenated(words)
    decreases |words|
  {
    hide Alnum, SeparatorRun, Collapse;
    assert words[0] in words;
    if runs == [] {
      CollapseWord(words[0], "", after);
      assert words[0] + "" == words[0];
      CollapseNothing(if words[0] == "" then after else false);
    } else {
      var rest := Spelled(words[1..], runs[1..]);
      assert runs[0] in runs && words[0] != "";
      assert words[0] + runs[0] + rest == words[0] + (runs[0] + rest);
      CollapseWord(words[0], runs[0] + rest, after);
      CollapseRun(runs[0], rest, false);
      SplitsRest(words, runs);
      CollapseSpelled(words[1..], runs[1..], true);
      assert words[0] + ("-" + Hyphenated(words[1..])) == words[0] + "-" + Hyphenated(words[1..]);
    }
  }

  lemma CollapseNothing(after: bool)
    ensures Collapse("", after) == ""
  {
  }

  lemma SplitsRest(words: seq<string>, runs: seq<string>)
    requires Splits(words, runs) && runs != []
    ensures Splits(words[1..], runs[1..])
  {
    hide Alnum, SeparatorRun;
    assert forall w :: w in words[1..] ==> w in words;
    assert forall r :: r in runs[1..] ==> r in runs;
  }

  lemma LowerJoins(a: string, b: string)
    ensures Lower(a + b) == Lower(a) + Lower(b)
  {
  }

  lemma LowerKeeps(s: string)
    ensures SeparatorRun(s) ==> Lower(s) == s
    ensures Alnum(s) ==> Alnum(Lower(s))
  {
    if SeparatorRun(s) {
      forall i | 0 <= i < |s| ensures Lower(s)[i] == s[i] {
        assert s[i] in s;
      }
    }
    if Alnum(s) {
      forall c | c in Lower(s) ensures IsAlnum(c) {
        var i :| 0 <= i < |s| && Lower(s)[i] == c;
        assert s[i] in s;
      }
    }
  }

  lemma {:induction false} LowerSpelled(words: seq<string>, runs: seq<string>)
    requires Splits(words, runs)
    ensures Lower(Spelled(words, runs)) == Spelled(LowerAll(words), runs) && Splits(LowerAll(words), runs)
    decreases |words|
  {
    hide Alnum, SeparatorRun, Lower;
    var lower := LowerAll(words);
    forall w | w in lower ensures Alnum(w) {
      var i :| 0 <= i < |lower| && lower[i] == w;
      assert words[i] in words;
      LowerKeeps(words[i]);
    }
    LowerIsEmpty(words);
    if runs != [] {
      assert runs[0] in runs;
      SplitsRest(words, runs);
      LowerSpelled(words[1..], runs[1..]);
      assert LowerAll(words)[1..] == LowerAll(words[1..]);
      LowerJoins(words[0] + runs[0], Spelled(words[1..], runs[1..]));
      LowerJoins(words[0], runs[0]);
      LowerKeeps(runs[0]);
    }
  }

  lemma LowerIsEmpty(words: seq<string>)
    ensures forall i :: 0 <= i < |words| ==> (LowerAll(words)[i] == "" <==> words[i] == "")
  {
    forall i | 0 <= i < |words| ensures |LowerAll(words)[i]| == |words[i]| {
    }
  }

  lemma {:induction false} SpelledMatches(words: seq<string>, runs: seq<string>, i: nat)
    requires Splits(words, runs) && i < |Spelled(words, runs)|
    ensures IsAlnum(Spelled(words, runs)[i]) || IsSeparator(Spelled(words, runs)[i])
    ensures i == 0 && words[0] != "" ==> Spelled(words, runs)[i] == words[0][0]
    decreases |words|
  {
    hide IsAlnum, IsSeparator;
    assert words[0] in words;
    if i < |words[0]| {
      assert words[0][i] in words[0] && Spelled(words, runs)[i] == words[0][i];
    } else {
      assert runs[0] in runs;
      var j := i - |words[0]|;
      if j < |runs[0]| {
        assert runs[0][j] in runs[0] && Spelled(words, runs)[i] == runs[0][j];
      } else {
        SplitsRest(words, runs);
        SpelledMatches(words[1..], runs[1..], j - |runs[0]|);
        assert Spelled(words, runs)[i] == Spelled(words[1..], runs[1..])[j - |runs[0]|];
      }
    }
  }

  /** Every valid name in whatever spelling: its words in lower case, joined by single hyphens. */
  lemma {:induction false} CanonicalizeWords(left: string, words: seq<string>, runs: seq<string>, right: string)
    requires PythonText.Blank(left) && PythonText.Blank(right)
    requires Splits(words, runs) && words[0] != "" && |Spelled(words, runs)| <= 128
    ensures Canonicalize(left + Spelled(words, runs) + right) == Some(Hyphenated(LowerAll(words)))
  {
    hide Collapse, Spelled, Lower, PythonText.Strip, PythonText.IsSpace;
    var body := Spelled(words, runs);
    SpelledStarts(words, runs);
    forall i | 0 <= i < |body| ensures IsAlnum(body[i]) || IsSeparator(body[i]) {
      SpelledMatches(words, runs, i);
    }
    SpelledMatches(words, runs, 0);
    assert words[0] in words && words[0][0] in words[0];
    NameCharIsNoSpace(body[0]);
    NameCharIsNoSpace(body[|body| - 1]);
    PythonText.StripIs(left, body, right);
    LowerSpelled(words, runs);
    CollapseSpelled(LowerAll(words), runs, false);
  }

  lemma SpelledStarts(words: seq<string>, runs: seq<string>)
    requires Splits(words, runs) && words[0] != ""
    ensures Spelled(words, runs) != ""
  {
  }

  lemma NameCharIsNoSpace(c: char)
    requires IsAlnum(c) || IsSeparator(c)
    ensures !PythonText.IsSpace(c)
  {
  }

  ghost predicate Wraps(name: string, left: string, body: string, right: string) {
    && name == left + body + right && PythonText.Blank(left) && PythonText.Blank(right)
    && 1 <= |body| <= 128 && IsAlnum(body[0])
    && forall i :: 0 <= i < |body| ==> IsAlnum(body[i]) || IsSeparator(body[i])
  }

  /** What counts as a name: up to 128 letters, digits and separators that start with a letter or digit, white
      space around them ignored. */
  lemma {:induction false} CanonicalizeAccepts(name: string)
    ensures Canonicalize(name).Some? <==> exists left, body, right :: Wraps(name, left, body, right)
  {
    hide Collapse, Lower, PythonText.Strip, PythonText.IsSpace, IsAlnum, IsSeparator;
    if Canonicalize(name).Some? {
      var left, right := PythonText.StripSplits(name);
      assert Wraps(name, left, PythonText.Strip(name), right);
    }
    if left, body, right :| Wraps(name, left, body, right) {
      NameCharIsNoSpace(body[0]);
      NameCharIsNoSpace(body[|body| - 1]);
      PythonText.StripIs(left, body, right);
    }
  }

  lemma NameCharacters(c: char)
    ensures c in "-_." <==> IsSeparator(c)
    ensures c in "0123456789" ==> IsAlnum(c)
    ensures 'a' <= c <= 'z' || 'A' <= c <= 'Z' ==> IsAlnum(c)
    ensures c in "-_. /@+" ==> !IsAlnum(c)
  {
  }

  /** Upper case letters and the lower case ones that stand for them. */
  lemma LowerLetters(i: nat)
    requires i < 26
    ensures LowerChar("ABCDEFGHIJKLMNOPQRSTUVWXYZ"[i]) == "abcdefghijklmnopqrstuvwxyz"[i]
    ensures LowerChar("abcdefghijklmnopqrstuvwxyz"[i]) == "abcdefghijklmnopqrstuvwxyz"[i]
  {
    LettersInOrder(i);
  }

  lemma LettersInOrder(i: nat)
    requires i < 26
    ensures "ABCDEFGHIJKLMNOPQRSTUVWXYZ"[i] == (65 + i) as char && "abcdefghijklmnopqrstuvwxyz"[i] == (97 + i) as char
  {
  }

  predicate CanonicalChar(c: char) {
    'a' <= c <= 'z' || '0' <= c <= '9' || c == '-'
  }

  predicate IsCanonical(s: string) {
    && 1 <= |s| <= MAX_NAME && s[0] != '-'
    && (forall i :: 0 <= i < |s| ==> CanonicalChar(s[i]))
    && (forall i :: 0 < i < |s| ==> !(s[i] == '-' && s[i - 1] == '-'))
  }

  lemma {:induction false} CollapseIsCanonical(s: string, after: bool)
    requires forall i :: 0 <= i < |s| ==> 'a' <= s[i] <= 'z' || '0' <= s[i] <= '9' || IsSeparator(s[i])
    ensures var r := Collapse(s, after);
      && |r| <= |s|
      && (forall i :: 0 <= i < |r| ==> CanonicalChar(r[i]))
      && (forall i :: 0 < i < |r| ==> !(r[i] == '-' && r[i - 1] == '-'))
      && (after && r != "" ==> r[0] != '-')
      && (s != "" && !IsSeparator(s[0]) ==> r != "" && r[0] == s[0])
  {
    if s != "" {
      CollapseIsCanonical(s[1..], IsSeparator(s[0]));
    }
  }

  lemma CanonicalizeIsCanonical(name: string)
    ensures Canonicalize(name).Some? ==> IsCanonical(Canonicalize(name).value)
  {
    var stripped := PythonText.Strip(name);
    if MatchesName(stripped) {
      CollapseIsCanonical(Lower(stripped), false);
    }
  }

  lemma {:induction false} CollapseFixed(s: string, after: bool)
    requires forall i :: 0 <= i < |s| ==> CanonicalChar(s[i])
    requires forall i :: 0 < i < |s| ==> !(s[i] == '-' && s[i - 1] == '-')
    requires after && s != "" ==> s[0] != '-'
    ensures Collapse(s, after) == s
  {
    if s != "" {
      CollapseFixed(s[1..], s[0] == '-');
    }
  }

  lemma CanonicalIsFixed(s: string)
    requires IsCanonical(s)
    ensures Canonicalize(s) == Some(s)
  {
    assert PythonText.StripLeft(s) == s;
    assert PythonText.StripRight(s) == s by {
      assert CanonicalChar(s[|s| - 1]);
    }
    assert Lower(s) == s;
    CollapseFixed(s, false);
  }

  /** Canonicalising twice is canonicalising once, and the fixed points are the canonical names. */
  lemma CanonicalizeIsIdempotent(name: string)
    ensures Canonicalize(name).Some? ==> Canonicalize(Canonicalize(name).value) == Canonicalize(name)
    ensures Canonicalize(name) == Some(name) <==> IsCanonical(name)
  {
    hide Canonicalize, IsCanonical;
    CanonicalizeIsCanonical(name);
    if Canonicalize(name).Some? {
      CanonicalIsFixed(Canonicalize(name).value);
    }
    if IsCanonical(name) {
      CanonicalIsFixed(name);
    }
  }

  // ---------------------------------------------------------------- a finite universe

  ghost function Letters(): set<char> {
    set c: char | CanonicalChar(c)
  }

  /** All texts of at most n canonical characters. */
  ghost function TextsUpTo(n: nat): set<string> {
    if n == 0 then {""}
    else
      var shorter := TextsUpTo(n - 1);
      {""} + set c, s | c in Letters() && s in shorter :: [c] + s
  }

  lemma {:induction false} TextIsListed(s: string, n: nat)
    requires |s| <= n && forall i :: 0 <= i < |s| ==> CanonicalChar(s[i])
    ensures s in TextsUpTo(n)
  {
    if s != "" {
      TextIsListed(s[1..], n - 1);
      assert s == [s[0]] + s[1..] && s[0] in Letters();
    }
  }

  ghost function Universe(): set<string> {
    TextsUpTo(MAX_NAME)
  }

  /** The names of the packages in a call stack that are still free. */
  ghost function Free(stack: seq<string>): set<string> {
    Universe() - (set i | 0 <= i < |stack| :: stack[i])
  }

  /** Every further call of install takes a name off the finite rest. */
  lemma {:induction false} StackGrowsTowardsEnd(stack: seq<string>, name: string)
    requires IsCanonical(name) && name !in stack
    ensures |Free(stack + [name])| < |Free(stack)|
  {
    hide TextsUpTo;
    assert name in Universe() by { TextIsListed(name, MAX_NAME); }
    var longer := stack + [name];
    assert longer[|stack|] == name;
    assert name in Free(stack) && name !in Free(longer);
    assert Free(longer) <= Free(stack) by {
      assert forall i :: 0 <= i < |stack| ==> longer[i] == stack[i];
    }
    Fewer(Free(longer), Free(stack), name);
  }

  lemma Fewer(a: set<string>, b: set<string>, x: string)
    requires a <= b && x in b && x !in a
    ensures |a| < |b|
  {
    assert a <= b - {x};
    SubsetSize(a, b - {x});
  }

  lemma {:induction false} SubsetSize(a: set<string>, b: set<string>)
    requires a <= b
    ensures |a| <= |b|
  {
    if a != {} {
      var x :| x in a;
      SubsetSize(a - {x}, b - {x});
    }
  }
}
