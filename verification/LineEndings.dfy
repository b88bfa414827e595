/** Conversion of line endings to CRLF, in one go and piece by piece. */
module LineEndings {
  import opened Search

  const CRLF := "\r\n"
  const LF := "\n"

  /** `text.replace("\r\n", "\n").replace("\n", "\r\n")` */
  function ToCrlf(text: string): string {
    Replace(Replace(text, CRLF, LF), LF, CRLF)
  }

  /** The same, read off character by character. */
  function Direct(text: string): string {
    if text == "" then ""
    else if |text| >= 2 && text[0] == '\r' && text[1] == '\n' then CRLF + Direct(text[2..])
    else if text[0] == '\n' then CRLF + Direct(text[1..])
    else [text[0]] + Direct(text[1..])
  }

  lemma ReplaceHere<T>(s: seq<T>, p: seq<T>, r: seq<T>)
    requires |p| > 0 && OccursAt(s, p, 0)
    ensures Replace(s, p, r) == r + Replace(s[|p|..], p, r)
  {
    hide Find;
    FindIs(s, p, 0);
    assert s[..0] + r == r;
  }

  lemma ReplaceLater<T>(s: seq<T>, p: seq<T>, r: seq<T>)
    requires |p| > 0 && s != [] && !OccursAt(s, p, 0)
    ensures Replace(s, p, r) == [s[0]] + Replace(s[1..], p, r)
  {
    hide Find, Replace;
    assert [s[0]] + s[1..] == s;
    SkipPrefix([s[0]], s[1..], p, r);
  }

  lemma ReplaceEmpty<T>(p: seq<T>, r: seq<T>)
    requires |p| > 0
    ensures Replace([], p, r) == []
  {
  }

  lemma {:induction false} ToCrlfIsDirect(text: string)
    ensures ToCrlf(text) == Direct(text)
    decreases |text|
  {
    hide Replace, Find;
    if text == "" {
      ReplaceEmpty(CRLF, LF);
      ReplaceEmpty(LF, CRLF);
    } else {
      var joined := Replace(text, CRLF, LF);
      if OccursAt(text, CRLF, 0) {
        ReplaceHere(text, CRLF, LF);
        var rest := Replace(text[2..], CRLF, LF);
        assert text[0] == CRLF[0] && text[1] == CRLF[1];
        assert joined[1..] == rest;
        ReplaceHere(joined, LF, CRLF);
        ToCrlfIsDirect(text[2..]);
      } else {
        ReplaceLater(text, CRLF, LF);
        var rest := Replace(text[1..], CRLF, LF);
        assert joined[1..] == rest;
        NotCrlf(text);
        if text[0] == '\n' {
          ReplaceHere(joined, LF, CRLF);
        } else {
          assert !OccursAt(joined, LF, 0) by { assert joined[0] != LF[0]; }
          ReplaceLater(joined, LF, CRLF);
        }
        ToCrlfIsDirect(text[1..]);
      }
    }
  }

  lemma NotCrlf(text: string)
    ensures OccursAt(text, CRLF, 0) <==> |text| >= 2 && text[0] == '\r' && text[1] == '\n'
  {
    assert CRLF[0] == '\r' && CRLF[1] == '\n';
    if OccursAt(text, CRLF, 0) {
      assert text[0 + 0] == CRLF[0] && text[0 + 1] == CRLF[1];
    }
  }

  predicate EndsInCr(text: string) {
    text != "" && text[|text| - 1] == '\r'
  }

  predicate StartsWithLf(text: string) {
    text != "" && text[0] == '\n'
  }

  /** A cut between CR and LF. */
  predicate Torn(a: string, b: string) {
    EndsInCr(a) && StartsWithLf(b)
  }

  /** Converting two parts on their own is converting the whole, except that a torn CRLF gains a CR. */
  lemma {:induction false} DirectSplit(a: string, b: string)
    ensures !Torn(a, b) ==> Direct(a + b) == Direct(a) + Direct(b)
    ensures Torn(a, b) ==> |Direct(a)| + |Direct(b)| == |Direct(a + b)| + 1
    decreases |a|
  {
    hide Direct;
    if a == "" {
      assert a + b == b;
      assert Direct("") + Direct(b) == Direct(b) by { DirectNothing(); }
    } else if |a| == 1 {
      DirectOfOne(a[0], b);
      assert a == [a[0]];
    } else {
      var k := if a[0] == '\r' && a[1] == '\n' then 2 else 1;
      DirectFront(a, k);
      DirectFront(a + b, k);
      assert (a + b)[k..] == a[k..] + b;
      DirectSplit(a[k..], b);
    }
  }

  lemma DirectNothing()
    ensures Direct("") == ""
  {
  }

  /** The first unit of a text: the conversion of its first one or two characters. */
  function Unit(text: string): string
    requires text != ""
  {
    if text[0] == '\n' || (|text| >= 2 && text[0] == '\r' && text[1] == '\n') then CRLF else [text[0]]
  }

  lemma DirectFront(text: string, k: nat)
    requires |text| >= 2 && k == (if text[0] == '\r' && text[1] == '\n' then 2 else 1)
    ensures Direct(text) == Unit(text) + Direct(text[k..])
  {
  }

  lemma DirectOfOne(c: char, b: string)
    ensures !Torn([c], b) ==> Direct([c] + b) == Direct([c]) + Direct(b)
    ensures Torn([c], b) ==> |Direct([c])| + |Direct(b)| == |Direct([c] + b)| + 1
  {
    var text := [c] + b;
    assert text[1..] == b && [c][1..] == "";
    assert Direct([c][1..]) == "";
    if Torn([c], b) {
      assert text[2..] == b[1..];
    }
  }

  /** What has been emitted when the given pieces were converted one by one. */
  function Converted(pieces: seq<string>): string {
    if pieces == [] then "" else Converted(pieces[..|pieces| - 1]) + ToCrlf(pieces[|pieces| - 1])
  }

  function Joined(pieces: seq<string>): string {
    if pieces == [] then "" else Joined(pieces[..|pieces| - 1]) + pieces[|pieces| - 1]
  }

  /** Number of CRLFs torn between consecutive pieces, or between the last one and what follows. */
  function Tears(pieces: seq<string>, next: string): nat {
    if pieces == [] then 0
    else
      var last := pieces[|pieces| - 1];
      Tears(pieces[..|pieces| - 1], last) + (if Torn(last, next) then 1 else 0)
  }

  predicate AllNonEmpty(pieces: seq<string>) {
    forall p :: p in pieces ==> p != ""
  }

  lemma LastCharacter(front: string, last: string, next: string)
    requires last != ""
    ensures Torn(front + last, next) <==> Torn(last, next)
  {
  }

  /** Piecewise conversion gains one CR per torn CRLF, and is exact without tears. */
  lemma {:induction false} PiecewiseLength(pieces: seq<string>, next: string)
    requires AllNonEmpty(pieces)
    ensures |Converted(pieces)| + |ToCrlf(next)| == |ToCrlf(Joined(pieces) + next)| + Tears(pieces, next)
    ensures Tears(pieces, next) == 0 ==> Converted(pieces) + ToCrlf(next) == ToCrlf(Joined(pieces) + next)
    decreases |pieces|
  {
    hide ToCrlf, Direct;
    if pieces == [] {
      assert Joined(pieces) + next == next;
    } else {
      var front, last := pieces[..|pieces| - 1], pieces[|pieces| - 1];
      assert last in pieces && forall p :: p in front ==> p in pieces;
      PiecewiseLength(front, last);
      SplitCrlf(Joined(front) + last, next);
      LastCharacter(Joined(front), last, next);
    }
  }

  lemma SplitCrlf(a: string, b: string)
    ensures !Torn(a, b) ==> ToCrlf(a + b) == ToCrlf(a) + ToCrlf(b)
    ensures Torn(a, b) ==> |ToCrlf(a)| + |ToCrlf(b)| == |ToCrlf(a + b)| + 1
  {
    hide ToCrlf, Direct, Torn;
    ToCrlfIsDirect(a);
    ToCrlfIsDirect(b);
    ToCrlfIsDirect(a + b);
    DirectSplit(a, b);
  }
}
