/** The text primitives of Python that the model relies on. */
module PythonText {

  /** The characters str.strip() removes. */
  predicate IsSpace(c: char) {
    var n := c as int;
    || 9 <= n <= 13 || 28 <= n <= 32 || n == 0x85 || n == 0xa0 || n == 0x1680
    || 0x2000 <= n <= 0x200a || n == 0x2028 || n == 0x2029 || n == 0x202f || n == 0x205f || n == 0x3000
  }

  function StripLeft(s: string): string {
    if s != "" && IsSpace(s[0]) then StripLeft(s[1..]) else s
  }

  function StripRight(s: string): string {
    if s != "" && IsSpace(s[|s| - 1]) then StripRight(s[..|s| - 1]) else s
  }

  function Strip(s: string): string {
    StripRight(StripLeft(s))
  }

  ghost predicate Blank(s: string) {
    forall c :: c in s ==> IsSpace(c)
  }

  /** Nothing left to strip on either side. */
  ghost predicate Trimmed(s: string) {
    s != "" ==> !IsSpace(s[0]) && !IsSpace(s[|s| - 1])
  }

  lemma {:induction false} StripLeftIs(left: string, body: string)
    requires Blank(left) && (body != "" ==> !IsSpace(body[0]))
    ensures StripLeft(left + body) == body
  {
    hide IsSpace;
    if left == "" {
      assert left + body == body;
    } else {
      assert left[0] in left && (left + body)[0] == left[0] && (left + body)[1..] == left[1..] + body;
      StripLeftIs(left[1..], body);
    }
  }

  lemma {:induction false} StripRightIs(body: string, right: string)
    requires Blank(right) && (body != "" ==> !IsSpace(body[|body| - 1]))
    ensures StripRight(body + right) == body
  {
    hide IsSpace;
    if right == "" {
      assert body + right == body;
    } else {
      var last := right[|right| - 1];
      assert last in right && (body + right)[|body + right| - 1] == last;
      assert (body + right)[..|body + right| - 1] == body + right[..|right| - 1];
      StripRightIs(body, right[..|right| - 1]);
    }
  }

  /** What `strip` is: white space on both sides goes, whatever stands between its first and last other
      character stays. */
  lemma StripIs(left: string, body: string, right: string)
    requires Blank(left) && Blank(right) && Trimmed(body) && (body == "" ==> right == "")
    ensures Strip(left + body + right) == body
  {
    hide IsSpace;
    assert left + body + right == left + (body + right);
    StripLeftIs(left, body + right);
    StripRightIs(body, right);
  }

  /** Tabs, line ends and blanks are white space; letters, digits and the signs of names are not. */
  lemma SpacesAndOthers(c: char)
    ensures c in " \t\r\n" ==> IsSpace(c)
    ensures 'a' <= c <= 'z' || 'A' <= c <= 'Z' || '0' <= c <= '9' || c in "-_.()" ==> !IsSpace(c)
  {
  }

  /** Every text is white space, what strip leaves of it, and white space. */
  lemma {:induction false} StripSplits(s: string) returns (left: string, right: string)
    ensures s == left + Strip(s) + right && Blank(left) && Blank(right) && Trimmed(Strip(s))
  {
    hide IsSpace;
    left := LeftBlank(s);
    right := RightBlank(StripLeft(s));
    assert s == left + (Strip(s) + right);
    if Strip(s) != "" {
      assert StripLeft(s)[0] == Strip(s)[0];
    }
  }

  lemma {:induction false} LeftBlank(s: string) returns (left: string)
    ensures s == left + StripLeft(s) && Blank(left) && (StripLeft(s) != "" ==> !IsSpace(StripLeft(s)[0]))
  {
    hide IsSpace;
    left := "";
    if s != "" && IsSpace(s[0]) {
      var rest := LeftBlank(s[1..]);
      left := [s[0]] + rest;
      assert s == [s[0]] + s[1..];
    }
  }

  lemma {:induction false} RightBlank(s: string) returns (right: string)
    ensures s == StripRight(s) + right && Blank(right)
    ensures StripRight(s) != "" ==> !IsSpace(StripRight(s)[|StripRight(s)| - 1])
  {
    hide IsSpace;
    right := "";
    if s != "" && IsSpace(s[|s| - 1]) {
      var rest := RightBlank(s[..|s| - 1]);
      right := rest + [s[|s| - 1]];
      assert s == s[..|s| - 1] + [s[|s| - 1]];
    }
  }
}
