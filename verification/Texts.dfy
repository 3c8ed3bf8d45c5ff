/**
 Texts as the controllers normalise them.
 */
module Texts {

  predicate IsSpace(c: char) {
    c in {' ', '\t', '\n', '\r'} || c as int in {11, 12}
  }

  /** The text without white space at its ends. */
  function Trimmed(s: string): string
    decreases |s|
  {
    if s == "" then ""
    else if IsSpace(s[0]) then Trimmed(s[1..])
    else if IsSpace(s[|s| - 1]) then Trimmed(s[..|s| - 1])
    else s
  }

  predicate Blank(s: string) {
    forall k :: 0 <= k < |s| ==> IsSpace(s[k])
  }

  /** Trimming takes white space off both ends and nothing else, as far as there is any. */
  lemma {:induction false} TrimmedExactly(s: string) returns (front: string, back: string)
    ensures s == front + Trimmed(s) + back && Blank(front) && Blank(back)
    ensures Trimmed(s) != "" ==> !IsSpace(Trimmed(s)[0]) && !IsSpace(Trimmed(s)[|Trimmed(s)| - 1])
    ensures Trimmed(s) == "" <==> Blank(s)
    decreases |s|
  {
    hide Blank;
    front, back := "", "";
    BlankAppend("", s);
    if s != "" && IsSpace(s[0]) {
      assert s == [s[0]] + s[1..];
      BlankAppend([s[0]], s[1..]);
      front, back := TrimmedExactly(s[1..]);
      BlankAppend([s[0]], front);
      front := [s[0]] + front;
    } else if s != "" && IsSpace(s[|s| - 1]) {
      var last := [s[|s| - 1]];
      assert s == s[..|s| - 1] + last;
      BlankAppend(s[..|s| - 1], last);
      front, back := TrimmedExactly(s[..|s| - 1]);
      BlankAppend(back, last);
      back := back + last;
    }
  }

  lemma {:induction false} BlankAppend(a: string, b: string)
    ensures Blank(a + b) <==> Blank(a) && Blank(b)
    ensures Blank("")
    ensures b != "" && !IsSpace(b[0]) ==> !Blank(b)
    ensures |a| == 1 ==> (Blank(a) <==> IsSpace(a[0]))
    ensures |b| == 1 ==> (Blank(b) <==> IsSpace(b[0]))
  {
    assert forall k :: 0 <= k < |b| ==> (a + b)[|a| + k] == b[k];
    assert forall k :: 0 <= k < |a| ==> (a + b)[k] == a[k];
  }
}
