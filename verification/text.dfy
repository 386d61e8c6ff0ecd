/**
 String operations the handlers take from JavaScript's standard library:
 `split` with a one-character separator, `join`, taking the first or last piece of a
 split, and `toLowerCase` restricted to ASCII letters.
 */
module Text {

  /** `Array.prototype.join`: the pieces with `sep` between consecutive ones. No
      pieces join to "", one piece to itself; otherwise the text starts with the first
      piece and a separator. */
  function Join(pieces: seq<string>, sep: string): (joined: string)
    ensures |pieces| == 0 ==> joined == ""
    ensures |pieces| == 1 ==> joined == pieces[0]
    ensures |pieces| > 0 ==> pieces[0] <= joined
    ensures |pieces| > 1 ==> pieces[0] + sep <= joined
  {
    if |pieces| == 0 then ""
    else if |pieces| == 1 then pieces[0]
    else pieces[0] + sep + Join(pieces[1..], sep)
  }

  /** `String.prototype.split` with a one-character separator: the maximal runs of
      characters other than `sep`, in order, including empty runs. Joining them back
      with `sep` gives `s`, and no piece holds the separator, which pins the pieces down. */
  function Split(s: string, sep: char): (pieces: seq<string>)
    ensures |pieces| >= 1
    ensures forall i :: 0 <= i < |pieces| ==> sep !in pieces[i]
    ensures Join(pieces, [sep]) == s
    decreases |s|
  {
    if |s| == 0 then [""]
    else
      var rest := Split(s[1..], sep);
      if s[0] == sep then
        assert ([""] + rest)[1..] == rest;
        [""] + rest
      else
        var pieces := [[s[0]] + rest[0]] + rest[1..];
        assert pieces[1..] == rest[1..];
        assert |rest| > 1 ==> Join(rest, [sep]) == rest[0] + [sep] + Join(rest[1..], [sep]);
        assert s == [s[0]] + s[1..];
        pieces
  }

  /** Joined pieces end with the last piece, preceded by the separator when there
      is more than one piece. */
  lemma {:induction false} JoinEndsWithLast(pieces: seq<string>, sep: string)
    requires |pieces| >= 1
    ensures var j := Join(pieces, sep); var last := pieces[|pieces| - 1];
      |last| <= |j| && j[|j| - |last|..] == last
    ensures |pieces| > 1 ==>
      var j := Join(pieces, sep); var last := pieces[|pieces| - 1];
      |last| + |sep| <= |j| && j[|j| - |last| - |sep|..] == sep + last
    decreases |pieces|
  {
    if |pieces| > 1 {
      var tail := pieces[1..];
      JoinEndsWithLast(tail, sep);
      assert tail[|tail| - 1] == pieces[|pieces| - 1];
      var j := Join(pieces, sep);
      assert j == pieces[0] + sep + Join(tail, sep);
      var jt := Join(tail, sep);
      var last := pieces[|pieces| - 1];
      if |tail| > 1 {
        assert j[|j| - |last| - |sep|..] == jt[|jt| - |last| - |sep|..];
      } else {
        assert jt == last;
        assert j[|j| - |last| - |sep|..] == sep + last;
      }
    }
  }

  /** `s.split(sep)[0]`: the text before the first `sep`, or all of `s` when it
      has none. */
  function FirstPiece(s: string, sep: char): (r: string)
    ensures r <= s
    ensures sep !in r
    ensures |r| == |s| || s[|r|] == sep
  {
    var pieces := Split(s, sep);
    pieces[0]
  }

  /** `s.split(sep).pop()`: the text after the last `sep`, or all of `s` when it
      has none. */
  function LastPiece(s: string, sep: char): (r: string)
    ensures |r| <= |s| && s[|s| - |r|..] == r
    ensures sep !in r
    ensures |r| == |s| || s[|s| - |r| - 1] == sep
  {
    var pieces := Split(s, sep);
    JoinEndsWithLast(pieces, [sep]);
    assert |pieces| > 1 ==> |pieces[|pieces| - 1]| < |s|;
    assert |pieces| == 1 ==> pieces[0] == s;
    pieces[|pieces| - 1]
  }

  /** The first piece of `a + sep + b` is `a` whenever `a` holds no separator. */
  lemma FirstPieceOfJoined(a: string, sep: char, b: string)
    requires sep !in a
    ensures FirstPiece(a + [sep] + b, sep) == a
  {
    var s := a + [sep] + b;
    var r := FirstPiece(s, sep);
    assert s[|a|] == sep;
    assert forall i :: 0 <= i < |a| ==> s[i] == a[i] != sep;
    assert r == s[..|r|];
  }

  /** The last piece of `a + sep + b` is `b` whenever `b` holds no separator. */
  lemma LastPieceOfJoined(a: string, sep: char, b: string)
    requires sep !in b
    ensures LastPiece(a + [sep] + b, sep) == b
  {
    var s := a + [sep] + b;
    var r := LastPiece(s, sep);
    assert s[|a|] == sep;
    assert forall i :: |a| < i < |s| ==> s[i] == b[i - |a| - 1] != sep;
    assert r == s[|s| - |r|..];
  }

  /** A string without the separator is its own first and last piece. */
  lemma PiecesOfUnseparated(s: string, sep: char)
    requires sep !in s
    ensures FirstPiece(s, sep) == s
    ensures LastPiece(s, sep) == s
  {
  }

  predicate IsUpperAscii(c: char) {
    'A' <= c <= 'Z'
  }

  /** `toLowerCase` on one character, for the ASCII letters only. */
  function LowerChar(c: char): (r: char)
    ensures !IsUpperAscii(r)
    ensures !IsUpperAscii(c) ==> r == c
    ensures IsUpperAscii(c) ==> 'a' <= r <= 'z' && r as int - 'a' as int == c as int - 'A' as int
  {
    if IsUpperAscii(c) then (c as int - 'A' as int + 'a' as int) as char else c
  }

  /** `toLowerCase` on a string, for the ASCII letters only. */
  function LowerAscii(s: string): (r: string)
    ensures |r| == |s|
    ensures forall i :: 0 <= i < |s| ==> r[i] == LowerChar(s[i])
  {
    if |s| == 0 then "" else [LowerChar(s[0])] + LowerAscii(s[1..])
  }

  /** Lowercasing leaves text without upper-case letters as it is. */
  lemma LowerAsciiOfLowerCase(s: string)
    requires forall i :: 0 <= i < |s| ==> !IsUpperAscii(s[i])
    ensures LowerAscii(s) == s
  {
    assert forall i :: 0 <= i < |s| ==> LowerAscii(s)[i] == s[i];
  }
}
