/**
 * The string operations the view handler applies to the free-text search
 * input: `trim`, `toLowerCase`, `split(/\r?\n|,/)` and `includes`, over
 * ASCII characters.
 */
module Text {

  /** The ASCII characters `String.prototype.trim` removes. */
  predicate IsSpace(c: char) {
    c == ' ' || c == '\t' || c == '\n' || c == '\r' || c as int == 11 || c as int == 12
  }

  predicate IsBlank(s: string) {
    forall i :: 0 <= i < |s| ==> IsSpace(s[i])
  }

  /** No white space at either end. */
  predicate IsTrimmed(s: string) {
    s == [] || (!IsSpace(s[0]) && !IsSpace(s[|s| - 1]))
  }

  function TrimStart(s: string): (r: string)
    ensures |r| <= |s| && r == s[|s| - |r|..]
    ensures r == [] || !IsSpace(r[0])
  {
    if s != [] && IsSpace(s[0]) then TrimStart(s[1..]) else s
  }

  lemma {:induction false} TrimStartRemovesBlank(s: string)
    ensures IsBlank(s[..|s| - |TrimStart(s)|])
  {
    if s != [] && IsSpace(s[0]) {
      TrimStartRemovesBlank(s[1..]);
      assert s[..|s| - |TrimStart(s)|] == [s[0]] + s[1..][..|s| - 1 - |TrimStart(s[1..])|];
    }
  }

  function TrimEnd(s: string): (r: string)
    ensures |r| <= |s| && r == s[..|r|]
    ensures r == [] || !IsSpace(r[|r| - 1])
  {
    if s != [] && IsSpace(s[|s| - 1]) then TrimEnd(s[..|s| - 1]) else s
  }

  lemma {:induction false} TrimEndRemovesBlank(s: string)
    ensures IsBlank(s[|TrimEnd(s)|..])
  {
    if s != [] && IsSpace(s[|s| - 1]) {
      var n := |s| - 1;
      TrimEndRemovesBlank(s[..n]);
      assert s[|TrimEnd(s)|..] == s[..n][|TrimEnd(s[..n])|..] + [s[n]];
    }
  }

  /** `s.trim()`: what is left of `s` after removing white space at both ends. */
  function Trim(s: string): (r: string)
    ensures IsTrimmed(r)
  {
    var t := TrimStart(s);
    var r := TrimEnd(t);
    assert r != [] ==> r[0] == t[0];
    r
  }

  /** Trimming removes only white space, and only at the ends. */
  lemma TrimRemovesBlankEnds(s: string)
    ensures exists i: nat :: OccursAt(s, Trim(s), i) && IsBlank(s[..i]) && IsBlank(s[i + |Trim(s)|..])
  {
    var t := TrimStart(s);
    var r := TrimEnd(t);
    var i := |s| - |t|;
    TrimStartRemovesBlank(s);
    TrimEndRemovesBlank(t);
    assert t == s[i..];
    assert s[i..i + |r|] == t[..|r|];
    assert s[i + |r|..] == t[|r|..];
    assert OccursAt(s, r, i);
    assert IsBlank(s[..i]);
    assert IsBlank(s[i + |r|..]);
  }

  /** Trimming yields the empty string exactly when the input is all white space. */
  lemma {:induction false} TrimEmptyIffBlank(s: string)
    ensures Trim(s) == [] <==> IsBlank(s)
  {
    var t := TrimStart(s);
    TrimStartRemovesBlank(s);
    assert s == s[..|s| - |t|] + t;
    if t != [] {
      var r := TrimEnd(t);
      TrimEndRemovesBlank(t);
      assert !IsSpace(t[0]);
      assert IsBlank(t[|r|..]);
      assert |r| > 0;
    } else {
      assert s[..|s| - |t|] == s;
    }
  }

  /** An already trimmed string is left as it is. */
  lemma TrimTrimmed(s: string)
    requires IsTrimmed(s)
    ensures Trim(s) == s
  {
  }

  predicate IsUpper(c: char) {
    'A' <= c <= 'Z'
  }

  function LowerChar(c: char): (d: char)
    ensures !IsUpper(d)
    ensures IsUpper(c) ==> d as int == c as int + 32
    ensures !IsUpper(c) ==> d == c
  {
    if IsUpper(c) then (c as int + 32) as char else c
  }

  predicate HasNoUpper(s: string) {
    forall c | c in s :: !IsUpper(c)
  }

  /** `s.toLowerCase()`, character by character. */
  function Lower(s: string): (r: string)
    ensures |r| == |s|
  {
    if s == [] then [] else [LowerChar(s[0])] + Lower(s[1..])
  }

  /** Each character is lower-cased on its own, so no upper-case letter remains. */
  lemma {:induction false} LowerAt(s: string)
    ensures forall i :: 0 <= i < |s| ==> Lower(s)[i] == LowerChar(s[i])
    ensures HasNoUpper(Lower(s))
  {
    if s != [] {
      LowerAt(s[1..]);
      assert Lower(s) == [LowerChar(s[0])] + Lower(s[1..]);
    }
  }

  /** Lower-casing a string with no upper-case letters changes nothing. */
  lemma {:induction false} LowerNoUpper(s: string)
    requires HasNoUpper(s)
    ensures Lower(s) == s
  {
    if s != [] {
      assert s[0] in s;
      LowerNoUpper(s[1..]);
    }
  }

  /** `hay.includes(needle)` at position `i`. */
  predicate OccursAt(hay: string, needle: string, i: nat) {
    i + |needle| <= |hay| && hay[i..i + |needle|] == needle
  }

  /** `hay.includes(needle)`. */
  predicate Contains(hay: string, needle: string) {
    exists i: nat :: i <= |hay| && OccursAt(hay, needle, i)
  }

  /** A piece boundary of `split(/\r?\n|,/)`. */
  predicate IsSeparatorChar(c: char) {
    c == ',' || c == '\n'
  }

  predicate HasNoSeparator(s: string) {
    ',' !in s && '\n' !in s
  }

  /**
   * `s.split(/\r?\n|,/)`: the pieces between separators, where a separator is
   * a comma, a line feed, or a carriage return immediately followed by a line
   * feed. There is always at least one piece.
   */
  function Split(s: string): (r: seq<string>)
    ensures |r| >= 1
    decreases |s|
  {
    if s == [] then [""]
    else if IsSeparatorChar(s[0]) then [""] + Split(s[1..])
    else if s[0] == '\r' && |s| >= 2 && s[1] == '\n' then [""] + Split(s[2..])
    else
      var rest := Split(s[1..]);
      [[s[0]] + rest[0]] + rest[1..]
  }

  /** No piece contains a comma or a line feed. */
  lemma {:induction false} SplitPiecesHaveNoSeparator(s: string)
    ensures forall k :: 0 <= k < |Split(s)| ==> HasNoSeparator(Split(s)[k])
    decreases |s|
  {
    if s == [] {
    } else if IsSeparatorChar(s[0]) {
      SplitPiecesHaveNoSeparator(s[1..]);
    } else if s[0] == '\r' && |s| >= 2 && s[1] == '\n' {
      SplitPiecesHaveNoSeparator(s[2..]);
    } else {
      SplitPiecesHaveNoSeparator(s[1..]);
    }
  }

  /** `pieces.join(sep)`. */
  function Join(pieces: seq<string>, sep: string): string
  {
    if |pieces| == 0 then ""
    else if |pieces| == 1 then pieces[0]
    else pieces[0] + sep + Join(pieces[1..], sep)
  }

  /** A piece free of separators is glued to whatever the rest of the input starts with. */
  lemma {:induction false} SplitPiece(p: string, t: string)
    requires HasNoSeparator(p)
    requires t == [] || t[0] != '\n'
    ensures Split(p + t) == [p + Split(t)[0]] + Split(t)[1..]
    decreases |p|
  {
    if p == [] {
      assert p + t == t;
      var r := Split(t);
      assert r == [r[0]] + r[1..];
      assert p + r[0] == r[0];
    } else {
      var u := p[1..] + t;
      assert p + t == [p[0]] + u;
      assert (p + t)[1..] == u;
      assert u == [] || u[0] != '\n' by {
        if p[1..] != [] { assert u[0] == p[1]; }
      }
      assert !IsSeparatorChar(p[0]) by { assert p[0] in p; }
      assert Split(p + t) == [[p[0]] + Split(u)[0]] + Split(u)[1..];
      SplitPiece(p[1..], t);
      assert [p[0]] + (p[1..] + Split(t)[0]) == p + Split(t)[0];
    }
  }

  /** Splitting what was joined with commas gives the pieces back. */
  lemma {:induction false} SplitJoin(pieces: seq<string>)
    requires |pieces| >= 1
    requires forall k :: 0 <= k < |pieces| ==> HasNoSeparator(pieces[k])
    ensures Split(Join(pieces, ",")) == pieces
  {
    if |pieces| == 1 {
      SplitPiece(pieces[0], "");
      assert pieces[0] + "" == pieces[0];
    } else {
      var rest := Join(pieces[1..], ",");
      SplitJoin(pieces[1..]);
      var t := "," + rest;
      assert Join(pieces, ",") == pieces[0] + t;
      assert t[1..] == rest;
      SplitPiece(pieces[0], t);
      assert Split(t) == [""] + pieces[1..];
      assert pieces[0] + "" == pieces[0];
      assert pieces == [pieces[0]] + pieces[1..];
    }
  }
}
