/** The text tokenizer of vec.c: whitespace skipping, '%' comment lines and
    whitespace-delimited tokens.  Each operation is a method that advances a
    Reader, proved against a function on the unread suffix. */
module Tokenizer {
  import opened CText
  import opened Streams

  // ---------------------------------------------------------------- specification

  /** What remains after reading up to and including the next '\n'; a line
      that runs into the end of the input is consumed whole. */
  function SkipLine(s: string): (r: string)
    ensures |r| <= |s| && r == s[|s| - |r|..]
    ensures '\n' !in s[..IndexOf(s, '\n')]
  {
    var k := IndexOf(s, '\n');
    if k < |s| then s[k + 1..] else []
  }

  /** The input once skip_comment has run: whitespace is skipped, and while the
      next character is '%' the rest of that line is dropped and the skipping
      starts again. */
  function AfterComments(s: string): (r: string)
    ensures |r| <= |s|
    ensures r == [] || (!IsSpace(r[0]) && r[0] != '%')
    decreases |s|
  {
    var t := SkipSpaces(s);
    if t != [] && t[0] == '%' then AfterComments(SkipLine(t[1..])) else t
  }

  /** Length of the run of non-whitespace characters at the front of `t`. */
  function TokenLength(t: string): (k: nat)
    ensures k <= |t|
    ensures forall i :: 0 <= i < k ==> !IsSpace(t[i])
    ensures k < |t| ==> IsSpace(t[k])
  {
    if t != [] && !IsSpace(t[0]) then 1 + TokenLength(t[1..]) else 0
  }

  /** get_token: skip whitespace, take the longest run of non-whitespace
      characters, and consume the one whitespace character that ends it. */
  function NextToken(s: string): (string, string) {
    var t := SkipSpaces(s);
    var k := TokenLength(t);
    (t[..k], if k < |t| then t[k + 1..] else [])
  }

  /** The token holds no whitespace, is the front of the input once its
      leading whitespace is skipped, and is maximal: it ends at the input's
      end or at a whitespace character, which the rest leaves out. */
  lemma NextTokenSpec(s: string)
    ensures var (tok, rest) := NextToken(s);
      var t := SkipSpaces(s);
      && (forall i :: 0 <= i < |tok| ==> !IsSpace(tok[i]))
      && |tok| <= |t| && t[..|tok|] == tok
      && (|tok| == |t| ==> rest == [])
      && (|tok| < |t| ==> IsSpace(t[|tok|]) && rest == t[|tok| + 1..])
  {
  }

  /** A comment line as the writers emit it: starts with '%', no line break. */
  predicate IsCommentLine(l: string) {
    |l| > 0 && l[0] == '%' && '\n' !in l
  }

  /** Lines, each followed by '\n'. */
  function Lines(ls: seq<string>): string {
    if ls == [] then "" else ls[0] + "\n" + Lines(ls[1..])
  }

  // ---------------------------------------------------------------- properties

  lemma SkipLineOver(a: string, rest: string)
    requires '\n' !in a
    ensures SkipLine(a + "\n" + rest) == rest
  {
    var s := a + "\n" + rest;
    assert s[..|a|] == a;
    IndexOfFirst(s, '\n', |a|);
    assert s[|a| + 1..] == rest;
  }

  /** Leading whitespace does not change where the comment skipping ends. */
  lemma AfterCommentsSpaces(w: string, x: string)
    requires AllSpaces(w)
    ensures AfterComments(w + x) == AfterComments(x)
  {
    SkipSpacesPrefix(w, x);
    assert SkipSpaces(SkipSpaces(x)) == SkipSpaces(x);
  }

  /** A block of comment lines is skipped entirely. */
  lemma {:induction false} AfterCommentsBlock(ls: seq<string>, rest: string)
    requires forall i :: 0 <= i < |ls| ==> IsCommentLine(ls[i])
    ensures AfterComments(Lines(ls) + rest) == AfterComments(rest)
  {
    if ls != [] {
      var l := ls[0];
      var s := Lines(ls) + rest;
      assert s == l + "\n" + (Lines(ls[1..]) + rest);
      assert SkipSpaces(s) == s;
      assert s[1..] == l[1..] + "\n" + (Lines(ls[1..]) + rest);
      assert '\n' !in l[1..] by {
        assert forall x :: x in l[1..] ==> x in l;
      }
      SkipLineOver(l[1..], Lines(ls[1..]) + rest);
      AfterCommentsBlock(ls[1..], rest);
    } else {
      assert Lines(ls) + rest == rest;
    }
  }

  /** Skipping stops in front of a character that is neither whitespace nor '%'. */
  lemma AfterCommentsStops(x: string)
    requires x != [] && !IsSpace(x[0]) && x[0] != '%'
    ensures AfterComments(x) == x
  {
  }

  /** A token followed by a whitespace character is read back whole, and the
      reader stops just after the whitespace. */
  lemma NextTokenOf(t: string, c: char, rest: string)
    requires t != [] && forall i :: 0 <= i < |t| ==> !IsSpace(t[i])
    requires IsSpace(c)
    ensures NextToken(t + [c] + rest) == (t, rest)
  {
    var s := t + [c] + rest;
    assert SkipSpaces(s) == s;
    TokenLengthOf(t, [c] + rest);
    assert s == t + ([c] + rest);
    assert s[..|t|] == t;
    assert s[|t| + 1..] == rest;
  }

  /** A token running into the end of the input is read back whole. */
  lemma NextTokenAtEnd(t: string)
    requires t != [] && forall i :: 0 <= i < |t| ==> !IsSpace(t[i])
    ensures NextToken(t) == (t, [])
  {
    assert SkipSpaces(t) == t;
    TokenLengthOf(t, []);
    assert t + [] == t;
  }

  lemma {:induction false} TokenLengthOf(t: string, rest: string)
    requires forall i :: 0 <= i < |t| ==> !IsSpace(t[i])
    requires rest == [] || IsSpace(rest[0])
    ensures TokenLength(t + rest) == |t|
  {
    if t != [] {
      assert (t + rest)[0] == t[0];
      assert (t + rest)[1..] == t[1..] + rest;
      TokenLengthOf(t[1..], rest);
    } else {
      assert t + rest == rest;
    }
  }

  // ---------------------------------------------------------------- methods

  /** skip_whitespace (vec.c:48-59). */
  method SkipWhitespace(r: Reader)
    requires r.Valid()
    modifies r
    ensures r.Valid() && r.Rest() == SkipSpaces(old(r.Rest()))
  {
    var s := r.Rest();
    var i := 0;
    while i < |s| && IsSpace(s[i])
      invariant r.pos + |s| == |r.data|
      invariant i <= |s| && AllSpaces(s[..i])
    {
      i := i + 1;
    }
    SkipSpacesPrefix(s[..i], s[i..]);
    assert s == s[..i] + s[i..];
    r.pos := r.pos + i;
    assert r.Rest() == s[i..];
  }

  /** The inner loop of skip_comment (vec.c:68-72): characters are read up
      to and including the line break, or to the end of the input. */
  method SkipToEndOfLine(r: Reader)
    requires r.Valid()
    modifies r
    ensures r.Valid() && r.Rest() == SkipLine(old(r.Rest()))
  {
    var u := r.Rest();
    var i := 0;
    var eol := false;
    while !eol && i < |u|
      invariant r.pos + |u| == |r.data|
      invariant i <= |u|
      invariant !eol ==> '\n' !in u[..i]
      invariant eol ==> 0 < i && u[i - 1] == '\n' && '\n' !in u[..i - 1]
      decreases |u| - i
    {
      assert u[..i + 1] == u[..i] + [u[i]];
      eol := u[i] == '\n';
      i := i + 1;
    }
    if eol {
      IndexOfFirst(u, '\n', i - 1);
    } else {
      assert u[..i] == u;
    }
    r.pos := r.pos + i;
    assert r.Rest() == u[i..];
  }

  /** skip_comment (vec.c:61-79). */
  method SkipComment(r: Reader)
    requires r.Valid()
    modifies r
    ensures r.Valid() && r.Rest() == AfterComments(old(r.Rest()))
    decreases |r.data| - r.pos
  {
    ghost var s := r.Rest();
    SkipWhitespace(r);
    var t := r.Rest();
    if t != [] && t[0] == '%' {
      r.pos := r.pos + 1;
      assert r.Rest() == t[1..];
      SkipToEndOfLine(r);
      assert AfterComments(s) == AfterComments(SkipLine(t[1..]));
      SkipComment(r);
    } else {
      SkipWhitespace(r);
      assert AfterComments(s) == t;
    }
  }

  /** The collecting loop of get_token (vec.c:85-105): characters up to the
      first whitespace go into a buffer that starts at 128 characters and
      doubles, keeping what it holds, whenever fewer than two free places
      remain; the buffer is NUL-terminated after the last one. */
  method CollectToken(t: string) returns (token: string)
    ensures token == t[..TokenLength(t)]
  {
    var buffLength := 128;
    var buff := new char[buffLength];
    var i := 0;
    while i < |t| && !IsSpace(t[i])
      invariant fresh(buff)
      invariant i <= |t|
      invariant i < buffLength == buff.Length
      invariant buff[..i] == t[..i]
      invariant forall k :: 0 <= k < i ==> !IsSpace(t[k])
    {
      if i > buffLength - 2 {
        var bigger := new char[buffLength * 2];
        forall k | 0 <= k < buffLength {
          bigger[k] := buff[k];
        }
        buffLength := buffLength * 2;
        buff := bigger;
      }
      buff[i] := t[i];
      assert t[..i + 1] == t[..i] + [t[i]];
      i := i + 1;
    }
    assert TokenLength(t) == i;
    buff[i] := '\0';
    token := buff[..i];
  }

  /** get_token (vec.c:81-107). */
  method GetToken(r: Reader) returns (token: string)
    requires r.Valid()
    modifies r
    ensures r.Valid() && (token, r.Rest()) == NextToken(old(r.Rest()))
  {
    ghost var s := r.Rest();
    SkipWhitespace(r);
    var t := r.Rest();
    token := CollectToken(t);
    var i := |token|;
    ghost var k := TokenLength(t);
    assert i == k;
    // the whitespace character that ends the token is consumed too
    if i < |t| {
      r.pos := r.pos + i + 1;
      assert r.Rest() == t[k + 1..];
    } else {
      r.pos := |r.data|;
      assert r.Rest() == [];
    }
    assert NextToken(s) == (t[..k], if k < |t| then t[k + 1..] else []);
  }
}
