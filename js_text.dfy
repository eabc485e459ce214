/** The three JavaScript string operations the loader and the exporter rely on:
    String.prototype.split and Array.prototype.join with a one-character
    separator, and String.prototype.trim. */
module JsText {

  /** The characters ECMAScript's WhiteSpace and LineTerminator productions
      accept: what trim() strips and what parseInt() skips at the start. Below
      U+00A0 they are the space and the five controls from tab to carriage return. */
  predicate IsJsWhitespace(c: char) {
    if c < '\U{00A0}' then c == ' ' || ('\t' <= c <= '\r')
    else
      || c == '\U{00A0}' || c == '\U{1680}' || ('\U{2000}' <= c <= '\U{200A}')
      || c == '\U{2028}' || c == '\U{2029}' || c == '\U{202F}' || c == '\U{205F}'
      || c == '\U{3000}' || c == '\U{FEFF}'
  }

  /** Number of occurrences of d in s. */
  function Count(s: string, d: char): nat {
    if s == [] then 0 else (if s[0] == d then 1 else 0) + Count(s[1..], d)
  }

  /** s.split(d): the pieces between occurrences of d, always at least one. */
  function SplitOn(s: string, d: char): (r: seq<string>)
    ensures |r| == Count(s, d) + 1
    ensures forall i :: 0 <= i < |r| ==> d !in r[i]
  {
    if s == [] then [[]]
    else
      var rest := SplitOn(s[1..], d);
      if s[0] == d then [[]] + rest
      else [[s[0]] + rest[0]] + rest[1..]
  }

  /** parts.join(d); the join of no parts is the empty string. Joining parts
      that do not hold the separator puts exactly one separator between each
      two of them. */
  function JoinWith(parts: seq<string>, d: char): (r: string)
    ensures |parts| > 0 && (forall i :: 0 <= i < |parts| ==> d !in parts[i]) ==> Count(r, d) == |parts| - 1
  {
    if |parts| == 0 then []
    else if |parts| == 1 then
      CountAbsent(parts[0], d);
      parts[0]
    else
      var rest := JoinWith(parts[1..], d);
      CountAbsent(parts[0], d);
      CountAppend(parts[0], [d], d);
      CountAppend(parts[0] + [d], rest, d);
      assert [d][1..] == [];
      parts[0] + [d] + rest
  }

  /** A string without d holds it no times. */
  lemma {:induction false} CountAbsent(s: string, d: char)
    ensures d !in s ==> Count(s, d) == 0
  {
    if s != [] {
      CountAbsent(s[1..], d);
    }
  }

  /** Occurrences add up over concatenation. */
  lemma {:induction false} CountAppend(a: string, b: string, d: char)
    ensures Count(a + b, d) == Count(a, d) + Count(b, d)
  {
    if a == [] {
      assert a + b == b;
    } else {
      assert (a + b)[1..] == a[1..] + b;
      CountAppend(a[1..], b, d);
    }
  }

  /** Cutting at the first separator: what lies before it is the first piece. */
  lemma {:induction false} SplitOnFirst(a: string, d: char, b: string)
    requires d !in a
    ensures SplitOn(a + [d] + b, d) == [a] + SplitOn(b, d)
  {
    if a == [] {
      assert a + [d] + b == [d] + b;
      assert ([d] + b)[1..] == b;
    } else {
      assert (a + [d] + b)[1..] == a[1..] + [d] + b;
      SplitOnFirst(a[1..], d, b);
      assert [a[0]] + a[1..] == a;
    }
  }

  /** A string without the separator splits into itself alone. */
  lemma {:induction false} SplitOnNone(a: string, d: char)
    requires d !in a
    ensures SplitOn(a, d) == [a]
  {
    if a != [] {
      SplitOnNone(a[1..], d);
      assert [a[0]] + a[1..] == a;
    }
  }

  /** Splitting only cuts: a character absent from s is absent from every piece. */
  lemma {:induction false} SplitOnKeepsOut(s: string, d: char, c: char)
    requires c !in s
    ensures forall i :: 0 <= i < |SplitOn(s, d)| ==> c !in SplitOn(s, d)[i]
  {
    if s != [] {
      SplitOnKeepsOut(s[1..], d, c);
      assert s == [s[0]] + s[1..];
    }
  }

  /** split undoes join when no part holds the separator. */
  lemma {:induction false} SplitJoin(parts: seq<string>, d: char)
    requires |parts| > 0
    requires forall i :: 0 <= i < |parts| ==> d !in parts[i]
    ensures SplitOn(JoinWith(parts, d), d) == parts
  {
    if |parts| == 1 {
      SplitOnNone(parts[0], d);
    } else {
      SplitJoin(parts[1..], d);
      SplitOnFirst(parts[0], d, JoinWith(parts[1..], d));
      assert [parts[0]] + parts[1..] == parts;
    }
  }

  /** join undoes split, for every string. */
  lemma {:induction false} JoinSplit(s: string, d: char)
    ensures JoinWith(SplitOn(s, d), d) == s
  {
    if s != [] {
      var rest := SplitOn(s[1..], d);
      JoinSplit(s[1..], d);
      if s[0] == d {
        var empty: string := [];
        assert SplitOn(s, d) == [empty] + rest;
        assert ([empty] + rest)[1..] == rest;
        assert [d] + s[1..] == s;
      } else {
        var parts := [[s[0]] + rest[0]] + rest[1..];
        assert parts[1..] == rest[1..];
        if |rest| == 1 {
          assert JoinWith(parts, d) == [s[0]] + rest[0];
        } else {
          assert JoinWith(rest, d) == rest[0] + [d] + JoinWith(rest[1..], d);
        }
        assert [s[0]] + s[1..] == s;
      }
    }
  }

  /** Every character of s is whitespace. */
  predicate AllWhitespace(s: string) {
    forall k :: 0 <= k < |s| ==> IsJsWhitespace(s[k])
  }

  /** The number of whitespace characters s starts with. */
  function LeadingWhitespace(s: string): (n: nat)
    ensures n <= |s| && forall k :: 0 <= k < n ==> IsJsWhitespace(s[k])
    ensures n < |s| ==> !IsJsWhitespace(s[n])
  {
    if s != [] && IsJsWhitespace(s[0]) then 1 + LeadingWhitespace(s[1..]) else 0
  }

  /** The number of whitespace characters s ends with. */
  function TrailingWhitespace(s: string): (n: nat)
    ensures n <= |s| && forall k :: |s| - n <= k < |s| ==> IsJsWhitespace(s[k])
    ensures n < |s| ==> !IsJsWhitespace(s[|s| - n - 1])
  {
    if s != [] && IsJsWhitespace(s[|s| - 1]) then 1 + TrailingWhitespace(s[..|s| - 1]) else 0
  }

  /** s.trimStart(): s without its leading whitespace. */
  function TrimStart(s: string): (r: string)
    ensures |r| <= |s| && r == s[|s| - |r|..]
    ensures forall k :: 0 <= k < |s| - |r| ==> IsJsWhitespace(s[k])
    ensures r == [] || !IsJsWhitespace(r[0])
  {
    s[LeadingWhitespace(s)..]
  }

  /** Neither end of s is whitespace. */
  predicate IsTrimmed(s: string) {
    s == [] || (!IsJsWhitespace(s[0]) && !IsJsWhitespace(s[|s| - 1]))
  }

  /** r is the infix of s starting at i, and only whitespace surrounds it. */
  predicate InfixBetweenWhitespace(s: string, r: string, i: int) {
    && 0 <= i <= |s| - |r| && r == s[i..i + |r|]
    && (forall k :: 0 <= k < i ==> IsJsWhitespace(s[k]))
    && (forall k :: i + |r| <= k < |s| ==> IsJsWhitespace(s[k]))
  }

  /** s.trim(): the infix of s left once whitespace is stripped from both ends. */
  function Trim(s: string): (r: string)
    ensures IsTrimmed(r)
    ensures exists i :: InfixBetweenWhitespace(s, r, i)
  {
    var lead := LeadingWhitespace(s);
    if lead == |s| then
      assert InfixBetweenWhitespace(s, [], lead);
      []
    else
      var trail := TrailingWhitespace(s);
      assert trail < |s| - lead;
      var r := s[lead..|s| - trail];
      assert InfixBetweenWhitespace(s, r, lead);
      r
  }

  /** trim() only removes characters. */
  lemma TrimKeepsOut(s: string, c: char)
    requires c !in s
    ensures c !in Trim(s)
  {
    var r := Trim(s);
    var i :| InfixBetweenWhitespace(s, r, i);
    assert forall k :: 0 <= k < |r| ==> r[k] == s[i + k];
  }

  /** trim() leaves a string alone exactly when neither end is whitespace. */
  lemma TrimFixpoint(s: string)
    ensures Trim(s) == s <==> IsTrimmed(s)
  {
    if IsTrimmed(s) && s != [] {
      assert LeadingWhitespace(s) == 0;
      assert TrailingWhitespace(s) == 0;
    }
  }
}
