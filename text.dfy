/** Character classes, string predicates and the JavaScript outcome type
    shared by every phase of the formatter. */
module Text {

  /** The result of running JavaScript code that may throw: either the value
      it returned, or the TypeError thrown when a method is called on
      `null` or `undefined`. */
  datatype Run<+T> = Ok(value: T) | TypeError

  datatype Option<+T> = None | Some(value: T)

  /** Text made of whitespace only (the empty text included). */
  predicate Blank(s: string)
  {
    forall k :: 0 <= k < |s| ==> IsWhitespace(s[k])
  }

  /** `\s` of a JavaScript regular expression: the ECMAScript WhiteSpace and
      LineTerminator code points. */
  predicate IsWhitespace(c: char)
  {
    || c == '\t' || c == '\n' || c == '\U{000B}' || c == '\U{000C}' || c == '\r' || c == ' '
    || c == '\U{00A0}' || c == '\U{1680}' || ('\U{2000}' <= c <= '\U{200A}')
    || c == '\U{2028}' || c == '\U{2029}' || c == '\U{202F}' || c == '\U{205F}'
    || c == '\U{3000}' || c == '\U{FEFF}'
  }

  /** The characters that `.` of a JavaScript regular expression (without the
      `s` flag) refuses to match. */
  predicate IsLineTerminator(c: char)
  {
    c == '\n' || c == '\r' || c == '\U{2028}' || c == '\U{2029}'
  }

  lemma LineTerminatorIsWhitespace(c: char)
    requires IsLineTerminator(c)
    ensures IsWhitespace(c)
  {
  }

  predicate OccursAt(s: string, sub: string, k: nat)
  {
    k + |sub| <= |s| && s[k..k + |sub|] == sub
  }

  /** `s.indexOf(sub) !== -1` */
  predicate Contains(s: string, sub: string)
  {
    exists k: nat :: k <= |s| && OccursAt(s, sub, k)
  }

  /** `s.indexOf('\n') == 0` */
  predicate StartsWithNewline(s: string)
  {
    |s| > 0 && s[0] == '\n'
  }

  /** A string of `k` line feeds. */
  function Newlines(k: nat): (r: string)
    ensures |r| == k
    ensures forall i :: 0 <= i < k ==> r[i] == '\n'
  {
    if k == 0 then "" else "\n" + Newlines(k - 1)
  }

  /** `a` is `b` with zero or more line feeds put in front of it. */
  predicate NewlinesThen(a: string, b: string)
  {
    |a| >= |b| && a == Newlines(|a| - |b|) + b
  }

  /** Concatenation of a sequence of strings, left to right, with no
      separator (the `concat` loop that assembles the output). */
  function Concat(ss: seq<string>): string
  {
    if ss == [] then "" else Concat(ss[..|ss| - 1]) + ss[|ss| - 1]
  }

  lemma {:induction false} ConcatAppend(a: seq<string>, b: seq<string>)
    ensures Concat(a + b) == Concat(a) + Concat(b)
    decreases |b|
  {
    if b == [] {
      assert a + b == a;
    } else {
      var b' := b[..|b| - 1];
      assert (a + b)[..|a + b| - 1] == a + b';
      ConcatAppend(a, b');
    }
  }

  /** Each string of the sequence stands, in order, inside the
      concatenation. */
  lemma {:induction false} ConcatContainsEach(ss: seq<string>, i: nat)
    requires i < |ss|
    ensures OccursAt(Concat(ss), ss[i], |Concat(ss[..i])|)
  {
    calc {
      Concat(ss);
      { assert ss == ss[..i] + ([ss[i]] + ss[i + 1..]); }
      Concat(ss[..i] + ([ss[i]] + ss[i + 1..]));
      { ConcatAppend(ss[..i], [ss[i]] + ss[i + 1..]); }
      Concat(ss[..i]) + Concat([ss[i]] + ss[i + 1..]);
      { ConcatAppend([ss[i]], ss[i + 1..]); }
      Concat(ss[..i]) + (Concat([ss[i]]) + Concat(ss[i + 1..]));
      { assert [ss[i]][..0] == []; }
      Concat(ss[..i]) + (ss[i] + Concat(ss[i + 1..]));
    }
  }

  /** A string cannot contain a substring whose first character it lacks. */
  lemma ContainsNeedsFirst(s: string, sub: string)
    requires |sub| > 0 && sub[0] !in s
    ensures !Contains(s, sub)
  {
    forall k: nat | k <= |s|
      ensures !OccursAt(s, sub, k)
    {
      if k + |sub| <= |s| {
        assert s[k..k + |sub|][0] == s[k];
      }
    }
  }

  /** An occurrence stays an occurrence inside a longer text. */
  lemma ContainsWithin(a: string, t: string, b: string, sub: string)
    requires Contains(t, sub)
    ensures Contains(a + t + b, sub)
  {
    var k: nat :| k <= |t| && OccursAt(t, sub, k);
    assert (a + t + b)[|a| + k..|a| + k + |sub|] == t[k..k + |sub|];
    assert |a| + k <= |a + t + b| && OccursAt(a + t + b, sub, |a| + k);
  }

  /** Putting a line feed in front, or a space at the end, cannot create an
      occurrence of a substring that holds neither. */
  lemma ContainsFramed(t: string, sub: string)
    requires |sub| > 0 && sub[0] != '\n' && sub[|sub| - 1] != ' '
    ensures Contains("\n" + t, sub) <==> Contains(t, sub)
    ensures Contains(t + " ", sub) <==> Contains(t, sub)
  {
    if Contains("\n" + t, sub) {
      var k: nat :| k <= |"\n" + t| && OccursAt("\n" + t, sub, k);
      assert k > 0 by { assert ("\n" + t)[k] == sub[0]; }
      assert t[k - 1..k - 1 + |sub|] == ("\n" + t)[k..k + |sub|];
      assert k - 1 <= |t| && OccursAt(t, sub, k - 1);
    }
    if Contains(t, sub) {
      var k: nat :| k <= |t| && OccursAt(t, sub, k);
      assert ("\n" + t)[k + 1..k + 1 + |sub|] == t[k..k + |sub|];
      assert k + 1 <= |"\n" + t| && OccursAt("\n" + t, sub, k + 1);
      assert (t + " ")[k..k + |sub|] == t[k..k + |sub|];
      assert k <= |t + " "| && OccursAt(t + " ", sub, k);
    }
    if Contains(t + " ", sub) {
      var k: nat :| k <= |t + " "| && OccursAt(t + " ", sub, k);
      assert k + |sub| <= |t|;
      assert t[k..k + |sub|] == (t + " ")[k..k + |sub|];
      assert k <= |t| && OccursAt(t, sub, k);
    }
  }
  /** Text in front that lacks the substring's first character cannot take
      part in an occurrence. */
  lemma ContainsAfter(w: string, t: string, sub: string)
    requires |sub| > 0 && sub[0] !in w
    ensures Contains(w + t, sub) ==> Contains(t, sub)
  {
    if Contains(w + t, sub) {
      var k: nat :| k <= |w + t| && OccursAt(w + t, sub, k);
      assert (w + t)[k] == sub[0];
      assert k >= |w|;
      assert t[k - |w|..k - |w| + |sub|] == (w + t)[k..k + |sub|];
      assert k - |w| <= |t| && OccursAt(t, sub, k - |w|);
    }
  }

  /** An occurrence inside a slice is an occurrence in the whole text. */
  lemma ContainsSlice(s: string, a: nat, b: nat, sub: string)
    requires a <= b <= |s|
    ensures Contains(s[a..b], sub) ==> Contains(s, sub)
  {
    if Contains(s[a..b], sub) {
      assert s == s[..a] + s[a..b] + s[b..];
      ContainsWithin(s[..a], s[a..b], s[b..], sub);
    }
  }

  /** Text shorter than the substring cannot hold it. */
  lemma ShortLacks(t: string, sub: string)
    requires |t| < |sub|
    ensures !Contains(t, sub)
  {
  }
}
