/**
 The small part of Python's `str` behaviour that the game relies on:
 `isspace`, `isupper`, `isalpha`, `lower`, `strip`, `split()`, `" ".join` and
 the substring test `q in s`. Letters and case are modelled on ASCII only.
 */
module Text {

  /** Python's `str.isspace` for a single character (ASCII and Unicode separators). */
  predicate IsSpace(c: char) {
    var n := c as int;
    || 9 <= n <= 13
    || 28 <= n <= 32
    || n == 0x85 || n == 0xA0 || n == 0x1680
    || 0x2000 <= n <= 0x200A
    || n == 0x2028 || n == 0x2029 || n == 0x202F || n == 0x205F || n == 0x3000
  }

  predicate IsUpper(c: char) { 'A' <= c <= 'Z' }

  predicate IsLowerAlpha(c: char) { 'a' <= c <= 'z' }

  predicate IsAlpha(c: char) { IsUpper(c) || IsLowerAlpha(c) }

  /** `c.lower()`: only upper-case letters change, and they become lower-case letters. */
  function ToLower(c: char): (d: char)
    ensures !IsUpper(d)
    ensures IsUpper(c) ==> IsLowerAlpha(d)
    ensures !IsUpper(c) ==> d == c
  {
    if IsUpper(c) then (c as int + 32) as char else c
  }

  /** `s.lower()` */
  function Lower(s: string): (r: string)
    ensures |r| == |s|
  {
    seq(|s|, i requires 0 <= i < |s| => ToLower(s[i]))
  }

  /** `s.replace("-", " ")` */
  function ReplaceHyphens(s: string): (r: string)
    ensures |r| == |s|
  {
    seq(|s|, i requires 0 <= i < |s| => if s[i] == '-' then ' ' else s[i])
  }

  predicate AllSpace(s: string) {
    forall i :: 0 <= i < |s| ==> IsSpace(s[i])
  }

  /** `s.lstrip()` */
  function StripLeft(s: string): string {
    if |s| > 0 && IsSpace(s[0]) then StripLeft(s[1..]) else s
  }

  /** `s.rstrip()` */
  function StripRight(s: string): string {
    if |s| > 0 && IsSpace(s[|s| - 1]) then StripRight(s[..|s| - 1]) else s
  }

  /** `s.strip()` */
  function Strip(s: string): string {
    StripRight(StripLeft(s))
  }

  /** A word as `str.split()` yields it: nonempty, no whitespace inside. */
  predicate IsWord(w: string) {
    |w| > 0 && forall c :: c in w ==> !IsSpace(c)
  }

  /** The length of the longest whitespace-free prefix of `s`. */
  function WordLength(s: string): (n: nat)
    ensures n <= |s|
    ensures |s| > 0 && !IsSpace(s[0]) ==> n >= 1
  {
    if |s| == 0 || IsSpace(s[0]) then 0 else 1 + WordLength(s[1..])
  }

  /** `s.split()` with no separator: the maximal runs of non-whitespace, in order. */
  function Words(s: string): seq<string>
    decreases |s|
  {
    if |s| == 0 then []
    else if IsSpace(s[0]) then Words(s[1..])
    else
      var n := WordLength(s);
      [s[..n]] + Words(s[n..])
  }

  /** `" ".join(ws)` */
  function JoinWords(ws: seq<string>): string {
    if |ws| == 0 then ""
    else if |ws| == 1 then ws[0]
    else ws[0] + " " + JoinWords(ws[1..])
  }

  /**
   A string in the shape `" ".join(s.split())` produces: the only whitespace is the
   plain space, never at either end and never two in a row.
   */
  predicate SingleSpaced(s: string) {
    && (forall i :: 0 <= i < |s| && IsSpace(s[i]) ==> s[i] == ' ')
    && (|s| > 0 ==> s[0] != ' ' && s[|s| - 1] != ' ')
    && (forall i :: 0 <= i < |s| - 1 && s[i] == ' ' ==> s[i + 1] != ' ')
  }

  predicate OccursAt(s: string, q: string, i: int) {
    0 <= i && i + |q| <= |s| && s[i..i + |q|] == q
  }

  /** Python's substring test `q in s`: `q` is a prefix of some suffix of `s`. */
  function Contains(s: string, q: string): bool {
    q <= s || (|s| > 0 && Contains(s[1..], q))
  }

  /** An occurrence in `s[1..]` is an occurrence in `s` one position later. */
  lemma OccursShift(s: string, q: string, i: nat)
    requires |s| > 0
    ensures OccursAt(s[1..], q, i) <==> OccursAt(s, q, i + 1)
  {
    if i + 1 + |q| <= |s| {
      assert s[1..][i..i + |q|] == s[i + 1..i + 1 + |q|];
    }
  }

  /** `q in s` holds exactly when `q` occurs at some position of `s`. */
  lemma {:induction false} ContainsSpec(s: string, q: string)
    ensures Contains(s, q) <==> exists i :: OccursAt(s, q, i)
    decreases |s|
  {
    if q <= s {
      assert OccursAt(s, q, 0);
    } else if |s| > 0 {
      ContainsSpec(s[1..], q);
      if Contains(s[1..], q) {
        var i :| OccursAt(s[1..], q, i);
        OccursShift(s, q, i);
      } else {
        forall i | 0 <= i
          ensures !OccursAt(s, q, i)
        {
          if i == 0 {
            if |q| <= |s| {
              assert s[0..|q|] == s[..|q|];
            }
          } else {
            OccursShift(s, q, i - 1);
          }
        }
      }
    }
  }

  // ---------------------------------------------------------------------------
  // Facts about stripping, splitting and joining

  /** `lstrip` drops a whitespace prefix, and only that. */
  lemma {:induction false} StripLeftSpec(s: string)
    ensures var r := StripLeft(s);
      && |r| <= |s| && r == s[|s| - |r|..]
      && AllSpace(s[..|s| - |r|])
      && (|r| > 0 ==> !IsSpace(r[0]))
    decreases |s|
  {
    if |s| > 0 && IsSpace(s[0]) {
      StripLeftSpec(s[1..]);
      var r := StripLeft(s);
      assert s[1..][|s| - 1 - |r|..] == s[|s| - |r|..];
      assert forall i :: 1 <= i < |s| - |r| ==> s[i] == s[1..][..|s| - 1 - |r|][i - 1];
    }
  }

  /** `rstrip` drops a whitespace suffix, and only that. */
  lemma {:induction false} StripRightSpec(s: string)
    ensures var r := StripRight(s);
      && |r| <= |s| && r == s[..|r|]
      && AllSpace(s[|r|..])
      && (|r| > 0 ==> !IsSpace(r[|r| - 1]))
    decreases |s|
  {
    if |s| > 0 && IsSpace(s[|s| - 1]) {
      var init := s[..|s| - 1];
      StripRightSpec(init);
      var r := StripRight(s);
      assert init[..|r|] == s[..|r|];
      assert forall i :: |r| <= i < |s| - 1 ==> s[i] == init[|r|..][i - |r|];
    }
  }

  lemma {:induction false} WordLengthSpec(s: string)
    ensures forall i :: 0 <= i < WordLength(s) ==> !IsSpace(s[i])
    ensures WordLength(s) < |s| ==> IsSpace(s[WordLength(s)])
    decreases |s|
  {
    if |s| > 0 && !IsSpace(s[0]) {
      WordLengthSpec(s[1..]);
    }
  }

  /** Every element of `s.split()` is a genuine word made of characters of `s`. */
  lemma {:induction false} WordsSpec(s: string)
    ensures forall k :: 0 <= k < |Words(s)| ==> IsWord(Words(s)[k])
    ensures forall k, c :: 0 <= k < |Words(s)| && c in Words(s)[k] ==> c in s
    decreases |s|
  {
    if |s| > 0 {
      if IsSpace(s[0]) {
        WordsSpec(s[1..]);
        assert forall c :: c in s[1..] ==> c in s;
      } else {
        var n := WordLength(s);
        WordLengthSpec(s);
        WordsSpec(s[n..]);
        var ws := Words(s);
        assert ws == [s[..n]] + Words(s[n..]);
        assert forall c :: c in s[..n] ==> c in s;
        assert forall c :: c in s[n..] ==> c in s;
        assert forall c :: c in s[..n] ==> !IsSpace(c);
        assert forall k :: 1 <= k < |ws| ==> ws[k] == Words(s[n..])[k - 1];
      }
    }
  }

  lemma {:induction false} WordsOfSpaces(s: string)
    requires AllSpace(s)
    ensures Words(s) == []
    decreases |s|
  {
    if |s| > 0 {
      WordsOfSpaces(s[1..]);
    }
  }

  /** Leading whitespace never changes `split()`. */
  lemma {:induction false} WordsSkipLeading(p: string, s: string)
    requires AllSpace(p)
    ensures Words(p + s) == Words(s)
    decreases |p|
  {
    if |p| > 0 {
      assert (p + s)[0] == p[0] && IsSpace(p[0]);
      assert Words(p + s) == Words((p + s)[1..]);
      assert (p + s)[1..] == p[1..] + s;
      WordsSkipLeading(p[1..], s);
    } else {
      assert p + s == s;
    }
  }

  lemma {:induction false} WordLengthDropTrailing(s: string, p: string)
    requires AllSpace(p)
    ensures WordLength(s + p) == WordLength(s)
    decreases |s|
  {
    if |s| == 0 {
      assert s + p == p;
    } else if !IsSpace(s[0]) {
      assert (s + p)[1..] == s[1..] + p;
      WordLengthDropTrailing(s[1..], p);
    }
  }

  /** Trailing whitespace never changes `split()`. */
  lemma {:induction false} WordsDropTrailing(s: string, p: string)
    requires AllSpace(p)
    ensures Words(s + p) == Words(s)
    decreases |s|
  {
    if |s| == 0 {
      assert s + p == p;
      WordsOfSpaces(p);
    } else if IsSpace(s[0]) {
      assert (s + p)[1..] == s[1..] + p;
      WordsDropTrailing(s[1..], p);
    } else {
      WordLengthDropTrailing(s, p);
      var n := WordLength(s);
      assert (s + p)[..n] == s[..n];
      assert (s + p)[n..] == s[n..] + p;
      WordsDropTrailing(s[n..], p);
    }
  }

  /** Text after the first word's end (a space, or more word followed by a space) does not move that end. */
  lemma {:induction false} WordLengthExtend(a: string, t: string)
    requires WordLength(a) < |a| || (|t| > 0 && IsSpace(t[0]))
    ensures WordLength(a + t) == WordLength(a)
    decreases |a|
  {
    if |a| == 0 {
      assert a + t == t;
    } else if !IsSpace(a[0]) {
      assert (a + t)[0] == a[0];
      assert (a + t)[1..] == a[1..] + t;
      WordLengthExtend(a[1..], t);
    }
  }

  /**
   A whitespace run of any length and kind between two pieces of text separates
   their words and nothing else: `(a + p + b).split() == a.split() + b.split()`.
   */
  lemma {:induction false} WordsRun(a: string, p: string, b: string)
    requires AllSpace(p) && |p| > 0
    ensures Words(a + p + b) == Words(a) + Words(b)
    decreases |a|
  {
    var s := a + p + b;
    if |a| == 0 {
      assert s == p + b;
      WordsSkipLeading(p, b);
    } else if IsSpace(a[0]) {
      assert s[0] == a[0];
      assert s[1..] == a[1..] + p + b;
      WordsRun(a[1..], p, b);
    } else {
      var n := WordLength(a);
      assert s == a + (p + b);
      assert p[0] == (p + b)[0];
      WordLengthExtend(a, p + b);
      assert s[0] == a[0];
      assert s[..n] == a[..n];
      assert s[n..] == a[n..] + p + b;
      WordsRun(a[n..], p, b);
    }
  }

  lemma {:induction false} WordLengthOfWord(w: string, t: string)
    requires IsWord(w)
    requires |t| > 0 ==> IsSpace(t[0])
    ensures WordLength(w + t) == |w|
    decreases |w|
  {
    assert (w + t)[0] == w[0] && w[0] in w;
    if |w| > 1 {
      assert (w + t)[1..] == w[1..] + t;
      assert forall c :: c in w[1..] ==> c in w;
      WordLengthOfWord(w[1..], t);
    } else {
      assert (w + t)[1..] == t;
    }
  }

  /** `" ".join(ws).split() == ws` whenever every element is a genuine word. */
  lemma {:induction false} WordsOfJoin(ws: seq<string>)
    requires forall k :: 0 <= k < |ws| ==> IsWord(ws[k])
    ensures Words(JoinWords(ws)) == ws
    decreases |ws|
  {
    if |ws| == 1 {
      WordLengthOfWord(ws[0], "");
      assert ws[0] + "" == ws[0];
      assert ws[0][0] in ws[0];
      assert ws[0][|ws[0]|..] == "";
    } else if |ws| > 1 {
      var rest := JoinWords(ws[1..]);
      var j := ws[0] + " " + rest;
      assert j == ws[0] + (" " + rest);
      WordLengthOfWord(ws[0], " " + rest);
      assert ws[0][0] in ws[0];
      assert j[..|ws[0]|] == ws[0];
      assert j[|ws[0]|..] == " " + rest;
      assert (" " + rest)[1..] == rest;
      WordsOfJoin(ws[1..]);
      assert [ws[0]] + ws[1..] == ws;
    }
  }

  lemma JoinNonEmpty(ws: seq<string>)
    requires forall k :: 0 <= k < |ws| ==> IsWord(ws[k])
    requires |ws| > 0
    ensures IsWord(ws[0]) && |JoinWords(ws)| > 0 && JoinWords(ws)[0] == ws[0][0]
  {
  }

  /** Every character of `" ".join(ws)` is a space or a character of one of the words. */
  lemma {:induction false} JoinChars(ws: seq<string>, c: char)
    requires c in JoinWords(ws)
    ensures c == ' ' || exists k :: 0 <= k < |ws| && c in ws[k]
    decreases |ws|
  {
    if |ws| > 1 {
      var rest := JoinWords(ws[1..]);
      if c in ws[0] {
      } else if c != ' ' {
        assert c in rest;
        JoinChars(ws[1..], c);
        var k :| 0 <= k < |ws[1..]| && c in ws[1..][k];
        assert c in ws[k + 1];
      }
    }
  }

  /** Joining genuine words with single spaces gives a single-spaced string. */
  lemma {:induction false} JoinSingleSpaced(ws: seq<string>)
    requires forall k :: 0 <= k < |ws| ==> IsWord(ws[k])
    ensures SingleSpaced(JoinWords(ws))
    decreases |ws|
  {
    if |ws| == 1 {
      assert forall i :: 0 <= i < |ws[0]| ==> ws[0][i] in ws[0];
    } else if |ws| > 1 {
      var w := ws[0];
      var rest := JoinWords(ws[1..]);
      JoinSingleSpaced(ws[1..]);
      JoinNonEmpty(ws[1..]);
      var j := w + " " + rest;
      assert !IsSpace(rest[0]);
      assert forall i :: 0 <= i < |w| ==> j[i] == w[i] && w[i] in w;
      forall i | 0 <= i < |j| && IsSpace(j[i])
        ensures j[i] == ' '
      {
        if i > |w| {
          assert j[i] == rest[i - |w| - 1];
        }
      }
      forall i | 0 <= i < |j| - 1 && j[i] == ' '
        ensures j[i + 1] != ' '
      {
        if i > |w| {
          assert j[i] == rest[i - |w| - 1];
          assert j[i + 1] == rest[i - |w|];
        }
      }
      assert j[0] == w[0] && w[0] in w;
      assert j[|j| - 1] == rest[|rest| - 1];
    }
  }

  /** What follows a space of a single-spaced string is single-spaced again. */
  lemma SingleSpacedTail(s: string, m: nat)
    requires SingleSpaced(s)
    requires 0 < m < |s| && s[m - 1] == ' '
    ensures SingleSpaced(s[m..])
  {
    var rest := s[m..];
    forall i | 0 <= i < |rest| && IsSpace(rest[i])
      ensures rest[i] == ' '
    {
      assert rest[i] == s[m + i];
    }
    forall i | 0 <= i < |rest| - 1 && rest[i] == ' '
      ensures rest[i + 1] != ' '
    {
      assert rest[i] == s[m + i];
      assert rest[i + 1] == s[m + 1 + i];
    }
    assert rest[0] == s[m];
    assert rest[|rest| - 1] == s[|s| - 1];
  }

  /** In a single-spaced string the first word ends the string or is followed by one space and more text. */
  lemma FirstWordOfSingleSpaced(s: string)
    requires SingleSpaced(s) && |s| > 0
    ensures var n := WordLength(s);
      n == |s| || (n + 1 < |s| && s[n] == ' ')
  {
    assert !IsSpace(s[0]);
    WordLengthSpec(s);
  }

  lemma WordsStartingWithWord(t: string)
    requires |t| > 0 && !IsSpace(t[0])
    ensures Words(t) == [t[..WordLength(t)]] + Words(t[WordLength(t)..])
    ensures |Words(t)| > 0
  {
  }

  lemma JoinCons(w: string, ws: seq<string>)
    requires |ws| > 0
    ensures JoinWords([w] + ws) == w + " " + JoinWords(ws)
  {
    assert ([w] + ws)[1..] == ws;
  }

  lemma SplitAtSpace(s: string, n: nat)
    requires n < |s| && s[n] == ' '
    ensures s == s[..n] + " " + s[n + 1..]
  {
  }

  /** A single-spaced string is rebuilt exactly by `" ".join(s.split())`. */
  lemma {:induction false} JoinOfWords(s: string)
    requires SingleSpaced(s)
    ensures JoinWords(Words(s)) == s
    decreases |s|
  {
    if |s| > 0 {
      var n := WordLength(s);
      FirstWordOfSingleSpaced(s);
      WordsStartingWithWord(s);
      var w := s[..n];
      if n == |s| {
        assert w == s;
        assert Words(s[n..]) == [];
      } else {
        var rest := s[n + 1..];
        SingleSpacedTail(s, n + 1);
        JoinOfWords(rest);
        assert s[n..][1..] == rest;
        assert Words(s[n..]) == Words(rest);
        assert !IsSpace(rest[0]);
        WordsStartingWithWord(rest);
        JoinCons(w, Words(rest));
        SplitAtSpace(s, n);
      }
    }
  }

}
