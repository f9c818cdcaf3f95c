/**
 * The Python `str` operations the import script relies on, restricted to
 * ASCII: `isspace`, `isdigit`, substring `in`, `strip()`, `split(sep)` and
 * `split()` with no argument.
 */
module PyStrings {

  /** `c.isspace()` on ASCII: tab, line feed, vertical tab, form feed,
      carriage return, the four separators 0x1C..0x1F, and space. */
  predicate IsSpace(c: char)
  {
    c == ' ' || ('\t' <= c <= '\r') || ('\U{1C}' <= c <= '\U{1F}')
  }

  /** `c.isdigit()` on ASCII. */
  predicate IsDigit(c: char)
  {
    '0' <= c <= '9'
  }

  /** No character of `s` is whitespace. */
  predicate NoSpace(s: string)
  {
    forall k :: 0 <= k < |s| ==> !IsSpace(s[k])
  }

  /** Every character of `s` is whitespace. */
  predicate AllSpace(s: string)
  {
    forall k :: 0 <= k < |s| ==> IsSpace(s[k])
  }

  /** `sub` occurs in `s` at offset `i`. */
  predicate OccursAt(s: string, sub: string, i: int)
  {
    0 <= i <= |s| - |sub| && s[i..i + |sub|] == sub
  }

  /** Python's `sub in s`: the first offset is tried, then the rest of `s`. */
  function Contains(s: string, sub: string): (b: bool)
    ensures b <==> exists i :: OccursAt(s, sub, i)
    decreases |s|
  {
    if sub <= s then
      assert OccursAt(s, sub, 0);
      true
    else if |s| == 0 then
      false
    else
      var b := Contains(s[1..], sub);
      assert forall i :: OccursAt(s[1..], sub, i) ==> OccursAt(s, sub, i + 1);
      assert forall i :: OccursAt(s, sub, i) && i > 0 ==> OccursAt(s[1..], sub, i - 1);
      b
  }

  /** For a one-character needle, `in` is ordinary membership. */
  lemma ContainsChar(s: string, c: char)
    ensures Contains(s, [c]) <==> c in s
  {
    if c in s {
      var i :| 0 <= i < |s| && s[i] == c;
      assert OccursAt(s, [c], i);
    }
    if Contains(s, [c]) {
      var i :| OccursAt(s, [c], i);
      assert s[i] == s[i..i + 1][0];
    }
  }

  /** The number of whitespace characters `s` starts with. */
  function LeadingSpaces(s: string): (n: nat)
    ensures n <= |s|
    ensures forall k :: 0 <= k < n ==> IsSpace(s[k])
    ensures n < |s| ==> !IsSpace(s[n])
  {
    if s != [] && IsSpace(s[0]) then
      var n := LeadingSpaces(s[1..]);
      assert forall k :: 1 <= k < 1 + n ==> s[k] == s[1..][k - 1];
      1 + n
    else
      0
  }

  /** The offset where the whitespace `s` ends with begins. */
  function TrailingStart(s: string): (n: nat)
    ensures n <= |s|
    ensures forall k :: n <= k < |s| ==> IsSpace(s[k])
    ensures n > 0 ==> !IsSpace(s[n - 1])
  {
    if s != [] && IsSpace(s[|s| - 1]) then
      var n := TrailingStart(s[..|s| - 1]);
      assert forall k :: n <= k < |s| - 1 ==> s[k] == s[..|s| - 1][k];
      n
    else
      |s|
  }

  /** `s.strip()`: "" for a string of whitespace; otherwise the piece between
      the leading and the trailing whitespace, which neither starts nor ends
      with whitespace. */
  function Strip(s: string): (r: string)
    ensures AllSpace(s) ==> r == []
    ensures !AllSpace(s) ==>
      (LeadingSpaces(s) < TrailingStart(s) && r == s[LeadingSpaces(s)..TrailingStart(s)]
       && !IsSpace(r[0]) && !IsSpace(r[|r| - 1]))
  {
    var i := LeadingSpaces(s);
    var j := TrailingStart(s);
    if i < j then s[i..j] else []
  }

  /** Stripping whitespace padding gives back any piece that has no
      whitespace at either end: together with `Strip`'s own contract this
      pins `Strip` down completely. */
  lemma StripUnpads(pre: string, m: string, post: string)
    requires AllSpace(pre) && AllSpace(post)
    requires m != [] ==> !IsSpace(m[0]) && !IsSpace(m[|m| - 1])
    ensures Strip(pre + m + post) == m
  {
    var s := pre + m + post;
    var a, b := |pre|, |pre| + |m|;
    forall k | 0 <= k < |s| && (k < a || b <= k)
      ensures IsSpace(s[k])
    {
      if k < a {
        assert s[k] == pre[k];
      } else {
        assert s[k] == post[k - b];
      }
    }
    if m != [] {
      assert s[a] == m[0] && s[b - 1] == m[|m| - 1];
      assert LeadingSpaces(s) == a;
      assert TrailingStart(s) == b;
      assert s[a..b] == m;
    }
  }

  /** A piece without whitespace at either end is its own `strip()`. */
  lemma StripUnpadded(m: string)
    requires m != [] ==> !IsSpace(m[0]) && !IsSpace(m[|m| - 1])
    ensures Strip(m) == m
  {
    assert [] + m + [] == m;
    StripUnpads([], m, []);
  }

  /** Stripping twice is stripping once. */
  lemma StripIdempotent(s: string)
    ensures Strip(Strip(s)) == Strip(s)
  {
    StripUnpadded(Strip(s));
  }

  /** A slice of a slice is a slice. */
  lemma SliceOfSlice(s: string, a: int, b: int, c: int, d: int)
    requires 0 <= a <= b <= |s| && 0 <= c <= d <= b - a
    ensures s[a..b][c..d] == s[a + c..a + d]
  {
    forall t | 0 <= t < d - c
      ensures s[a..b][c..d][t] == s[a + c..a + d][t]
    {
    }
  }

  /** An occurrence inside the piece `s[i..t]` is an occurrence in `s`. */
  lemma OccursInPiece(s: string, i: int, t: int, sub: string, j: int)
    requires 0 <= i <= t <= |s| && OccursAt(s[i..t], sub, j)
    ensures OccursAt(s, sub, i + j)
  {
    SliceOfSlice(s, i, t, j, j + |sub|);
  }

  /** When only whitespace surrounds the piece `s[i..t]`, an occurrence of a
      needle with non-space ends lies inside the piece. */
  lemma OccursInPaddedPiece(s: string, i: int, t: int, sub: string, j: int)
    requires 0 <= i <= t <= |s|
    requires forall k :: 0 <= k < i ==> IsSpace(s[k])
    requires forall k :: t <= k < |s| ==> IsSpace(s[k])
    requires sub != [] && !IsSpace(sub[0]) && !IsSpace(sub[|sub| - 1])
    requires OccursAt(s, sub, j)
    ensures OccursAt(s[i..t], sub, j - i)
  {
    var n := |sub|;
    assert s[j] == sub[0];
    assert s[j + n - 1] == sub[n - 1];
    SliceOfSlice(s, i, t, j - i, j - i + n);
  }

  /** A needle that neither starts nor ends with whitespace occurs in `s`
      exactly when it occurs in `s.strip()`. */
  lemma ContainsStripped(s: string, sub: string)
    requires sub != [] && !IsSpace(sub[0]) && !IsSpace(sub[|sub| - 1])
    ensures Contains(Strip(s), sub) == Contains(s, sub)
  {
    var r := Strip(s);
    var i, t := LeadingSpaces(s), TrailingStart(s);
    if Contains(r, sub) {
      var j :| OccursAt(r, sub, j);
      assert r != [];
      OccursInPiece(s, i, t, sub, j);
    }
    if Contains(s, sub) {
      var j :| OccursAt(s, sub, j);
      assert s[j] == sub[0];
      assert !AllSpace(s);
      OccursInPaddedPiece(s, i, t, sub, j);
    }
  }

  /** The offset of the first `c` in `s`. */
  function IndexOf(s: string, c: char): (i: nat)
    requires c in s
    ensures i < |s| && s[i] == c && c !in s[..i]
  {
    if s[0] == c then 0 else 1 + IndexOf(s[1..], c)
  }

  /** `s.split(sep)` for a one-character separator: the pieces between the
      separators, empty pieces kept. */
  function Split(s: string, sep: char): (parts: seq<string>)
    ensures |parts| >= 1
    ensures forall k :: 0 <= k < |parts| ==> sep !in parts[k]
    ensures sep in s ==> parts[0] == s[..IndexOf(s, sep)]
    ensures sep !in s ==> parts == [s]
    decreases |s|
  {
    if sep !in s then
      [s]
    else
      var i := IndexOf(s, sep);
      [s[..i]] + Split(s[i + 1..], sep)
  }

  /** `sep.join(parts)`. */
  function Join(parts: seq<string>, sep: char): string
  {
    if |parts| <= 1 then
      if parts == [] then [] else parts[0]
    else
      parts[0] + [sep] + Join(parts[1..], sep)
  }

  /** Joining a piece in front of at least one more. */
  lemma JoinCons(a: string, rest: seq<string>, sep: char)
    requires |rest| >= 1
    ensures Join([a] + rest, sep) == a + [sep] + Join(rest, sep)
  {
    assert ([a] + rest)[1..] == rest;
  }

  /** Joining the pieces with the separator restores the string. */
  lemma {:induction false} JoinSplit(s: string, sep: char)
    ensures Join(Split(s, sep), sep) == s
    decreases |s|
  {
    if sep in s {
      var i := IndexOf(s, sep);
      var tail := s[i + 1..];
      JoinSplit(tail, sep);
      JoinCons(s[..i], Split(tail, sep), sep);
      assert s == s[..i] + [sep] + tail;
    }
  }

  /** The longest prefix of `s` holding no whitespace. */
  function TakeWord(s: string): (w: string)
    ensures |w| <= |s| && w == s[..|w|] && NoSpace(w)
    ensures |w| < |s| ==> IsSpace(s[|w|])
  {
    if s == [] || IsSpace(s[0]) then [] else [s[0]] + TakeWord(s[1..])
  }

  /** `s.split()` with no argument: the maximal runs of non-whitespace
      characters, in order. */
  function Words(s: string): (ws: seq<string>)
    ensures forall k :: 0 <= k < |ws| ==> ws[k] != [] && NoSpace(ws[k])
    decreases |s|
  {
    if s == [] then
      []
    else if IsSpace(s[0]) then
      Words(s[1..])
    else
      var w := TakeWord(s);
      [w] + Words(s[|w|..])
  }

  /** A whitespace-free string is its own longest whitespace-free prefix. */
  lemma {:induction false} TakeWordOfWord(w: string)
    requires NoSpace(w)
    ensures TakeWord(w) == w
  {
    if w != [] {
      assert !IsSpace(w[0]);
      TakeWordOfWord(w[1..]);
    }
  }

  /** A whitespace character ends the word: the word taken from `a`
      followed by whitespace is the word taken from `a` alone. */
  lemma {:induction false} TakeWordBeforeSpace(a: string, sp: char, b: string)
    requires IsSpace(sp)
    ensures TakeWord(a + [sp] + b) == TakeWord(a)
  {
    if a == [] {
      assert (a + [sp] + b)[0] == sp;
    } else {
      assert (a + [sp] + b)[0] == a[0];
      assert (a + [sp] + b)[1..] == a[1..] + [sp] + b;
      TakeWordBeforeSpace(a[1..], sp, b);
    }
  }

  /** A string of whitespace has no words. */
  lemma {:induction false} WordsOfSpaces(s: string)
    requires AllSpace(s)
    ensures Words(s) == []
  {
    if s != [] {
      WordsOfSpaces(s[1..]);
    }
  }

  /** A non-empty whitespace-free string is one single word: `split()` never
      cuts between two non-whitespace characters. */
  lemma WordsOfWord(w: string)
    requires w != [] && NoSpace(w)
    ensures Words(w) == [w]
  {
    TakeWordOfWord(w);
    assert w[|w|..] == [];
  }

  /** `split()` cuts at every whitespace character: the words of `a`, a
      whitespace character and `b` are the words of `a` followed by those
      of `b`. */
  lemma {:induction false} WordsAtSpace(a: string, sp: char, b: string)
    requires IsSpace(sp)
    ensures Words(a + [sp] + b) == Words(a) + Words(b)
    decreases |a|
  {
    var s := a + [sp] + b;
    if a == [] {
      assert s[0] == sp && s[1..] == b;
    } else if IsSpace(a[0]) {
      assert s[0] == a[0];
      assert s[1..] == a[1..] + [sp] + b;
      WordsAtSpace(a[1..], sp, b);
    } else {
      var w := TakeWord(a);
      TakeWordBeforeSpace(a, sp, b);
      assert s[0] == a[0];
      assert s[|w|..] == a[|w|..] + [sp] + b;
      WordsAtSpace(a[|w|..], sp, b);
    }
  }

  /** Every non-whitespace character of `s` lands in some word. */
  lemma {:induction false} WordsCover(s: string, p: nat)
    requires p < |s| && !IsSpace(s[p])
    ensures exists k :: 0 <= k < |Words(s)| && s[p] in Words(s)[k]
    decreases |s|
  {
    if IsSpace(s[0]) {
      assert s[1..][p - 1] == s[p];
      WordsCover(s[1..], p - 1);
      assert Words(s) == Words(s[1..]);
    } else {
      var w := TakeWord(s);
      if p < |w| {
        assert w[p] == s[p];
        assert Words(s)[0] == w;
      } else {
        var rest := s[|w|..];
        assert rest[p - |w|] == s[p];
        WordsCover(rest, p - |w|);
        var k :| 0 <= k < |Words(rest)| && s[p] in Words(rest)[k];
        assert Words(s)[k + 1] == Words(rest)[k];
      }
    }
  }

  /** Concatenation of a list of strings. */
  function Concat(ws: seq<string>): string
  {
    if ws == [] then [] else ws[0] + Concat(ws[1..])
  }

  /** The non-whitespace characters of `s`, in order. */
  function NonSpace(s: string): string
  {
    if s == [] then []
    else if IsSpace(s[0]) then NonSpace(s[1..])
    else [s[0]] + NonSpace(s[1..])
  }

  lemma {:induction false} NonSpaceAppend(a: string, b: string)
    ensures NonSpace(a + b) == NonSpace(a) + NonSpace(b)
  {
    if a == [] {
      assert a + b == b;
    } else {
      assert (a + b)[0] == a[0];
      assert (a + b)[1..] == a[1..] + b;
      NonSpaceAppend(a[1..], b);
    }
  }

  lemma {:induction false} NonSpaceOfSpaces(s: string)
    requires AllSpace(s)
    ensures NonSpace(s) == []
  {
    if s != [] {
      NonSpaceOfSpaces(s[1..]);
    }
  }

  lemma {:induction false} NonSpaceOfWord(s: string)
    requires NoSpace(s)
    ensures NonSpace(s) == s
  {
    if s != [] {
      NonSpaceOfWord(s[1..]);
    }
  }

  /** The words, run together, are exactly the non-whitespace characters of
      `s` in their original order: nothing is lost, reordered or invented. */
  lemma {:induction false} WordsKeepOrder(s: string)
    ensures Concat(Words(s)) == NonSpace(s)
    decreases |s|
  {
    if s != [] {
      if IsSpace(s[0]) {
        WordsKeepOrder(s[1..]);
      } else {
        var w := TakeWord(s);
        var rest := s[|w|..];
        assert s == w + rest;
        NonSpaceAppend(w, rest);
        NonSpaceOfWord(w);
        WordsKeepOrder(rest);
        assert Words(s)[1..] == Words(rest);
      }
    }
  }

}
