/**
 * The string operations of Python that the answering engine relies on, over
 * ASCII: character classes, `lower()`, `strip()`, `split('\n')`, `split()`,
 * `sep.join(...)` and the `in` substring test.
 */
module Text {

  /** `str.isspace()` on ASCII: space, tab, LF, VT, FF, CR and the separators 0x1C-0x1F. */
  predicate IsSpace(c: char) {
    var n := c as int;
    n == 32 || 9 <= n <= 13 || 28 <= n <= 31
  }

  predicate IsUpper(c: char) { 'A' <= c <= 'Z' }

  predicate IsLower(c: char) { 'a' <= c <= 'z' }

  predicate IsAlpha(c: char) { IsUpper(c) || IsLower(c) }

  predicate IsDigit(c: char) { '0' <= c <= '9' }

  /** The regular-expression class `\w` on ASCII. */
  predicate IsWordChar(c: char) { IsAlpha(c) || IsDigit(c) || c == '_' }

  predicate AllSpace(s: string) {
    forall k | 0 <= k < |s| :: IsSpace(s[k])
  }

  /** `str.lower()` on one ASCII character. */
  function ToLower(c: char): (d: char)
    ensures !IsUpper(d)
    ensures IsAlpha(d) <==> IsAlpha(c)
    ensures IsWordChar(d) <==> IsWordChar(c)
    ensures IsSpace(d) <==> IsSpace(c)
    ensures IsUpper(c) ==> d != c
    ensures !IsUpper(c) ==> d == c
  {
    if IsUpper(c) then (c as int + 32) as char else c
  }

  /** `str.lower()`: every upper-case letter replaced by its lower-case form. */
  function Lower(s: string): (r: string)
    ensures |r| == |s|
    ensures forall k | 0 <= k < |s| :: r[k] == ToLower(s[k])
  {
    seq(|s|, k requires 0 <= k < |s| => ToLower(s[k]))
  }

  /** sub occurs in s at position i. */
  predicate OccursAt(s: string, sub: string, i: nat) {
    i + |sub| <= |s| && s[i..i + |sub|] == sub
  }

  /** sub occurs in s at some position from i on. */
  predicate ContainsFrom(s: string, sub: string, i: nat)
    decreases |s| - i
  {
    i + |sub| <= |s| && (OccursAt(s, sub, i) || ContainsFrom(s, sub, i + 1))
  }

  /** The `in` operator on strings. */
  predicate Contains(s: string, sub: string) {
    ContainsFrom(s, sub, 0)
  }

  /** `any(p in s for p in phrases)`. */
  predicate ContainsAny(s: string, phrases: seq<string>)
    decreases |phrases|
  {
    phrases != [] && (Contains(s, phrases[0]) || ContainsAny(s, phrases[1..]))
  }

  lemma {:induction false} ContainsFromIff(s: string, sub: string, j: nat)
    ensures ContainsFrom(s, sub, j) <==> exists i: nat | j <= i :: OccursAt(s, sub, i)
    decreases |s| - j
  {
    if j + |sub| <= |s| {
      ContainsFromIff(s, sub, j + 1);
    } else {
      forall i: nat | j <= i ensures !OccursAt(s, sub, i) {
      }
    }
  }

  /** s contains sub exactly when sub occurs in s at some position. */
  lemma ContainsIff(s: string, sub: string)
    ensures Contains(s, sub) <==> exists i: nat :: OccursAt(s, sub, i)
  {
    ContainsFromIff(s, sub, 0);
  }

  lemma ContainsWitness(s: string, sub: string, i: nat)
    requires OccursAt(s, sub, i)
    ensures Contains(s, sub)
  {
    ContainsIff(s, sub);
  }

  /** s contains one of the phrases exactly when it contains the phrase at some index. */
  lemma {:induction false} ContainsAnyIff(s: string, phrases: seq<string>)
    ensures ContainsAny(s, phrases) <==> exists k | 0 <= k < |phrases| :: Contains(s, phrases[k])
    decreases |phrases|
  {
    if phrases != [] {
      ContainsAnyIff(s, phrases[1..]);
      if exists k | 0 <= k < |phrases| :: Contains(s, phrases[k]) {
        var k :| 0 <= k < |phrases| && Contains(s, phrases[k]);
        if k > 0 {
          assert phrases[1..][k - 1] == phrases[k];
        }
      }
      if exists k | 0 <= k < |phrases[1..]| :: Contains(s, phrases[1..][k]) {
        var k :| 0 <= k < |phrases[1..]| && Contains(s, phrases[1..][k]);
        assert phrases[k + 1] == phrases[1..][k];
      }
    }
  }

  // ---------------------------------------------------------------- strip()

  /** The number of whitespace characters in s from index i on, before the first other one. */
  function SpaceFrom(s: string, i: nat): (n: nat)
    requires i <= |s|
    ensures i + n <= |s|
    decreases |s| - i
  {
    if i < |s| && IsSpace(s[i]) then 1 + SpaceFrom(s, i + 1) else 0
  }

  /** The run counted by SpaceFrom is all whitespace, and what follows it is not. */
  lemma {:induction false} SpaceFromIn(s: string, i: nat)
    requires i <= |s|
    ensures forall k | i <= k < i + SpaceFrom(s, i) :: IsSpace(s[k])
    ensures i + SpaceFrom(s, i) == |s| || !IsSpace(s[i + SpaceFrom(s, i)])
    decreases |s| - i
  {
    if i < |s| && IsSpace(s[i]) {
      SpaceFromIn(s, i + 1);
    }
  }

  /** The number of whitespace characters in s just before index j, not looking below lo. */
  function SpaceBefore(s: string, lo: nat, j: nat): (n: nat)
    requires lo <= j <= |s|
    ensures lo + n <= j
    decreases j - lo
  {
    if lo < j && IsSpace(s[j - 1]) then 1 + SpaceBefore(s, lo, j - 1) else 0
  }

  /** The run counted by SpaceBefore is all whitespace, and what precedes it (above lo) is not. */
  lemma {:induction false} SpaceBeforeIn(s: string, lo: nat, j: nat)
    requires lo <= j <= |s|
    ensures forall k | j - SpaceBefore(s, lo, j) <= k < j :: IsSpace(s[k])
    ensures j - SpaceBefore(s, lo, j) == lo || !IsSpace(s[j - SpaceBefore(s, lo, j) - 1])
    decreases j - lo
  {
    if lo < j && IsSpace(s[j - 1]) {
      SpaceBeforeIn(s, lo, j - 1);
    }
  }

  /** `str.lstrip()`. */
  function TrimStart(s: string): string {
    s[SpaceFrom(s, 0)..]
  }

  /** `str.strip()`: the leading whitespace and then the trailing whitespace removed. */
  function Strip(s: string): string {
    var a := SpaceFrom(s, 0);
    s[a..|s| - SpaceBefore(s, a, |s|)]
  }

  /**
   * What `strip()` returns: the slice of s left after removing whitespace at
   * both ends, which neither starts nor ends with whitespace.
   */
  lemma StripIsSlice(s: string)
    ensures exists a, b | 0 <= a <= b <= |s| :: Strip(s) == s[a..b] && AllSpace(s[..a]) && AllSpace(s[b..])
    ensures Strip(s) == [] || (!IsSpace(Strip(s)[0]) && !IsSpace(Strip(s)[|Strip(s)| - 1]))
  {
    var a, b := StripBounds(s);
    if a < b {
      assert Strip(s)[0] == s[a];
      assert Strip(s)[|Strip(s)| - 1] == s[b - 1];
    }
  }

  /** Where the stripped slice starts and ends. */
  lemma StripBounds(s: string) returns (a: nat, b: nat)
    ensures a <= b <= |s| && Strip(s) == s[a..b]
    ensures AllSpace(s[..a]) && AllSpace(s[b..])
    ensures a < b ==> !IsSpace(s[a]) && !IsSpace(s[b - 1])
  {
    a := SpaceFrom(s, 0);
    b := |s| - SpaceBefore(s, a, |s|);
    SpaceFromIn(s, 0);
    SpaceBeforeIn(s, a, |s|);
    assert AllSpace(s[b..]) by {
      forall k | 0 <= k < |s| - b ensures IsSpace(s[b..][k]) {
        assert s[b..][k] == s[b + k];
      }
    }
  }

  /** A stripped string is empty exactly when the original is all whitespace. */
  lemma StripEmpty(s: string)
    ensures Strip(s) == [] <==> AllSpace(s)
  {
    StripIsSlice(s);
  }

  /** Stripping a string that starts and ends with non-whitespace changes nothing. */
  lemma StripOfStripped(s: string)
    requires s == [] || (!IsSpace(s[0]) && !IsSpace(s[|s| - 1]))
    ensures Strip(s) == s
  {
  }

  /** `strip()` is idempotent. */
  lemma StripIdempotent(s: string)
    ensures Strip(Strip(s)) == Strip(s)
  {
    StripIsSlice(s);
    StripOfStripped(Strip(s));
  }

  /** SpaceFrom stops at the first character from i on that is not whitespace. */
  lemma {:induction false} SpaceFromStops(s: string, i: nat, a: nat)
    requires i <= a <= |s|
    requires forall k | i <= k < a :: IsSpace(s[k])
    requires a == |s| || !IsSpace(s[a])
    ensures i + SpaceFrom(s, i) == a
    decreases a - i
  {
    if i < a {
      SpaceFromStops(s, i + 1, a);
    }
  }

  /** SpaceBefore stops at the last character before j that is not whitespace. */
  lemma {:induction false} SpaceBeforeStops(s: string, lo: nat, j: nat, b: nat)
    requires lo <= b <= j <= |s|
    requires forall k | b <= k < j :: IsSpace(s[k])
    requires b == lo || !IsSpace(s[b - 1])
    ensures j - SpaceBefore(s, lo, j) == b
    decreases j - b
  {
    if b < j {
      SpaceBeforeStops(s, lo, j - 1, b);
    }
  }

  /** The one slice that `strip()` can return: whitespace on both sides, none at its own ends. */
  lemma StripUnique(s: string, a: nat, b: nat)
    requires a <= b <= |s|
    requires AllSpace(s[..a]) && AllSpace(s[b..])
    requires a < b ==> !IsSpace(s[a]) && !IsSpace(s[b - 1])
    ensures Strip(s) == s[a..b]
  {
    forall k | 0 <= k < a ensures IsSpace(s[k]) {
      assert s[..a][k] == s[k];
    }
    forall k | b <= k < |s| ensures IsSpace(s[k]) {
      assert s[b..][k - b] == s[k];
    }
    var e := if a < b then a else |s|;
    SpaceFromStops(s, 0, e);
    SpaceBeforeStops(s, e, |s|, if a < b then b else |s|);
  }

  /** `strip()` ignores whitespace added at either end. */
  lemma StripPadded(pre: string, s: string, post: string)
    requires AllSpace(pre) && AllSpace(post)
    ensures Strip(pre + s + post) == Strip(s)
  {
    var t := pre + s + post;
    var a, b := StripBounds(s);
    var a2, b2 := |pre| + a, |pre| + b;
    assert t[a2..b2] == s[a..b];
    assert AllSpace(t[..a2]) by {
      forall k | 0 <= k < a2 ensures IsSpace(t[..a2][k]) {
        if k < |pre| {
          assert t[..a2][k] == pre[k];
        } else {
          assert t[..a2][k] == s[..a][k - |pre|];
        }
      }
    }
    assert AllSpace(t[b2..]) by {
      forall k | 0 <= k < |t| - b2 ensures IsSpace(t[b2..][k]) {
        if b + k < |s| {
          assert t[b2..][k] == s[b..][k];
        } else {
          assert t[b2..][k] == post[b + k - |s|];
        }
      }
    }
    if a < b {
      assert t[a2] == s[a] && t[b2 - 1] == s[b - 1];
    }
    StripUnique(t, a2, b2);
  }

  /** `lower()` works character by character, so it distributes over concatenation and keeps whitespace. */
  lemma LowerAppend(x: string, y: string)
    ensures Lower(x + y) == Lower(x) + Lower(y)
    ensures AllSpace(x) ==> AllSpace(Lower(x))
  {
    assert forall k | 0 <= k < |x + y| :: Lower(x + y)[k] == (Lower(x) + Lower(y))[k];
  }

  /** `in` is transitive: what a part of s contains, s contains. */
  lemma ContainsTrans(s: string, mid: string, sub: string)
    requires Contains(s, mid) && Contains(mid, sub)
    ensures Contains(s, sub)
  {
    ContainsIff(s, mid);
    ContainsIff(mid, sub);
    var i: nat :| OccursAt(s, mid, i);
    var j: nat :| OccursAt(mid, sub, j);
    assert s[i..i + |mid|] == mid;
    forall k | 0 <= k < |sub| ensures s[i + j + k] == sub[k] {
      assert s[i + j + k] == s[i..i + |mid|][j + k];
      assert mid[j + k] == mid[j..j + |sub|][k];
    }
    assert s[i + j..i + j + |sub|] == sub;
    ContainsWitness(s, sub, i + j);
  }

  // ------------------------------------------------------- split on a char

  /** Index of the first occurrence of c in s. */
  function IndexOf(s: string, c: char): (i: nat)
    requires c in s
    ensures i < |s| && s[i] == c && c !in s[..i]
  {
    if s[0] == c then 0 else 1 + IndexOf(s[1..], c)
  }

  /** `s.split(sep)` for a one-character separator. */
  function SplitOn(s: string, sep: char): (r: seq<string>)
    ensures |r| >= 1
    decreases |s|
  {
    if sep !in s then [s]
    else
      var i := IndexOf(s, sep);
      [s[..i]] + SplitOn(s[i + 1..], sep)
  }

  /** No piece of a split holds the separator. */
  lemma {:induction false} SplitOnPieces(s: string, sep: char)
    ensures forall k | 0 <= k < |SplitOn(s, sep)| :: sep !in SplitOn(s, sep)[k]
    decreases |s|
  {
    if sep in s {
      var i := IndexOf(s, sep);
      var rest := SplitOn(s[i + 1..], sep);
      SplitOnPieces(s[i + 1..], sep);
      assert SplitOn(s, sep) == [s[..i]] + rest;
      forall k | 0 <= k < |SplitOn(s, sep)| ensures sep !in SplitOn(s, sep)[k] {
        if k > 0 {
          assert SplitOn(s, sep)[k] == rest[k - 1];
        }
      }
    }
  }

  /** `sep.join(parts)`. */
  function Join(parts: seq<string>, sep: string): string
    decreases |parts|
  {
    if |parts| == 0 then ""
    else if |parts| == 1 then parts[0]
    else parts[0] + sep + Join(parts[1..], sep)
  }

  function TotalLength(parts: seq<string>): nat {
    if parts == [] then 0 else |parts[0]| + TotalLength(parts[1..])
  }

  /** A join is as long as its parts plus one separator between each neighbouring pair. */
  lemma {:induction false} JoinLength(parts: seq<string>, sep: string)
    requires parts != []
    ensures |Join(parts, sep)| == TotalLength(parts) + (|parts| - 1) * |sep|
    decreases |parts|
  {
    if |parts| > 1 {
      JoinLength(parts[1..], sep);
    }
  }

  /** Joining the pieces of a split with the separator gives back the original string. */
  lemma {:induction false} JoinSplitOn(s: string, sep: char)
    ensures Join(SplitOn(s, sep), [sep]) == s
    decreases |s|
  {
    if sep in s {
      var i := IndexOf(s, sep);
      var rest := SplitOn(s[i + 1..], sep);
      JoinSplitOn(s[i + 1..], sep);
      assert SplitOn(s, sep) == [s[..i]] + rest;
      JoinCons(s[..i], rest, [sep]);
      SplitAround(s, i);
    }
  }

  /** Joining a part in front of at least one more part puts the separator between them. */
  lemma JoinCons(first: string, rest: seq<string>, sep: string)
    requires rest != []
    ensures Join([first] + rest, sep) == first + (sep + Join(rest, sep))
  {
    assert ([first] + rest)[1..] == rest;
  }

  /** A string is the text before position i, the character at i, and the text after it. */
  lemma SplitAround(s: string, i: nat)
    requires i < |s|
    ensures s == s[..i] + [s[i]] + s[i + 1..]
  {
  }

  /** Splitting a join of separator-free pieces gives back the pieces. */
  lemma {:induction false} SplitOnJoin(parts: seq<string>, sep: char)
    requires parts != []
    requires forall k | 0 <= k < |parts| :: sep !in parts[k]
    ensures SplitOn(Join(parts, [sep]), sep) == parts
    decreases |parts|
  {
    if |parts| > 1 {
      var s := Join(parts, [sep]);
      var tail := Join(parts[1..], [sep]);
      assert s == parts[0] + [sep] + tail;
      assert s[|parts[0]|] == sep;
      assert s[..|parts[0]|] == parts[0];
      assert IndexOf(s, sep) == |parts[0]|;
      assert s[|parts[0]| + 1..] == tail;
      SplitOnJoin(parts[1..], sep);
    }
  }

  /** Splitting a text with a separator in the middle splits each side separately. */
  lemma {:induction false} SplitOnAppend(a: string, b: string, sep: char)
    requires sep !in a
    ensures SplitOn(a + [sep] + b, sep) == [a] + SplitOn(b, sep)
  {
    var s := a + [sep] + b;
    assert s[|a|] == sep;
    assert s[..|a|] == a;
    assert IndexOf(s, sep) == |a|;
    assert s[|a| + 1..] == b;
  }

  /** `content.split('\n')`: the lines of a text. */
  function Lines(content: string): (r: seq<string>)
    ensures |r| >= 1
  {
    SplitOn(content, '\n')
  }

  /** No line holds a line break. */
  lemma LinesHoldNoBreak(content: string)
    ensures forall k | 0 <= k < |Lines(content)| :: '\n' !in Lines(content)[k]
  {
    SplitOnPieces(content, '\n');
  }

  /** Adding lines after the end of a text leaves its lines in front. */
  lemma {:induction false} LinesAppend(content: string, more: string)
    ensures Lines(content + "\n" + more) == Lines(content) + Lines(more)
    decreases |content|
  {
    if '\n' in content {
      var i := IndexOf(content, '\n');
      var head := content[..i];
      var tail := content[i + 1..];
      assert content == head + "\n" + tail;
      assert content + "\n" + more == head + "\n" + (tail + "\n" + more);
      SplitOnAppend(head, tail + "\n" + more, '\n');
      SplitOnAppend(head, tail, '\n');
      LinesAppend(tail, more);
    } else {
      SplitOnAppend(content, more, '\n');
    }
  }

  // -------------------------------------------------- split() on whitespace

  /** Length of the run of non-whitespace at the start of s. */
  function WordLength(s: string): (n: nat)
    ensures n <= |s|
  {
    if s == [] || IsSpace(s[0]) then 0 else 1 + WordLength(s[1..])
  }

  /** The word is all non-whitespace, and what follows it is whitespace. */
  lemma {:induction false} WordLengthIn(s: string)
    ensures forall k | 0 <= k < WordLength(s) :: !IsSpace(s[k])
    ensures WordLength(s) == |s| || IsSpace(s[WordLength(s)])
  {
    if s != [] && !IsSpace(s[0]) {
      WordLengthIn(s[1..]);
    }
  }

  /** A non-empty run of non-whitespace. */
  predicate IsWord(w: string) {
    w != [] && forall m | 0 <= m < |w| :: !IsSpace(w[m])
  }

  /** `str.split()` with no argument: the maximal runs of non-whitespace. */
  function Words(s: string): seq<string>
    decreases |s|
  {
    var t := TrimStart(s);
    if t == [] then []
    else
      var n := WordLength(t);
      [t[..n]] + Words(t[n..])
  }

  /** Every word is non-empty and holds no whitespace. */
  lemma {:induction false} WordsAreWords(s: string)
    ensures forall k | 0 <= k < |Words(s)| :: IsWord(Words(s)[k])
    decreases |s|
  {
    var t := TrimStart(s);
    if t != [] {
      var n := WordLength(t);
      var rest := Words(t[n..]);
      SpaceFromIn(s, 0);
      WordLengthIn(t);
      WordsAreWords(t[n..]);
      assert Words(s) == [t[..n]] + rest;
      forall k | 0 <= k < |Words(s)| ensures IsWord(Words(s)[k]) {
        if k > 0 {
          assert Words(s)[k] == rest[k - 1];
        }
      }
    }
  }

  /** `split()` finds no word exactly when the string is all whitespace. */
  lemma WordsEmpty(s: string)
    ensures Words(s) == [] <==> AllSpace(s)
  {
    SpaceFromIn(s, 0);
  }

  /** Splitting words joined by single spaces gives back the words. */
  lemma {:induction false} WordsJoin(words: seq<string>)
    requires forall k | 0 <= k < |words| :: IsWord(words[k])
    ensures Words(Join(words, " ")) == words
    decreases |words|
  {
    if |words| == 1 {
      WordThen(words[0], []);
      assert words[0] + [] == words[0];
    } else if |words| > 1 {
      var ws := words[1..];
      assert forall k | 0 <= k < |ws| :: IsWord(ws[k]);
      WordsJoin(ws);
      WordsOfCons(words[0], ws);
      assert [words[0]] + ws == words;
    }
  }

  /** One more word in front of a single-space join is one more word in front of its words. */
  lemma WordsOfCons(w: string, ws: seq<string>)
    requires IsWord(w) && ws != [] && IsWord(ws[0]) && Words(Join(ws, " ")) == ws
    ensures Words(Join([w] + ws, " ")) == [w] + ws
  {
    var tail := Join(ws, " ");
    WordsJoinStart(ws);
    WordsCons(w, tail, ws);
    JoinCons(w, ws, " ");
  }


  /** A word, a space and a text starting with a word: the words are the first word and then those of the text. */
  lemma WordsCons(w: string, tail: string, rest: seq<string>)
    requires IsWord(w) && tail != [] && !IsSpace(tail[0]) && Words(tail) == rest
    ensures Words(w + (" " + tail)) == [w] + rest
  {
    WordThen(w, " " + tail);
    WordsAfterSpace(tail);
  }

  /** A word followed by nothing or by whitespace is the first word. */
  lemma WordThen(w: string, rest: string)
    requires IsWord(w) && (rest == [] || IsSpace(rest[0]))
    ensures Words(w + rest) == [w] + Words(rest)
  {
    var s := w + rest;
    assert s[0] == w[0];
    assert SpaceFrom(s, 0) == 0;
    assert TrimStart(s) == s;
    WordLengthOfWord(w, rest);
    assert Words(s) == [s[..|w|]] + Words(s[|w|..]);
    assert s[..|w|] == w;
    assert s[|w|..] == rest;
  }

  /** A space in front of a word does not change the words. */
  lemma WordsAfterSpace(tail: string)
    requires tail != [] && !IsSpace(tail[0])
    ensures Words(" " + tail) == Words(tail)
  {
    assert (" " + tail)[1] == tail[0];
    assert SpaceFrom(" " + tail, 1) == 0;
    assert SpaceFrom(" " + tail, 0) == 1;
    assert SpaceFrom(tail, 0) == 0;
    assert TrimStart(" " + tail) == tail == TrimStart(tail);
  }

  lemma {:induction false} WordLengthOfWord(w: string, rest: string)
    requires forall m | 0 <= m < |w| :: !IsSpace(w[m])
    requires rest == [] || IsSpace(rest[0])
    ensures WordLength(w + rest) == |w|
    decreases |w|
  {
    if w != [] {
      assert (w + rest)[1..] == w[1..] + rest;
      WordLengthOfWord(w[1..], rest);
    }
  }

  lemma WordsJoinStart(words: seq<string>)
    requires words != []
    requires words[0] != [] && !IsSpace(words[0][0])
    ensures Join(words, " ") != [] && Join(words, " ")[0] == words[0][0]
    ensures TrimStart(Join(words, " ")) == Join(words, " ")
  {
    if |words| > 1 {
      assert Join(words, " ")[0] == words[0][0];
    }
  }
}
