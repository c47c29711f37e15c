/** The parts of Python's `str` and of SQLite's text functions that the backend
    relies on: `isspace`, `strip`, `split()`, `split(sep)`, `join`, ASCII
    `lower()` and substring search. Strings are sequences of Unicode scalar
    values. */
module Strings {

  /** Python's `str.isspace()` for one character. */
  predicate IsSpace(c: char)
  {
    || ('\t' <= c <= '\r')
    || ('\U{001C}' <= c <= '\U{001F}')
    || c == ' '
    || c == '\U{0085}'
    || c == '\U{00A0}'
    || c == '\U{1680}'
    || ('\U{2000}' <= c <= '\U{200A}')
    || c == '\U{2028}'
    || c == '\U{2029}'
    || c == '\U{202F}'
    || c == '\U{205F}'
    || c == '\U{3000}'
  }

  predicate AllSpace(s: string)
  {
    forall i :: 0 <= i < |s| ==> IsSpace(s[i])
  }

  /** Neither starts nor ends with whitespace: what `strip()` returns. */
  predicate IsStripped(s: string)
  {
    s == [] || (!IsSpace(s[0]) && !IsSpace(s[|s| - 1]))
  }

  /** The number of whitespace characters at the front of `s`. */
  function LeadingSpaces(s: string): (n: nat)
    ensures n <= |s|
    ensures forall i :: 0 <= i < n ==> IsSpace(s[i])
    ensures n < |s| ==> !IsSpace(s[n])
  {
    if |s| == 0 || !IsSpace(s[0]) then 0 else 1 + LeadingSpaces(s[1..])
  }

  /** The number of whitespace characters at the end of `s`. */
  function TrailingSpaces(s: string): (n: nat)
    ensures n <= |s|
    ensures forall i :: |s| - n <= i < |s| ==> IsSpace(s[i])
    ensures n < |s| ==> !IsSpace(s[|s| - 1 - n])
  {
    if |s| == 0 || !IsSpace(s[|s| - 1]) then 0 else 1 + TrailingSpaces(s[..|s| - 1])
  }

  /** `s.strip()`: `s` without its leading and trailing whitespace. */
  function Strip(s: string): (r: string)
    ensures IsStripped(r)
    ensures IsStripped(s) ==> r == s
    ensures r == [] <==> AllSpace(s)
  {
    var front := LeadingSpaces(s);
    if front == |s| then
      []
    else
      var back := TrailingSpaces(s);
      RunsApart(s, front, back);
      StripEnds(s, front, |s| - back);
      StripOfStripped(s);
      s[front..|s| - back]
  }

  /** What `strip()` removes is whitespace only, at both ends: `s` is its
      stripped form padded with whitespace. */
  lemma StripPadded(s: string)
    ensures Padded(s, Strip(s))
  {
    var front := LeadingSpaces(s);
    if front == |s| {
      Surrounded(s, |s|, |s|);
    } else {
      var back := TrailingSpaces(s);
      RunsApart(s, front, back);
      Surrounded(s, front, |s| - back);
    }
  }

  /** The trailing whitespace begins after the first non-whitespace
      character. */
  lemma RunsApart(s: string, front: nat, back: nat)
    requires front == LeadingSpaces(s) < |s| && back == TrailingSpaces(s)
    ensures front < |s| - back
    ensures !AllSpace(s)
  {
    assert !IsSpace(s[front]);
  }

  /** The stretch between the two runs neither starts nor ends with
      whitespace. */
  lemma StripEnds(s: string, i: nat, j: nat)
    requires i < j <= |s| && !IsSpace(s[i]) && !IsSpace(s[j - 1])
    ensures IsStripped(s[i..j])
  {
    assert s[i..j][0] == s[i] && s[i..j][j - i - 1] == s[j - 1];
  }

  /** A stripped string has no leading and no trailing whitespace. */
  lemma StripOfStripped(s: string)
    ensures s != [] && IsStripped(s) ==> LeadingSpaces(s) == 0 && TrailingSpaces(s) == 0
  {
  }

  /** `s` is `r` with whitespace added in front and at the end. */
  ghost predicate Padded(s: string, r: string)
  {
    exists a, b :: s == a + r + b && AllSpace(a) && AllSpace(b)
  }

  /** A stretch of `s` with only whitespace before and after it. */
  lemma Surrounded(s: string, i: nat, j: nat)
    requires i <= j <= |s|
    requires forall k :: 0 <= k < i ==> IsSpace(s[k])
    requires forall k :: j <= k < |s| ==> IsSpace(s[k])
    ensures Padded(s, s[i..j])
  {
    assert s == s[..i] + s[i..j] + s[j..];
    assert AllSpace(s[..i]) && AllSpace(s[j..]);
  }

  /** Stripping removes characters and adds none. */
  lemma StripOmits(s: string, c: char)
    ensures c !in s ==> c !in Strip(s)
  {
  }

  /** Whitespace in front of a stripped string is exactly what `strip()` removes. */
  lemma StripAfterSpaces(w: string, x: string)
    requires AllSpace(w) && IsStripped(x)
    ensures Strip(w + x) == x
  {
    LeadingSpacesBeforeWord(w, x);
    assert (w + x)[|w|..] == x;
  }

  lemma {:induction false} LeadingSpacesBeforeWord(w: string, x: string)
    requires AllSpace(w) && (x == [] || !IsSpace(x[0]))
    ensures LeadingSpaces(w + x) == |w|
  {
    if w != [] {
      assert (w + x)[1..] == w[1..] + x;
      LeadingSpacesBeforeWord(w[1..], x);
    }
  }

  /** `sep.join(parts)`. */
  function Join(parts: seq<string>, sep: string): string
  {
    if |parts| == 0 then []
    else if |parts| == 1 then parts[0]
    else parts[0] + sep + Join(parts[1..], sep)
  }

  /** `s.split(sep)` for a one-character separator: the pieces between the
      separators, at least one, none containing the separator, and joining
      them again gives back `s`. */
  function Split(s: string, sep: char): (parts: seq<string>)
    ensures |parts| >= 1
    ensures forall p :: p in parts ==> sep !in p
    ensures Join(parts, [sep]) == s
    decreases |s|
  {
    if |s| == 0 then [[]]
    else
      var rest := Split(s[1..], sep);
      if s[0] == sep then
        JoinFront([], rest, [sep]);
        assert s == [sep] + s[1..];
        [[]] + rest
      else
        JoinExtendFirst([s[0]], rest, [sep]);
        ExtendFirstFree(s[0], rest, sep);
        assert s == [s[0]] + s[1..];
        [[s[0]] + rest[0]] + rest[1..]
  }

  /** Joining a piece in front of further pieces puts a separator between. */
  lemma JoinFront(p: string, rest: seq<string>, sep: string)
    requires |rest| >= 1
    ensures Join([p] + rest, sep) == p + sep + Join(rest, sep)
  {
    assert ([p] + rest)[1..] == rest;
  }

  /** Characters put in front of the first piece come first in the join. */
  lemma JoinExtendFirst(x: string, rest: seq<string>, sep: string)
    requires |rest| >= 1
    ensures Join([x + rest[0]] + rest[1..], sep) == x + Join(rest, sep)
  {
    var parts := [x + rest[0]] + rest[1..];
    if |rest| > 1 {
      assert parts[1..] == rest[1..];
    }
  }

  /** Extending the first piece by a character other than the separator keeps
      every piece free of it. */
  lemma ExtendFirstFree(c: char, rest: seq<string>, sep: char)
    requires |rest| >= 1 && c != sep && forall p :: p in rest ==> sep !in p
    ensures forall p :: p in [[c] + rest[0]] + rest[1..] ==> sep !in p
  {
    assert rest[0] in rest;
    assert forall p :: p in rest[1..] ==> p in rest;
  }

  /** A piece without the separator, followed by the separator, splits off as
      the first piece. */
  lemma {:induction false} SplitAfterPiece(p: string, sep: char, t: string)
    requires sep !in p
    ensures Split(p + [sep] + t, sep) == [p] + Split(t, sep)
    decreases |p|
  {
    if p == [] {
      assert p + [sep] + t == [sep] + t;
      assert ([sep] + t)[1..] == t;
    } else {
      var s := p + [sep] + t;
      assert s[0] == p[0] && s[1..] == p[1..] + [sep] + t;
      SplitAfterPiece(p[1..], sep, t);
      assert [p[0]] + p[1..] == p;
    }
  }

  /** A string without the separator splits into itself. */
  lemma {:induction false} SplitWithoutSeparator(s: string, sep: char)
    requires sep !in s
    ensures Split(s, sep) == [s]
    decreases |s|
  {
    if s != [] {
      SplitWithoutSeparator(s[1..], sep);
      assert [s[0]] + s[1..] == s;
    }
  }

  /** Splitting undoes joining: pieces without the separator, joined with
      it, split back into the same pieces. */
  lemma {:induction false} SplitJoin(parts: seq<string>, sep: char)
    requires |parts| >= 1 && forall p :: p in parts ==> sep !in p
    ensures Split(Join(parts, [sep]), sep) == parts
  {
    assert parts[0] in parts;
    if |parts| == 1 {
      SplitWithoutSeparator(parts[0], sep);
    } else {
      assert forall p :: p in parts[1..] ==> p in parts;
      SplitJoin(parts[1..], sep);
      SplitAfterPiece(parts[0], sep, Join(parts[1..], [sep]));
      assert [parts[0]] + parts[1..] == parts;
    }
  }

  /** Length of the run of non-whitespace characters at the front of `s`. */
  function WordLength(s: string): (n: nat)
    ensures n <= |s|
    ensures forall i :: 0 <= i < n ==> !IsSpace(s[i])
    ensures n < |s| ==> IsSpace(s[n])
  {
    if |s| == 0 || IsSpace(s[0]) then 0 else 1 + WordLength(s[1..])
  }

  /** Holds no whitespace at all. */
  predicate NoSpace(w: string)
  {
    forall i :: 0 <= i < |w| ==> !IsSpace(w[i])
  }

  /** `s.split()` with no argument: the maximal runs of non-whitespace
      characters. No word is empty or holds whitespace, and there are no
      words exactly when `s` is all whitespace. */
  function Words(s: string): (ws: seq<string>)
    ensures forall w :: w in ws ==> w != [] && NoSpace(w)
    ensures ws == [] <==> AllSpace(s)
    decreases |s|
  {
    if s == [] then []
    else if IsSpace(s[0]) then
      AllSpaceCons(s);
      Words(s[1..])
    else
      var n := WordLength(s);
      assert NoSpace(s[..n]);
      [s[..n]] + Words(s[n..])
  }

  /** A string is all whitespace when its head is and its tail is. */
  lemma AllSpaceCons(s: string)
    requires s != [] && IsSpace(s[0])
    ensures AllSpace(s) <==> AllSpace(s[1..])
  {
    if AllSpace(s[1..]) {
      forall i | 0 <= i < |s| ensures IsSpace(s[i]) {
        if i > 0 {
          assert s[i] == s[1..][i - 1];
        }
      }
    }
  }

  /** The words with the whitespace gaps around them, in order: the first
      gap before the first word, the last gap after the last word. */
  function Unwords(gaps: seq<string>, ws: seq<string>): string
    requires |gaps| == |ws| + 1
  {
    if ws == [] then gaps[0] else gaps[0] + ws[0] + Unwords(gaps[1..], ws[1..])
  }

  /** Gaps of whitespace only, the inner ones non-empty. */
  predicate Gaps(gaps: seq<string>, ws: seq<string>)
  {
    && |gaps| == |ws| + 1
    && (forall i :: 0 <= i < |gaps| ==> AllSpace(gaps[i]))
    && (forall i :: 0 < i < |ws| ==> gaps[i] != [])
  }

  /** `s` is the words `ws` put back between whitespace gaps. */
  ghost predicate Rebuilds(s: string, ws: seq<string>)
  {
    exists gaps :: Gaps(gaps, ws) && Unwords(gaps, ws) == s
  }

  /** The words are the maximal runs of non-whitespace characters of `s`, in
      their order: put back between whitespace gaps, they rebuild `s`. */
  lemma {:induction false} WordsRebuild(s: string)
    ensures Rebuilds(s, Words(s))
    decreases |s|
  {
    if s == [] {
      assert Gaps([[]], Words(s)) && Unwords([[]], Words(s)) == s;
    } else if IsSpace(s[0]) {
      WordsRebuild(s[1..]);
      RebuildSpaceStep(s);
    } else {
      WordsRebuild(s[WordLength(s)..]);
      RebuildWordStep(s);
    }
  }

  lemma RebuildSpaceStep(s: string)
    requires s != [] && IsSpace(s[0]) && Rebuilds(s[1..], Words(s[1..]))
    ensures Rebuilds(s, Words(s))
  {
    WordsAfterSpace(s);
    RebuildAfterSpace(s[0], s[1..], Words(s[1..]));
    HeadTail(s);
  }

  lemma RebuildWordStep(s: string)
    requires s != [] && !IsSpace(s[0])
    requires Rebuilds(s[WordLength(s)..], Words(s[WordLength(s)..]))
    ensures Rebuilds(s, Words(s))
  {
    var n := WordLength(s);
    WordsAtWord(s, n);
    WordThenSpace(s, n);
    RebuildAfterWord(s[..n], s[n..], Words(s[n..]));
    Halves(s, n);
  }

  lemma HeadTail(s: string)
    requires s != []
    ensures [s[0]] + s[1..] == s
  {
  }

  lemma Halves(s: string, n: nat)
    requires n <= |s|
    ensures s[..n] + s[n..] == s
  {
  }

  /** A leading whitespace character joins the first gap. */
  lemma RebuildAfterSpace(c: char, t: string, ws: seq<string>)
    requires IsSpace(c) && Rebuilds(t, ws)
    ensures Rebuilds([c] + t, ws)
  {
    var gaps :| Gaps(gaps, ws) && Unwords(gaps, ws) == t;
    GapsPrepend([c], gaps, ws);
    UnwordsPrepend([c], gaps, ws);
    assert Gaps([[c] + gaps[0]] + gaps[1..], ws);
  }

  /** A leading word comes after an empty first gap; the text after it starts
      with whitespace, so the old first gap is an inner one now. */
  lemma RebuildAfterWord(w: string, t: string, ws: seq<string>)
    requires w != [] && NoSpace(w) && (t == [] || IsSpace(t[0]))
    requires forall x :: x in ws ==> x != [] && NoSpace(x)
    requires Rebuilds(t, ws)
    ensures Rebuilds(w + t, [w] + ws)
  {
    var gaps :| Gaps(gaps, ws) && Unwords(gaps, ws) == t;
    if ws != [] {
      assert ws[0] in ws;
      FirstGap(gaps, ws, t);
    }
    GapsCons(w, gaps, ws);
    UnwordsCons(w, gaps, ws);
    assert Gaps([[]] + gaps, [w] + ws);
  }

  /** Leading whitespace adds no word. */
  lemma WordsAfterSpace(s: string)
    requires s != [] && IsSpace(s[0])
    ensures Words(s) == Words(s[1..])
  {
  }

  /** The leading word holds no whitespace, and whitespace follows it. */
  lemma WordThenSpace(s: string, n: nat)
    requires s != [] && !IsSpace(s[0]) && n == WordLength(s)
    ensures s[..n] != [] && NoSpace(s[..n])
    ensures s[n..] == [] || IsSpace(s[n..][0])
  {
    assert s[..n][0] == s[0];
  }

  /** A leading word is the first word. */
  lemma WordsAtWord(s: string, n: nat)
    requires s != [] && !IsSpace(s[0]) && n == WordLength(s)
    ensures Words(s) == [s[..n]] + Words(s[n..])
  {
  }

  /** Whitespace put in front of the first gap leaves gaps. */
  lemma GapsPrepend(x: string, gaps: seq<string>, ws: seq<string>)
    requires AllSpace(x) && Gaps(gaps, ws)
    ensures Gaps([x + gaps[0]] + gaps[1..], ws)
  {
    var more := [x + gaps[0]] + gaps[1..];
    AllSpaceAppend(x, gaps[0]);
    forall i | 0 < i < |more| ensures more[i] == gaps[i] {
    }
  }

  /** An empty gap in front of a new first word, whose old first gap becomes
      an inner gap. */
  lemma GapsCons(w: string, gaps: seq<string>, ws: seq<string>)
    requires Gaps(gaps, ws) && (ws == [] || gaps[0] != [])
    ensures Gaps([[]] + gaps, [w] + ws)
  {
    var more := [[]] + gaps;
    forall i | 0 < i < |more| ensures more[i] == gaps[i - 1] {
    }
  }

  lemma UnwordsCons(w: string, gaps: seq<string>, ws: seq<string>)
    requires |gaps| == |ws| + 1
    ensures Unwords([[]] + gaps, [w] + ws) == w + Unwords(gaps, ws)
  {
    assert ([[]] + gaps)[1..] == gaps;
    assert ([w] + ws)[1..] == ws;
    assert [] + w == w;
  }

  lemma AllSpaceAppend(a: string, b: string)
    requires AllSpace(a) && AllSpace(b)
    ensures AllSpace(a + b)
  {
  }

  /** Characters put in front of the first gap. */
  lemma UnwordsPrepend(x: string, gaps: seq<string>, ws: seq<string>)
    requires |gaps| == |ws| + 1
    ensures Unwords([x + gaps[0]] + gaps[1..], ws) == x + Unwords(gaps, ws)
  {
    var more := [x + gaps[0]] + gaps[1..];
    if ws != [] {
      assert more[1..] == gaps[1..];
    }
  }

  /** Text that starts with whitespace has a non-empty first gap. */
  lemma FirstGap(gaps: seq<string>, ws: seq<string>, text: string)
    requires Gaps(gaps, ws) && ws != [] && ws[0] != [] && NoSpace(ws[0])
    requires text == Unwords(gaps, ws)
    requires text == [] || IsSpace(text[0])
    ensures gaps[0] != []
  {
    var rest := ws[0] + Unwords(gaps[1..], ws[1..]);
    assert rest[0] == ws[0][0];
    assert !IsSpace(rest[0]);
    assert text == gaps[0] + rest;
  }

  /** SQLite's `lower()`: folds ASCII letters only. */
  function LowerChar(c: char): char
  {
    if 'A' <= c <= 'Z' then (c as int + 32) as char else c
  }

  function Lower(s: string): (r: string)
    ensures |r| == |s|
    ensures forall i :: 0 <= i < |s| && 'A' <= s[i] <= 'Z' ==> r[i] as int == s[i] as int - 'A' as int + 'a' as int
    ensures forall i :: 0 <= i < |s| && !('A' <= s[i] <= 'Z') ==> r[i] == s[i]
    ensures forall i :: 0 <= i < |r| ==> !('A' <= r[i] <= 'Z')
  {
    seq(|s|, i requires 0 <= i < |s| => LowerChar(s[i]))
  }

  /** Lower-casing twice is lower-casing once. */
  lemma LowerIdempotent(s: string)
    ensures Lower(Lower(s)) == Lower(s)
  {
  }

  /** Lower-casing neither creates nor removes whitespace. */
  lemma LowerKeepsSpace(s: string)
    ensures AllSpace(Lower(s)) <==> AllSpace(s)
  {
    assert forall i :: 0 <= i < |s| ==> (IsSpace(Lower(s)[i]) <==> IsSpace(s[i]));
  }

  predicate IsPrefix(p: string, s: string)
  {
    |p| <= |s| && s[..|p|] == p
  }

  /** `needle` occurs in `hay` (SQL `hay LIKE '%needle%'` with no wildcard in
      `needle`). */
  predicate Contains(hay: string, needle: string)
    decreases |hay|
  {
    IsPrefix(needle, hay) || (|hay| > 0 && Contains(hay[1..], needle))
  }
}
