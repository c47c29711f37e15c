/** The text helpers of app/crud.py: `parse_tags`, `format_tags` and
    `generate_summary`. */
module TextUtils {
  import opened Wrappers
  import opened Strings

  // ---------------------------------------------------------------- tags

  /** What a single tag looks like once parsed: non-empty, no surrounding
      whitespace, no comma. */
  predicate WellFormedTag(t: string)
  {
    t != [] && IsStripped(t) && ',' !in t
  }

  /** Strips every comma-separated piece and drops the pieces that are left
      empty, keeping the order of the rest. */
  function CleanTags(pieces: seq<string>): (tags: seq<string>)
    ensures (forall p :: p in pieces ==> ',' !in p) ==> forall t :: t in tags ==> WellFormedTag(t)
  {
    if pieces == [] then []
    else
      var t := Strip(pieces[0]);
      StripOmits(pieces[0], ',');
      (if t != [] then [t] else []) + CleanTags(pieces[1..])
  }

  /** `parse_tags`: no tags for a missing or empty string; otherwise the
      stripped, non-empty comma-separated pieces in input order. */
  function ParseTags(tagsString: Option<string>): (tags: seq<string>)
    ensures tagsString == None || tagsString == Some([]) ==> tags == []
    ensures forall t :: t in tags ==> WellFormedTag(t)
  {
    if tagsString.None? || tagsString.value == [] then []
    else CleanTags(Split(tagsString.value, ','))
  }

  /** `f` lists, in increasing order, exactly the positions of the non-empty
      strings of `xs`, and `tags` holds those strings. */
  predicate PicksNonEmpty(xs: seq<string>, tags: seq<string>, f: seq<nat>)
  {
    && |f| == |tags|
    && (forall k :: 0 <= k < |f| ==> f[k] < |xs| && xs[f[k]] != [] && tags[k] == xs[f[k]])
    && (forall k, l :: 0 <= k < l < |f| ==> f[k] < f[l])
    && (forall j :: 0 <= j < |xs| && xs[j] != [] ==> j in f)
  }

  /** `tags` is the subsequence of the non-empty strings of `xs`. */
  ghost predicate NonEmptyOf(xs: seq<string>, tags: seq<string>)
  {
    exists f :: PicksNonEmpty(xs, tags, f)
  }

  /** Every piece stripped. */
  function StripEach(pieces: seq<string>): (r: seq<string>)
    ensures |r| == |pieces| && forall i :: 0 <= i < |pieces| ==> r[i] == Strip(pieces[i])
  {
    if pieces == [] then [] else [Strip(pieces[0])] + StripEach(pieces[1..])
  }

  /** Every position moved one further, for a string put in front. */
  function Shift(f: seq<nat>): (g: seq<nat>)
    ensures |g| == |f| && forall k :: 0 <= k < |f| ==> g[k] == f[k] + 1
  {
    seq(|f|, k requires 0 <= k < |f| => f[k] + 1)
  }

  /** `CleanTags` keeps the stripped pieces that are not empty, all of them,
      in their order. */
  lemma {:induction false} CleanTagsPicks(pieces: seq<string>)
    ensures NonEmptyOf(StripEach(pieces), CleanTags(pieces))
  {
    if pieces == [] {
      assert PicksNonEmpty(StripEach(pieces), [], []);
    } else {
      var rest := pieces[1..];
      CleanTagsPicks(rest);
      var f :| PicksNonEmpty(StripEach(rest), CleanTags(rest), f);
      var x := Strip(pieces[0]);
      StripEachCons(pieces);
      CleanTagsCons(pieces);
      if x != [] {
        PicksKeep(x, StripEach(rest), CleanTags(rest), f);
        NonEmptyOfEq(StripEach(pieces), [x] + StripEach(rest), CleanTags(pieces), [x] + CleanTags(rest));
      } else {
        PicksDrop(StripEach(rest), CleanTags(rest), f);
        NonEmptyOfEq(StripEach(pieces), [[]] + StripEach(rest), CleanTags(pieces), CleanTags(rest));
      }
    }
  }

  lemma NonEmptyOfEq(xs: seq<string>, ys: seq<string>, tags: seq<string>, tags2: seq<string>)
    requires xs == ys && tags == tags2 && NonEmptyOf(ys, tags2)
    ensures NonEmptyOf(xs, tags)
  {
  }

  lemma StripEachCons(pieces: seq<string>)
    requires pieces != []
    ensures StripEach(pieces) == [Strip(pieces[0])] + StripEach(pieces[1..])
  {
  }

  lemma CleanTagsCons(pieces: seq<string>)
    requires pieces != []
    ensures CleanTags(pieces) == (if Strip(pieces[0]) != [] then [Strip(pieces[0])] else []) + CleanTags(pieces[1..])
  {
  }

  /** A non-empty string in front is picked first. */
  lemma PicksKeep(x: string, xs: seq<string>, tags: seq<string>, f: seq<nat>)
    requires x != [] && PicksNonEmpty(xs, tags, f)
    ensures NonEmptyOf([x] + xs, [x] + tags)
  {
    KeepPositions(x, xs, tags, f);
    KeepIncreasing(f);
    KeepCovers(x, xs, tags, f);
    assert PicksNonEmpty([x] + xs, [x] + tags, [0] + Shift(f));
  }

  lemma KeepPositions(x: string, xs: seq<string>, tags: seq<string>, f: seq<nat>)
    requires x != [] && PicksNonEmpty(xs, tags, f)
    ensures forall k :: 0 <= k < |[0] + Shift(f)| ==>
      var g, ys := [0] + Shift(f), [x] + xs;
      g[k] < |ys| && ys[g[k]] != [] && ([x] + tags)[k] == ys[g[k]]
  {
    var ys, us, g := [x] + xs, [x] + tags, [0] + Shift(f);
    forall k | 0 < k < |g| ensures g[k] < |ys| && ys[g[k]] != [] && us[k] == ys[g[k]] {
      assert g[k] == f[k - 1] + 1 && ys[g[k]] == xs[f[k - 1]] && us[k] == tags[k - 1];
    }
  }

  lemma KeepIncreasing(f: seq<nat>)
    requires forall k, l :: 0 <= k < l < |f| ==> f[k] < f[l]
    ensures forall k, l :: 0 <= k < l < |[0] + Shift(f)| ==> ([0] + Shift(f))[k] < ([0] + Shift(f))[l]
  {
    var g := [0] + Shift(f);
    forall k, l | 0 <= k < l < |g| ensures g[k] < g[l] {
      assert g[l] == f[l - 1] + 1;
      if k > 0 {
        assert g[k] == f[k - 1] + 1;
      }
    }
  }

  lemma KeepCovers(x: string, xs: seq<string>, tags: seq<string>, f: seq<nat>)
    requires PicksNonEmpty(xs, tags, f)
    ensures forall j :: 0 <= j < |[x] + xs| && ([x] + xs)[j] != [] ==> j in [0] + Shift(f)
  {
    var ys, g := [x] + xs, [0] + Shift(f);
    forall j | 0 <= j < |ys| && ys[j] != [] ensures j in g {
      if j > 0 {
        assert ys[j] == xs[j - 1];
        var k :| 0 <= k < |f| && f[k] == j - 1;
        assert g[k + 1] == j;
      }
    }
  }

  /** The empty string in front is not picked. */
  lemma PicksDrop(xs: seq<string>, tags: seq<string>, f: seq<nat>)
    requires PicksNonEmpty(xs, tags, f)
    ensures NonEmptyOf([[]] + xs, tags)
  {
    var ys := [[]] + xs;
    var g := Shift(f);
    forall k | 0 <= k < |g| ensures ys[g[k]] == xs[f[k]] {
    }
    forall j | 0 <= j < |ys| && ys[j] != [] ensures j in g {
      assert ys[j] == xs[j - 1];
      var k :| 0 <= k < |f| && f[k] == j - 1;
      assert g[k] == j;
    }
    assert PicksNonEmpty(ys, tags, g);
  }

  /** `parse_tags` of a string: its comma-separated pieces, stripped, with
      the blank ones left out and the order kept. */
  lemma ParseTagsPicks(s: string)
    ensures NonEmptyOf(StripEach(Split(s, ',')), ParseTags(Some(s)))
  {
    if s == [] {
      assert StripEach(Split(s, ',')) == [[]];
      assert PicksNonEmpty([[]], [], []);
    } else {
      CleanTagsPicks(Split(s, ','));
    }
  }

  /** Every piece but the first, behind a blank. */
  function Spaced(tags: seq<string>): (r: seq<string>)
    ensures |r| == |tags| && forall i :: 0 <= i < |tags| ==> r[i] == " " + tags[i]
  {
    seq(|tags|, i requires 0 <= i < |tags| => " " + tags[i])
  }

  /** `format_tags`: the tags joined with ", ". */
  function FormatTags(tags: seq<string>): string
  {
    Join(tags, ", ")
  }

  /** Splitting formatted comma-free tags at the commas gives the first tag,
      then every further tag behind the blank of its ", ". */
  lemma FormatTagsPieces(tags: seq<string>)
    requires |tags| >= 1 && forall t :: t in tags ==> ',' !in t
    ensures Split(FormatTags(tags), ',') == [tags[0]] + Spaced(tags[1..])
  {
    JoinSplits([], tags);
    assert [] + tags[0] == tags[0];
    assert [] + Join(tags, ", ") == Join(tags, ", ");
  }

  /** Comma-free tags joined with ", ", behind a comma-free `w`, split into
      `w` with the first tag, then the others behind a blank. */
  lemma {:induction false} JoinSplits(w: string, tags: seq<string>)
    requires ',' !in w && |tags| >= 1 && forall t :: t in tags ==> ',' !in t
    ensures Split(w + Join(tags, ", "), ',') == [w + tags[0]] + Spaced(tags[1..])
    decreases |tags|
  {
    assert tags[0] in tags;
    if |tags| == 1 {
      SplitWithoutSeparator(w + tags[0], ',');
    } else {
      var rest := Join(tags[1..], ", ");
      JoinAtFirstComma(w, tags);
      SplitAfterPiece(w + tags[0], ',', " " + rest);
      assert forall t :: t in tags[1..] ==> t in tags;
      JoinSplits(" ", tags[1..]);
      SpacedCons(tags[1..]);
    }
  }

  lemma JoinAtFirstComma(w: string, tags: seq<string>)
    requires |tags| >= 2
    ensures w + Join(tags, ", ") == (w + tags[0]) + [','] + (" " + Join(tags[1..], ", "))
  {
  }

  lemma SpacedCons(tags: seq<string>)
    requires |tags| >= 1
    ensures Spaced(tags) == [" " + tags[0]] + Spaced(tags[1..])
  {
  }

  /** A piece that strips to something non-empty contributes exactly that. */
  lemma CleanCons(p: string, rest: seq<string>)
    requires Strip(p) != []
    ensures CleanTags([p] + rest) == [Strip(p)] + CleanTags(rest)
  {
    assert ([p] + rest)[1..] == rest;
  }

  /** Whitespace contains no comma. */
  lemma SpaceHasNoComma(w: string)
    requires AllSpace(w)
    ensures ',' !in w
  {
    forall i | 0 <= i < |w| ensures w[i] != ',' {
      assert IsSpace(w[i]);
    }
  }

  /** The pieces of a formatted list, even behind leading whitespace, clean
      up to the list itself. */
  lemma {:induction false} CleanFormatted(w: string, tags: seq<string>)
    requires AllSpace(w) && |tags| >= 1
    requires forall t :: t in tags ==> WellFormedTag(t)
    ensures CleanTags(Split(w + FormatTags(tags), ',')) == tags
    decreases |tags|
  {
    var head := w + tags[0];
    HeadPiece(w, tags);
    if |tags| == 1 {
      SplitWithoutSeparator(head, ',');
      CleanCons(head, []);
    } else {
      FormatSplitsAtHead(w, tags);
      CleanFormatted(" ", tags[1..]);
      CleanCons(head, Split(" " + FormatTags(tags[1..]), ','));
      ConsTail(tags);
    }
  }

  /** The first tag behind whitespace is a comma-free piece that strips to
      the tag. */
  lemma HeadPiece(w: string, tags: seq<string>)
    requires AllSpace(w) && |tags| >= 1
    requires forall t :: t in tags ==> WellFormedTag(t)
    ensures ',' !in w + tags[0] && Strip(w + tags[0]) == tags[0] && tags[0] != []
  {
    assert tags[0] in tags;
    SpaceHasNoComma(w);
    StripAfterSpaces(w, tags[0]);
  }

  lemma ConsTail<T>(s: seq<T>)
    requires |s| >= 1
    ensures s == [s[0]] + s[1..]
  {
  }

  /** The first tag and the whitespace before it split off as one piece. */
  lemma FormatSplitsAtHead(w: string, tags: seq<string>)
    requires |tags| >= 2 && ',' !in w + tags[0]
    ensures Split(w + FormatTags(tags), ',') == [w + tags[0]] + Split(" " + FormatTags(tags[1..]), ',')
  {
    var rest := FormatTags(tags[1..]);
    JoinAtFirstComma(w, tags);
    SplitAfterPiece(w + tags[0], ',', " " + rest);
  }

  /** Formatting well-formed tags and parsing the string gives them back. */
  lemma {:induction false} ParseFormatRoundTrip(tags: seq<string>)
    requires forall t :: t in tags ==> WellFormedTag(t)
    ensures ParseTags(Some(FormatTags(tags))) == tags
  {
    if tags != [] {
      assert FormatTags(tags)[..|tags[0]|] == tags[0];
      CleanFormatted([], tags);
      assert [] + FormatTags(tags) == FormatTags(tags);
    }
  }

  /** Parsing a formatted parse changes nothing: `parse_tags` is a fixed
      point of the round trip. */
  lemma ParseFormatParse(tagsString: Option<string>)
    ensures ParseTags(Some(FormatTags(ParseTags(tagsString)))) == ParseTags(tagsString)
  {
    ParseFormatRoundTrip(ParseTags(tagsString));
  }

  // ------------------------------------------------------------- summary

  /** Default `max_length` of `generate_summary`, the only one the handlers use. */
  const SUMMARY_LENGTH: nat := 200

  predicate IsSentenceEnd(c: char)
  {
    c == '.' || c == '!' || c == '?'
  }

  /** `s.rfind(c)`: the last index holding `c`, or -1. */
  function RFind(s: string, c: char): (k: int)
    ensures -1 <= k < |s|
    ensures k >= 0 ==> s[k] == c
    ensures forall j :: k < j < |s| ==> s[j] != c
  {
    if s == [] then -1
    else if s[|s| - 1] == c then |s| - 1
    else RFind(s[..|s| - 1], c)
  }

  function Max(a: int, b: int): int
  {
    if a < b then b else a
  }

  /** `max` of the three `rfind`s: the last index holding '.', '!' or '?',
      or -1 when there is none. */
  function LastSentenceEnd(s: string): (k: int)
    ensures -1 <= k < |s|
    ensures k >= 0 ==> IsSentenceEnd(s[k])
    ensures forall j :: k < j < |s| ==> !IsSentenceEnd(s[j])
  {
    Max(Max(RFind(s, '.'), RFind(s, '!')), RFind(s, '?'))
  }

  /** The summary keeps `content` up to and including its last sentence end
      within the first `maxLength` characters, when that end lies beyond 70%
      of `maxLength`. */
  predicate SentenceCut(content: string, maxLength: nat, summary: string)
  {
    && maxLength < |content|
    && 0 < |summary| <= maxLength
    && summary == content[..|summary|]
    && IsSentenceEnd(summary[|summary| - 1])
    && 10 * (|summary| - 1) > 7 * maxLength
    && forall j :: |summary| <= j < maxLength ==> !IsSentenceEnd(content[j])
  }

  /** The summary is the first `maxLength` characters and "...", because no
      sentence end lies beyond 70% of `maxLength` within them. */
  predicate EllipsisCut(content: string, maxLength: nat, summary: string)
  {
    && maxLength < |content|
    && summary == content[..maxLength] + "..."
    && forall j :: 0 <= j < maxLength && 10 * j > 7 * maxLength ==> !IsSentenceEnd(content[j])
  }

  /** `generate_summary`. The test `last_sentence_end > max_length * 0.7` is
      written exactly in integers as `10 * k > 7 * maxLength`. */
  function GenerateSummary(content: string, maxLength: nat): (summary: string)
    ensures |content| <= maxLength ==> summary == content
    ensures |content| > maxLength ==>
      SentenceCut(content, maxLength, summary) || EllipsisCut(content, maxLength, summary)
    ensures |summary| <= maxLength + 3
    ensures content != [] ==> summary != []
  {
    if |content| <= maxLength then content
    else
      var truncated := content[..maxLength];
      var k := LastSentenceEnd(truncated);
      if 10 * k > 7 * maxLength then content[..k + 1]
      else if |content| > maxLength then truncated + "..." else truncated
  }

  /** The two outcomes of a long content exclude each other, so the summary is
      determined by them. */
  lemma CutsExclusive(content: string, maxLength: nat, s1: string, s2: string)
    requires SentenceCut(content, maxLength, s1)
    ensures !EllipsisCut(content, maxLength, s2)
  {
    assert IsSentenceEnd(content[|s1| - 1]);
  }

  /** Two sentence cuts of the same content are the same cut. */
  lemma SentenceCutUnique(content: string, maxLength: nat, s1: string, s2: string)
    requires SentenceCut(content, maxLength, s1) && SentenceCut(content, maxLength, s2)
    ensures s1 == s2
  {
    // Each cut ends in a sentence end the other cut would have reached.
    assert IsSentenceEnd(content[|s1| - 1]) && IsSentenceEnd(content[|s2| - 1]);
    assert |s1| == |s2|;
  }

  /** The two outcomes specify `generate_summary` completely: any summary of
      a long content that is one of the two cuts is the one it returns. */
  lemma SummaryDeterminedByCuts(content: string, maxLength: nat, summary: string)
    requires SentenceCut(content, maxLength, summary) || EllipsisCut(content, maxLength, summary)
    ensures summary == GenerateSummary(content, maxLength)
  {
    var generated := GenerateSummary(content, maxLength);
    if SentenceCut(content, maxLength, summary) {
      if SentenceCut(content, maxLength, generated) {
        SentenceCutUnique(content, maxLength, summary, generated);
      } else {
        CutsExclusive(content, maxLength, summary, generated);
      }
    } else if SentenceCut(content, maxLength, generated) {
      CutsExclusive(content, maxLength, generated, summary);
    }
  }
}
