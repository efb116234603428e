/**
  Sentence segmentation as the post-processing does it:
  `re.split(r'(?<=[.!?])\s+', text.strip())`, then each piece stripped and the
  empty ones skipped.
 */
module Sentences {
  import opened Text

  predicate IsTerminator(c: char) {
    c == '.' || c == '!' || c == '?'
  }

  /** The split pattern matches at `i`: whitespace right after a terminator. */
  predicate BoundaryAt(t: string, i: int) {
    0 < i < |t| && IsTerminator(t[i - 1]) && IsSpace(t[i])
  }

  predicate NoBoundary(t: string) {
    forall i | 0 < i < |t| :: !BoundaryAt(t, i)
  }

  /** Index of the first boundary at or after `i`, or `|t|` when there is none. */
  function FindBoundary(t: string, i: nat): (b: nat)
    requires i <= |t|
    ensures i <= b <= |t|
    ensures forall m :: i <= m < b ==> !BoundaryAt(t, m)
    ensures b < |t| ==> BoundaryAt(t, b)
    decreases |t| - i
  {
    if i == |t| || BoundaryAt(t, i) then i else FindBoundary(t, i + 1)
  }

  /** `re.split(r'(?<=[.!?])\s+', t)`. Each match swallows the whole run of
      whitespace after a terminator; the search resumes after the run, where
      the look-behind sees whitespace and so cannot match again at once. */
  function SplitSentences(t: string): (r: seq<string>)
    ensures |r| >= 1
    decreases |t|
  {
    if |t| == 0 then [t]
    else
      var i := FindBoundary(t, 1);
      if i == |t| then [t]
      else [t[..i]] + SplitSentences(t[SkipSpace(t, i)..])
  }

  lemma {:induction false} FindBoundaryAt(t: string, i: nat, b: nat)
    requires i <= b <= |t|
    requires forall m :: i <= m < b ==> !BoundaryAt(t, m)
    requires b == |t| || BoundaryAt(t, b)
    ensures FindBoundary(t, i) == b
    decreases b - i
  {
    if i < b {
      FindBoundaryAt(t, i + 1, b);
    }
  }

  /** A text with no boundary is one sentence. */
  lemma SplitSingle(t: string)
    requires NoBoundary(t)
    ensures SplitSentences(t) == [t]
  {
    if t != [] {
      FindBoundaryAt(t, 1, |t|);
    }
  }

  /** A sentence ending in a terminator, one space, and a second sentence that
      does not start with whitespace split into exactly those two. */
  lemma SplitTwo(s: string, rest: string)
    requires s != [] && IsTerminator(s[|s| - 1]) && NoBoundary(s)
    requires rest != [] && !IsSpace(rest[0]) && NoBoundary(rest)
    ensures SplitSentences(s + " " + rest) == [s, rest]
  {
    var t := s + " " + rest;
    forall m | 1 <= m < |s| ensures !BoundaryAt(t, m) {
      assert t[m - 1] == s[m - 1] && t[m] == s[m];
      assert !BoundaryAt(s, m);
    }
    assert BoundaryAt(t, |s|);
    FindBoundaryAt(t, 1, |s|);
    assert SkipSpace(t, |s| + 1) == |s| + 1;
    assert t[..|s|] == s && t[|s| + 1..] == rest;
    SplitSingle(rest);
  }

  /** The fragments of such a two-sentence text are the two sentences. */
  lemma FragmentsOfTwo(s: string, rest: string)
    requires s != [] && IsStripped(s) && NoBoundary(s) && IsTerminator(s[|s| - 1])
    requires rest != [] && IsStripped(rest) && NoBoundary(rest)
    ensures Fragments(s + " " + rest) == [s, rest]
  {
    var t := s + " " + rest;
    assert t[0] == s[0] && t[|t| - 1] == rest[|rest| - 1];
    StripKeepsStripped(t);
    SplitTwo(s, rest);
    StripKeepsStripped(rest);
    StripKeepsStripped(s);
    assert Kept([s, rest]) == Kept([s]) + [rest];
    assert Kept([s]) == Kept([]) + [s];
  }

  /** The pieces with the given separators put back between them:
      `r[0] + ws[0] + r[1] + ... + ws[n-2] + r[n-1]`. */
  function Interleave(r: seq<string>, ws: seq<string>): string
    requires |r| >= 1 && |ws| == |r| - 1
  {
    if |r| == 1 then r[0] else r[0] + ws[0] + Interleave(r[1..], ws[1..])
  }

  /** Every separator is a non-empty run of whitespace. */
  predicate Separators(ws: seq<string>) {
    forall k :: 0 <= k < |ws| ==> ws[k] != [] && AllSpace(ws[k])
  }

  /** The split loses nothing but the whitespace it splits on: there are
      non-empty all-whitespace separators that, put back between the pieces,
      give the text again. */
  lemma {:induction false} SplitRoundTrip(t: string) returns (ws: seq<string>)
    ensures |ws| == |SplitSentences(t)| - 1
    ensures Separators(ws)
    ensures Interleave(SplitSentences(t), ws) == t
    decreases |t|
  {
    if |t| == 0 || FindBoundary(t, 1) == |t| {
      ws := [];
    } else {
      var i := FindBoundary(t, 1);
      var j := SkipSpace(t, i);
      var head, sep, tail := t[..i], t[i..j], t[j..];
      var rest := SplitRoundTrip(tail);
      SeparatorIsSpace(t, i);
      SeparatorsCons(sep, rest);
      ws := [sep] + rest;
      SplitAtBoundary(t);
      InterleaveCons(head, sep, SplitSentences(tail), rest);
      SlicesConcat(t, i, j);
    }
  }

  lemma SlicesConcat(t: string, i: nat, j: nat)
    requires i <= j <= |t|
    ensures t[..i] + t[i..j] + t[j..] == t
  {
  }

  lemma SeparatorsCons(w: string, ws: seq<string>)
    requires w != [] && AllSpace(w) && Separators(ws)
    ensures Separators([w] + ws)
  {
    forall k | 0 <= k < |[w] + ws| ensures ([w] + ws)[k] != [] && AllSpace(([w] + ws)[k]) {
      if k > 0 { assert ([w] + ws)[k] == ws[k - 1]; }
    }
  }

  /** At a boundary the split yields the text before it, then the split of
      the text after the whitespace run. */
  lemma SplitAtBoundary(t: string)
    requires |t| > 0 && FindBoundary(t, 1) < |t|
    ensures SplitSentences(t) ==
            [t[..FindBoundary(t, 1)]] + SplitSentences(t[SkipSpace(t, FindBoundary(t, 1))..])
  {
  }

  lemma InterleaveCons(x: string, w: string, r: seq<string>, ws: seq<string>)
    requires |r| >= 1 && |ws| == |r| - 1
    ensures Interleave([x] + r, [w] + ws) == x + w + Interleave(r, ws)
  {
    assert ([x] + r)[1..] == r && ([w] + ws)[1..] == ws;
  }

  /** The whitespace run a boundary swallows is non-empty and all whitespace. */
  lemma SeparatorIsSpace(t: string, i: nat)
    requires BoundaryAt(t, i)
    ensures t[i..SkipSpace(t, i)] != [] && AllSpace(t[i..SkipSpace(t, i)])
  {
    var j := SkipSpace(t, i);
    forall k | 0 <= k < j - i ensures IsSpace(t[i..j][k]) {
      assert t[i..j][k] == t[i + k];
    }
  }

  predicate AllIn(xs: seq<string>, t: string) {
    forall k :: 0 <= k < |xs| ==> IsSubstring(xs[k], t)
  }

  /** Every piece of the split is a piece of the text. */
  lemma {:induction false} SplitPiecesAreSubstrings(t: string)
    ensures AllIn(SplitSentences(t), t)
    decreases |t|
  {
    var r := SplitSentences(t);
    if |t| == 0 || FindBoundary(t, 1) == |t| {
      assert r == [t];
      SubstringAt(t, t, 0);
    } else {
      var i := FindBoundary(t, 1);
      var j := SkipSpace(t, i);
      SplitPiecesAreSubstrings(t[j..]);
      SubstringAt(t[..i], t, 0);
      SliceIsSubstring(t, j, |t|);
      assert t[j..|t|] == t[j..];
      forall k | 0 < k < |r| ensures IsSubstring(r[k], t) {
        SubstringTransitive(r[k], t[j..], t);
      }
    }
  }

  predicate EndsSentence(s: string) {
    s != [] && IsTerminator(s[|s| - 1])
  }

  predicate AreSentences(r: seq<string>) {
    (forall k :: 0 <= k < |r| ==> NoBoundary(r[k])) &&
    (forall k :: 0 <= k < |r| - 1 ==> EndsSentence(r[k]))
  }

  /** The split is maximal: no piece holds a terminator followed by whitespace,
      and every piece but the last ends with its terminator. */
  lemma {:induction false} SplitPiecesAreSentences(t: string)
    ensures AreSentences(SplitSentences(t))
    decreases |t|
  {
    var r := SplitSentences(t);
    if |t| == 0 || FindBoundary(t, 1) == |t| {
      assert r == [t];
    } else {
      var i := FindBoundary(t, 1);
      var head, rest := t[..i], SplitSentences(t[SkipSpace(t, i)..]);
      SplitPiecesAreSentences(t[SkipSpace(t, i)..]);
      forall m | 0 < m < |head| ensures !BoundaryAt(head, m) {
        assert head[m - 1] == t[m - 1] && head[m] == t[m];
        assert !BoundaryAt(t, m);
      }
      assert r == [head] + rest;
      assert head[|head| - 1] == t[i - 1];
      forall k | 0 < k < |r| ensures NoBoundary(r[k]) && (k < |r| - 1 ==> EndsSentence(r[k])) {
        assert r[k] == rest[k - 1];
        assert NoBoundary(rest[k - 1]);
        assert k - 1 < |rest| - 1 ==> EndsSentence(rest[k - 1]);
      }
    }
  }

  /** Splitting a stripped non-empty text gives stripped non-empty pieces. */
  lemma {:induction false} SplitOfStripped(t: string)
    requires t != [] && IsStripped(t)
    ensures forall k :: 0 <= k < |SplitSentences(t)| ==>
              SplitSentences(t)[k] != [] && IsStripped(SplitSentences(t)[k])
    decreases |t|
  {
    var i := FindBoundary(t, 1);
    if i < |t| {
      var j := SkipSpace(t, i);
      assert j < |t|;
      SplitOfStripped(t[j..]);
    }
  }

  /** The stripped, non-empty pieces, in order: what the loops over the split
      keep after `s = s.strip()` and `if not s: continue`. */
  function Kept(pieces: seq<string>): (r: seq<string>)
    ensures |r| <= |pieces|
    ensures forall k :: 0 <= k < |r| ==> r[k] != [] && IsStripped(r[k])
  {
    if pieces == [] then []
    else
      var s := Strip(pieces[|pieces| - 1]);
      Kept(pieces[..|pieces| - 1]) + (if s == [] then [] else [s])
  }

  /** Taking one more piece keeps one more sentence, or none if it strips to nothing. */
  lemma KeptSnoc(pieces: seq<string>, i: nat)
    requires i < |pieces|
    ensures Kept(pieces[..i + 1]) ==
            Kept(pieces[..i]) + (if Strip(pieces[i]) == [] then [] else [Strip(pieces[i])])
  {
    assert pieces[..i + 1][..i] == pieces[..i];
  }

  lemma {:induction false} KeptAllIn(pieces: seq<string>, t: string)
    requires AllIn(pieces, t)
    ensures AllIn(Kept(pieces), t)
  {
    if pieces != [] {
      var init, last := pieces[..|pieces| - 1], pieces[|pieces| - 1];
      assert AllIn(init, t) by {
        forall k | 0 <= k < |init| ensures IsSubstring(init[k], t) { assert init[k] == pieces[k]; }
      }
      KeptAllIn(init, t);
      StripIsSubstring(last);
      SubstringTransitive(Strip(last), last, t);
    }
  }

  /** The sentences of `answer` as the enforcement passes see them. */
  function Fragments(answer: string): (r: seq<string>)
    ensures forall k :: 0 <= k < |r| ==> r[k] != [] && IsStripped(r[k])
  {
    Kept(SplitSentences(Strip(answer)))
  }

  /** Every fragment is a piece of the answer it came from. */
  lemma FragmentsAreSubstrings(answer: string)
    ensures AllIn(Fragments(answer), answer)
  {
    var t := Strip(answer);
    SplitPiecesAreSubstrings(t);
    StripIsSubstring(answer);
    var pieces := SplitSentences(t);
    forall k | 0 <= k < |pieces| ensures IsSubstring(pieces[k], answer) {
      SubstringTransitive(pieces[k], t, answer);
    }
    KeptAllIn(pieces, answer);
  }

  lemma StripIsSubstring(s: string)
    ensures IsSubstring(Strip(s), s)
  {
    var r := Strip(s);
    var a := StripSlice(s);
    SubstringAt(r, s, a);
  }

  /** On pieces that are already stripped and non-empty, the per-piece strip
      and the skip of empty pieces change nothing. */
  lemma {:induction false} KeptOfStrippedPieces(pieces: seq<string>)
    requires forall k :: 0 <= k < |pieces| ==> pieces[k] != [] && IsStripped(pieces[k])
    ensures Kept(pieces) == pieces
  {
    if pieces != [] {
      var init, last := pieces[..|pieces| - 1], pieces[|pieces| - 1];
      assert forall k :: 0 <= k < |init| ==> init[k] != [] && IsStripped(init[k]) by {
        forall k | 0 <= k < |init| ensures init[k] != [] && IsStripped(init[k]) {
          assert init[k] == pieces[k];
        }
      }
      KeptOfStrippedPieces(init);
      StripKeepsStripped(last);
      calc {
        Kept(pieces);
        Kept(init) + [Strip(last)];
        init + [last];
        pieces;
      }
    }
  }

  /** So the fragments of a text with some non-whitespace are exactly the
      pieces of the split of its stripped form, and only a text that strips
      to nothing has no fragment. */
  lemma FragmentsAreSplit(answer: string)
    ensures Strip(answer) != [] ==> Fragments(answer) == SplitSentences(Strip(answer))
    ensures Strip(answer) == [] <==> Fragments(answer) == []
  {
    var t := Strip(answer);
    if t != [] {
      SplitOfStripped(t);
      KeptOfStrippedPieces(SplitSentences(t));
    } else {
      assert SplitSentences(t) == [[]];
      assert Strip([]) == [];
    }
  }

  /** The empty answer has no sentence. */
  lemma FragmentsOfEmpty()
    ensures Fragments("") == []
  {
    FragmentsAreSplit("");
    assert Strip("") == [];
  }
}
