/**
  Citation tokens `[C<digits>]`: a hand-written recogniser for the pattern
  `\[C(\d+)\]`, `re.findall` and `re.search` with it, and what it means for a
  text to cite an identifier.
 */
module Citations {
  import opened Wrappers
  import opened Text

  /** A citation identifier: the non-empty digit string between `[C` and `]`. */
  predicate IsId(d: string) {
    |d| > 0 && AllDigits(d)
  }

  /** The token that cites `d`. */
  function Token(d: string): string {
    "[C" + d + "]"
  }

  /** `s` cites `d`: the token `[C<d>]` occurs somewhere in `s`. */
  predicate Cites(s: string, d: string) {
    IsId(d) && IsSubstring(Token(d), s)
  }

  /** End of the run of digits that starts at `i`. */
  function DigitsEnd(s: string, i: nat): (j: nat)
    requires i <= |s|
    ensures i <= j <= |s|
    ensures forall k :: i <= k < j ==> IsDigit(s[k])
    ensures j < |s| ==> !IsDigit(s[j])
    decreases |s| - i
  {
    if i < |s| && IsDigit(s[i]) then DigitsEnd(s, i + 1) else i
  }

  /** The pattern `\[C(\d+)\]` matches at index `i`. Because `]` is not a
      digit, the greedy `\d+` can only end where the digit run ends. */
  predicate TokenAt(s: string, i: nat) {
    i + 2 < |s| && s[i] == '[' && s[i + 1] == 'C' && IsDigit(s[i + 2]) &&
    DigitsEnd(s, i + 2) < |s| && s[DigitsEnd(s, i + 2)] == ']'
  }

  /** The captured group of the match at `i`. */
  function IdAt(s: string, i: nat): string
    requires TokenAt(s, i)
  {
    s[i + 2..DigitsEnd(s, i + 2)]
  }

  /** A match at `i` is an occurrence of the token of its captured group. */
  lemma TokenAtCites(s: string, i: nat)
    requires TokenAt(s, i)
    ensures IsId(IdAt(s, i)) && OccursAt(Token(IdAt(s, i)), s, i)
    ensures Cites(s, IdAt(s, i))
  {
    var e := DigitsEnd(s, i + 2);
    assert s[i..e + 1] == s[i..i + 2] + s[i + 2..e] + [s[e]];
    assert s[i..e + 1] == Token(IdAt(s, i));
    SubstringAt(Token(IdAt(s, i)), s, i);
  }

  /** Conversely, every occurrence of a token is a match of the pattern. */
  lemma OccurrenceIsMatch(s: string, d: string, i: nat)
    requires IsId(d) && OccursAt(Token(d), s, i)
    ensures TokenAt(s, i) && IdAt(s, i) == d
  {
    var t := Token(d);
    forall k | 0 <= k < |t| ensures s[i + k] == t[k] {
      CharOfOccurrence(t, s, i, i + k);
    }
    assert s[i] == '[' && s[i + 1] == 'C' && s[i + 2] == d[0];
    forall k | 0 <= k < |d| ensures s[i + 2 + k] == d[k] {
      assert t[2 + k] == d[k];
    }
    DigitsEndAt(s, i + 2, i + 2 + |d|);
    assert s[i + 2 + |d|] == t[2 + |d|] == ']';
    assert s[i + 2..i + 2 + |d|] == d;
  }

  lemma {:induction false} DigitsEndAt(s: string, i: nat, j: nat)
    requires i <= j < |s| && !IsDigit(s[j])
    requires forall k :: i <= k < j ==> IsDigit(s[k])
    ensures DigitsEnd(s, i) == j
    decreases j - i
  {
    if i < j {
      DigitsEndAt(s, i + 1, j);
    }
  }

  /** No match starts strictly inside another match. */
  lemma NoMatchInside(s: string, i: nat, k: nat)
    requires TokenAt(s, i) && i < k <= DigitsEnd(s, i + 2)
    ensures !TokenAt(s, k)
  {
    if k == i + 1 {
      assert s[k] == 'C';
    } else if k < DigitsEnd(s, i + 2) {
      assert IsDigit(s[k]);
    } else {
      assert s[k] == ']';
    }
  }

  /** The search resumes after the closing bracket and misses no match:
      none starts inside the match at `i`. */
  lemma NoMatchBeforeNext(s: string, i: nat)
    requires TokenAt(s, i)
    ensures DigitsEnd(s, i + 2) + 1 <= |s|
    ensures forall k :: i < k < DigitsEnd(s, i + 2) + 1 ==> !TokenAt(s, k)
  {
    forall k | i < k < DigitsEnd(s, i + 2) + 1 ensures !TokenAt(s, k) {
      NoMatchInside(s, i, k);
    }
  }

  /** `re.findall(r'\[C(\d+)\]', s)` restricted to matches at or after `i`:
      the captured identifiers, left to right, resuming after each match. */
  function FindIdsFrom(s: string, i: nat): (r: seq<string>)
    requires i <= |s|
    decreases |s| - i
  {
    if i == |s| then []
    else if TokenAt(s, i) then [IdAt(s, i)] + FindIdsFrom(s, DigitsEnd(s, i + 2) + 1)
    else FindIdsFrom(s, i + 1)
  }

  /** Every identifier found is cited by the text. */
  lemma {:induction false} FindIdsFromSound(s: string, i: nat)
    requires i <= |s|
    ensures forall k :: 0 <= k < |FindIdsFrom(s, i)| ==> Cites(s, FindIdsFrom(s, i)[k])
    decreases |s| - i
  {
    if i < |s| {
      if TokenAt(s, i) {
        TokenAtCites(s, i);
        FindIdsFromSound(s, DigitsEnd(s, i + 2) + 1);
      } else {
        FindIdsFromSound(s, i + 1);
      }
    }
  }

  /** No match at or after `i` is missed, and nothing is found exactly when
      there is no match at or after `i`. */
  lemma {:induction false} FindIdsFromComplete(s: string, i: nat)
    requires i <= |s|
    ensures forall k :: i <= k && TokenAt(s, k) ==> IdAt(s, k) in FindIdsFrom(s, i)
    ensures FindIdsFrom(s, i) == [] <==> forall k :: i <= k ==> !TokenAt(s, k)
    decreases |s| - i
  {
    if i < |s| {
      if TokenAt(s, i) {
        var j := DigitsEnd(s, i + 2) + 1;
        NoMatchBeforeNext(s, i);
        FindIdsFromComplete(s, j);
      } else {
        FindIdsFromComplete(s, i + 1);
      }
    }
  }

  /** The first identifier found from `i` on is that of the leftmost match
      at or after `i`. */
  lemma {:induction false} FindIdsFromLeftmost(s: string, i: nat) returns (k: nat)
    requires i <= |s| && FindIdsFrom(s, i) != []
    ensures i <= k && TokenAt(s, k) && FindIdsFrom(s, i)[0] == IdAt(s, k)
    ensures forall m :: i <= m < k ==> !TokenAt(s, m)
    decreases |s| - i
  {
    if TokenAt(s, i) {
      k := i;
    } else {
      k := FindIdsFromLeftmost(s, i + 1);
    }
  }

  /** `re.findall(r'\[C(\d+)\]', s)`: exactly the identifiers `s` cites. */
  function FindIds(s: string): (r: seq<string>)
    ensures forall d :: d in r <==> Cites(s, d)
  {
    var r := FindIdsFrom(s, 0);
    FindIdsFromSound(s, 0);
    FindIdsFromComplete(s, 0);
    assert forall d :: Cites(s, d) ==> d in r by {
      forall d | Cites(s, d) ensures d in r {
        var i :| 0 <= i <= |s| - |Token(d)| && OccursAt(Token(d), s, i);
        OccurrenceIsMatch(s, d, i);
      }
    }
    r
  }

  /** `re.search(r'\[C(\d+)\]', s)` succeeds. */
  predicate HasCitation(s: string) {
    FindIds(s) != []
  }

  /** The identifier of the leftmost match: `re.findall(...)[0]`, or None when
      there is no match. */
  function FirstId(s: string): (r: Option<string>)
    ensures r.Some? ==> Cites(s, r.value)
    ensures r.None? <==> !HasCitation(s)
  {
    var ids := FindIds(s);
    if ids == [] then None else Some(ids[0])
  }

  /** The first identifier is that of the leftmost match of the pattern. */
  lemma FirstIdIsLeftmost(s: string) returns (i: nat)
    requires HasCitation(s)
    ensures TokenAt(s, i) && FirstId(s) == Some(IdAt(s, i))
    ensures forall m :: 0 <= m < i ==> !TokenAt(s, m)
  {
    i := FindIdsFromLeftmost(s, 0);
  }

  /** A text that cites some identifier has a match of the pattern. */
  lemma CitesHasCitation(s: string, d: string)
    requires Cites(s, d)
    ensures HasCitation(s)
  {
  }

  /** The leftmost match decides the first identifier: a text that opens with a
      token has that token's identifier first. */
  lemma FirstIdAtStart(s: string)
    requires TokenAt(s, 0)
    ensures FirstId(s) == Some(IdAt(s, 0))
  {
    assert FindIds(s) == FindIdsFrom(s, 0);
    assert FindIdsFrom(s, 0)[0] == IdAt(s, 0);
  }

  /** A token is one character run with no whitespace inside. */
  lemma TokenHasNoSpace(d: string, c: char)
    requires IsId(d) && IsSpace(c)
    ensures forall k :: 0 <= k < |Token(d)| ==> Token(d)[k] != c
  {
    forall k | 0 <= k < |Token(d)| ensures Token(d)[k] != c {
      if 2 <= k < 2 + |d| { assert Token(d)[k] == d[k - 2]; }
    }
  }

  /** In `Token(e) + tail`, with no `[` in `tail`, the only `[` is the first character. */
  lemma OnlyOneOpening(e: string, tail: string, i: nat)
    requires IsId(e)
    requires forall k :: 0 <= k < |tail| ==> tail[k] != '['
    requires 0 < i < |Token(e) + tail|
    ensures (Token(e) + tail)[i] != '['
  {
    var s := Token(e) + tail;
    if i == 1 {
      assert s[1] == 'C';
    } else if i < 2 + |e| {
      assert s[i] == e[i - 2];
    } else if i == 2 + |e| {
      assert s[i] == ']';
    } else {
      assert s[i] == tail[i - 3 - |e|];
    }
  }

  /** A token found inside `Token(e) + tail`, where `tail` holds no `[`,
      is the token of `e` itself. */
  lemma {:induction false} TokenInToken(d: string, e: string, tail: string)
    requires IsId(d) && IsId(e)
    requires forall k :: 0 <= k < |tail| ==> tail[k] != '['
    requires IsSubstring(Token(d), Token(e) + tail)
    ensures d == e
  {
    var s := Token(e) + tail;
    var i :| 0 <= i <= |s| - |Token(d)| && OccursAt(Token(d), s, i);
    OccurrenceIsMatch(s, d, i);
    if i != 0 {
      OnlyOneOpening(e, tail, i);
      assert false;
    }
    assert TokenAt(s, 0);
    OccurrenceIsMatch(s, e, 0);
  }
}
