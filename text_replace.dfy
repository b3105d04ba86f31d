/**
 * Rust's `str::replace(from, to)`: every non-overlapping occurrence of `from`,
 * found left to right, is replaced by `to`. An empty `from` matches at every
 * character boundary, so `"ab".replace("", "-")` is `"-a-b-"`.
 *
 * `Split` and `Join` give an equivalent formulation: split the text on the
 * pattern, then join the pieces with the replacement. The lemmas below prove
 * that it agrees with `ReplaceAll`, and `ReplaceAllAtFirstMatch` states the
 * leftmost-first choice of matches on its own.
 */
module TextReplace {

  /** A match of `pat` starts at index `i` of `s`. */
  predicate IsMatchAt(s: string, pat: string, i: nat)
  {
    i + |pat| <= |s| && s[i..i + |pat|] == pat
  }

  /** `pat` occurs somewhere in `s`. */
  predicate Occurs(pat: string, s: string)
  {
    exists i: nat | i <= |s| :: IsMatchAt(s, pat, i)
  }

  /** The text `str::replace` builds: each leftmost match is replaced, then the scan resumes after it. */
  function ReplaceAll(s: string, pat: string, rep: string): (r: string)
    ensures pat != [] && |rep| <= |pat| ==> |r| <= |s|
    ensures pat != [] && |rep| >= |pat| ==> |r| >= |s|
    decreases |s|
  {
    if pat == [] then rep + EachChar(s, rep)
    else if |s| < |pat| then s
    else if s[..|pat|] == pat then rep + ReplaceAll(s[|pat|..], pat, rep)
    else [s[0]] + ReplaceAll(s[1..], pat, rep)
  }

  /** Every character of `s`, each followed by `rep` (the empty pattern's matches after the first). */
  function EachChar(s: string, rep: string): string
  {
    if s == [] then [] else [s[0]] + rep + EachChar(s[1..], rep)
  }

  /** The pieces `str::split(pat)` yields; the first piece is a prefix of `s`. */
  function Split(s: string, pat: string): (pieces: seq<string>)
    ensures |pieces| >= 1
    ensures pieces[0] <= s
    decreases |s|
  {
    if pat == [] then [[]] + CharPieces(s)
    else if |s| < |pat| then [s]
    else if s[..|pat|] == pat then [[]] + Split(s[|pat|..], pat)
    else
      var rest := Split(s[1..], pat);
      [[s[0]] + rest[0]] + rest[1..]
  }

  /** The empty pattern's pieces after the leading empty one: one per character, then an empty one. */
  function CharPieces(s: string): (pieces: seq<string>)
    ensures |pieces| == |s| + 1
  {
    if s == [] then [[]] else [[s[0]]] + CharPieces(s[1..])
  }

  /** The pieces concatenated with `sep` between consecutive ones. */
  function Join(pieces: seq<string>, sep: string): string
  {
    if |pieces| == 0 then []
    else if |pieces| == 1 then pieces[0]
    else pieces[0] + sep + Join(pieces[1..], sep)
  }

  lemma {:induction false} EachCharIsJoin(s: string, rep: string)
    ensures EachChar(s, rep) == Join(CharPieces(s), rep)
  {
    if s != [] {
      EachCharIsJoin(s[1..], rep);
      assert CharPieces(s)[1..] == CharPieces(s[1..]);
    }
  }

  /** `replace` is `split` followed by `join` with the replacement, for every pattern. */
  lemma {:induction false} ReplaceAllIsJoinOfSplit(s: string, pat: string, rep: string)
    ensures ReplaceAll(s, pat, rep) == Join(Split(s, pat), rep)
    decreases |s|
  {
    if pat == [] {
      EachCharIsJoin(s, rep);
      JoinAfterEmpty(CharPieces(s), rep);
    } else if |s| < |pat| {
    } else if s[..|pat|] == pat {
      ReplaceAllIsJoinOfSplit(s[|pat|..], pat, rep);
      JoinAfterEmpty(Split(s[|pat|..], pat), rep);
    } else {
      ReplaceAllIsJoinOfSplit(s[1..], pat, rep);
      JoinExtendFirst(s[0], Split(s[1..], pat), rep);
    }
  }

  lemma JoinAfterEmpty(pieces: seq<string>, sep: string)
    requires |pieces| >= 1
    ensures Join([[]] + pieces, sep) == sep + Join(pieces, sep)
  {
    assert ([[]] + pieces)[1..] == pieces;
  }

  lemma JoinExtendFirst(c: char, pieces: seq<string>, sep: string)
    requires |pieces| >= 1
    ensures Join([[c] + pieces[0]] + pieces[1..], sep) == [c] + Join(pieces, sep)
  {
    var extended := [[c] + pieces[0]] + pieces[1..];
    if |pieces| > 1 {
      assert extended[1..] == pieces[1..];
    }
  }

  /** Replacing a pattern by itself changes nothing, including the empty pattern. */
  lemma {:induction false} ReplaceAllBySelf(s: string, pat: string)
    ensures ReplaceAll(s, pat, pat) == s
    decreases |s|
  {
    if pat == [] {
      EachCharBySelf(s);
    } else if |s| < |pat| {
    } else if s[..|pat|] == pat {
      ReplaceAllBySelf(s[|pat|..], pat);
      assert s == s[..|pat|] + s[|pat|..];
    } else {
      ReplaceAllBySelf(s[1..], pat);
      assert s == [s[0]] + s[1..];
    }
  }

  lemma {:induction false} EachCharBySelf(s: string)
    ensures EachChar(s, []) == s
  {
    if s != [] {
      EachCharBySelf(s[1..]);
      assert s == [s[0]] + s[1..];
    }
  }

  /** Round trip: joining the pieces with the pattern itself gives back the original text. */
  lemma JoinSplit(s: string, pat: string)
    ensures Join(Split(s, pat), pat) == s
  {
    ReplaceAllIsJoinOfSplit(s, pat, pat);
    ReplaceAllBySelf(s, pat);
  }

  /**
   * No piece between the replaced matches contains the pattern: `replace` leaves no
   * occurrence of the original text unreplaced.
   */
  lemma {:induction false} SplitPiecesAvoidPattern(s: string, pat: string)
    requires pat != []
    ensures forall k :: 0 <= k < |Split(s, pat)| ==> !Occurs(pat, Split(s, pat)[k])
    decreases |s|
  {
    var pieces := Split(s, pat);
    if |s| < |pat| {
      assert pieces == [s];
      forall i: nat ensures !IsMatchAt(s, pat, i) { }
    } else if s[..|pat|] == pat {
      SplitPiecesAvoidPattern(s[|pat|..], pat);
      var rest := Split(s[|pat|..], pat);
      assert pieces == [[]] + rest;
      forall i: nat ensures !IsMatchAt([], pat, i) { }
      forall k | 0 <= k < |pieces| ensures !Occurs(pat, pieces[k]) {
        if k > 0 { assert pieces[k] == rest[k - 1]; }
      }
    } else {
      SplitPiecesAvoidPattern(s[1..], pat);
      var rest := Split(s[1..], pat);
      var head := [s[0]] + rest[0];
      assert pieces == [head] + rest[1..];
      assert !Occurs(pat, rest[0]);
      forall i: nat ensures !IsMatchAt(head, pat, i) {
        if i == 0 {
          assert head <= s;
        } else if i + |pat| <= |head| {
          assert head[i..i + |pat|] == rest[0][i - 1..i - 1 + |pat|];
          assert !IsMatchAt(rest[0], pat, i - 1);
        }
      }
      forall k | 0 <= k < |pieces| ensures !Occurs(pat, pieces[k]) {
        if k > 0 { assert pieces[k] == rest[k]; }
      }
    }
  }

  /** When the pattern does not occur, the text comes back unchanged. */
  lemma {:induction false} ReplaceAllAbsent(s: string, pat: string, rep: string)
    requires pat != [] && !Occurs(pat, s)
    ensures ReplaceAll(s, pat, rep) == s
    decreases |s|
  {
    if |s| < |pat| {
    } else if s[..|pat|] == pat {
      assert IsMatchAt(s, pat, 0);
    } else {
      forall i: nat ensures !IsMatchAt(s[1..], pat, i) {
        if IsMatchAt(s[1..], pat, i) {
          assert s[1..][i..i + |pat|] == s[i + 1..i + 1 + |pat|];
          assert IsMatchAt(s, pat, i + 1);
        }
      }
      ReplaceAllAbsent(s[1..], pat, rep);
      assert s == [s[0]] + s[1..];
    }
  }

  /** A text whose first character cannot start a match keeps that character. */
  lemma SkipUnmatched(s: string, pat: string, rep: string)
    requires s != [] && pat != [] && s[0] != pat[0]
    ensures ReplaceAll(s, pat, rep) == [s[0]] + ReplaceAll(s[1..], pat, rep)
  {
    if |s| >= |pat| {
      assert s[..|pat|][0] != pat[0];
    }
  }

  /** Leading text none of whose characters can start a match is kept as it is. */
  lemma {:induction false} KeepsLeadingText(lead: string, s: string, pat: string, rep: string)
    requires pat != [] && forall i :: 0 <= i < |lead| ==> lead[i] != pat[0]
    ensures ReplaceAll(lead + s, pat, rep) == lead + ReplaceAll(s, pat, rep)
  {
    if lead == [] {
      assert lead + s == s;
    } else {
      var text := lead + s;
      assert text[0] == lead[0] && text[1..] == lead[1..] + s;
      SkipUnmatched(text, pat, rep);
      KeepsLeadingText(lead[1..], s, pat, rep);
      PrependHead(lead, ReplaceAll(s, pat, rep), ReplaceAll(lead[1..] + s, pat, rep), ReplaceAll(text, pat, rep));
    }
  }

  /** Putting the first character of `lead` back in front of the rest of it. */
  lemma PrependHead(lead: string, after: string, restResult: string, result: string)
    requires lead != []
    requires restResult == lead[1..] + after
    requires result == [lead[0]] + restResult
    ensures result == lead + after
  {
    assert [lead[0]] + lead[1..] == lead;
  }

  /**
   * One step of the replace loop: the text before the leftmost match is copied,
   * the match becomes `rep`, and the scan resumes right after the match.
   */
  lemma ReplaceAllAtFirstMatch(s: string, pat: string, rep: string, i: nat)
    requires pat != [] && IsMatchAt(s, pat, i)
    requires forall j: nat {:trigger IsMatchAt(s, pat, j)} :: j < i ==> !IsMatchAt(s, pat, j)
    ensures ReplaceAll(s, pat, rep) == s[..i] + rep + ReplaceAll(s[i + |pat|..], pat, rep)
  {
    var k := 0;
    assert s[..0] + s[0..] == s;
    while k < i
      invariant k <= i
      invariant ReplaceAll(s, pat, rep) == s[..k] + ReplaceAll(s[k..], pat, rep)
    {
      CopyUnmatched(s, pat, rep, k);
      k := k + 1;
    }
    ReplaceAtMatch(s, pat, rep, i);
  }

  /** Once the scan has copied the text before a match, the match is replaced. */
  lemma ReplaceAtMatch(s: string, pat: string, rep: string, i: nat)
    requires pat != [] && IsMatchAt(s, pat, i)
    requires ReplaceAll(s, pat, rep) == s[..i] + ReplaceAll(s[i..], pat, rep)
    ensures ReplaceAll(s, pat, rep) == s[..i] + rep + ReplaceAll(s[i + |pat|..], pat, rep)
  {
    MatchAtStart(s[i..], pat, rep);
    assert s[i..][|pat|..] == s[i + |pat|..];
  }

  /** Past a position that does not start a match, the scan copies one more character. */
  lemma CopyUnmatched(s: string, pat: string, rep: string, k: nat)
    requires pat != [] && k + |pat| < |s| + 1 && !IsMatchAt(s, pat, k)
    requires ReplaceAll(s, pat, rep) == s[..k] + ReplaceAll(s[k..], pat, rep)
    ensures ReplaceAll(s, pat, rep) == s[..k + 1] + ReplaceAll(s[k + 1..], pat, rep)
  {
    var u := s[k..];
    assert u[..|pat|] == s[k..k + |pat|];
    UnmatchedHead(u, pat, rep);
    assert u[1..] == s[k + 1..];
    Regroup(s, k, ReplaceAll(s[k + 1..], pat, rep), ReplaceAll(u, pat, rep), ReplaceAll(s, pat, rep));
  }

  /** A text whose start is not a match keeps its first character and replaces in the rest. */
  lemma UnmatchedHead(s: string, pat: string, rep: string)
    requires pat != [] && |pat| <= |s| && s[..|pat|] != pat
    ensures ReplaceAll(s, pat, rep) == [s[0]] + ReplaceAll(s[1..], pat, rep)
  {
  }

  /** A text that starts with a match has it replaced, and the scan resumes after it. */
  lemma MatchAtStart(s: string, pat: string, rep: string)
    requires pat != [] && IsMatchAt(s, pat, 0)
    ensures ReplaceAll(s, pat, rep) == rep + ReplaceAll(s[|pat|..], pat, rep)
  {
    assert s[..|pat|] == s[0..0 + |pat|];
  }

  /** Appending the next character to the copied prefix. */
  lemma Regroup(s: string, k: nat, after: string, restResult: string, result: string)
    requires k < |s|
    requires restResult == [s[k]] + after
    requires result == s[..k] + restResult
    ensures result == s[..k + 1] + after
  {
    assert s[..k + 1] == s[..k] + [s[k]];
  }

  /** The empty pattern matches at the start and after every character: `rep` comes first, then each character followed by `rep`. */
  lemma EmptyPatternSteps(c: char, s: string, rep: string)
    ensures ReplaceAll([], [], rep) == rep
    ensures ReplaceAll([c] + s, [], rep) == rep + [c] + ReplaceAll(s, [], rep)
  {
    assert ([c] + s)[1..] == s;
  }

  /** Each replaced match changes the length by `|rep| - |pat|`; the matches are `|Split| - 1`. */
  lemma ReplaceAllLength(s: string, pat: string, rep: string)
    ensures |ReplaceAll(s, pat, rep)| == |s| + (|Split(s, pat)| - 1) * (|rep| - |pat|)
  {
    var pieces := Split(s, pat);
    var gaps := |pieces| - 1;
    ReplaceAllIsJoinOfSplit(s, pat, rep);
    JoinSplit(s, pat);
    JoinLength(pieces, rep);
    JoinLength(pieces, pat);
    assert gaps * (|rep| - |pat|) == gaps * |rep| - gaps * |pat|;
  }

  /**
   * The empty pattern matches before every character and at the end, so
   * `rep` is inserted `|s| + 1` times.
   */
  lemma EmptyPatternLength(s: string, rep: string)
    ensures |ReplaceAll(s, [], rep)| == |s| + (|s| + 1) * |rep|
  {
    ReplaceAllLength(s, [], rep);
    assert |Split(s, [])| == |s| + 2;
  }

  /** The length of a join: the pieces plus one separator between each consecutive pair. */
  lemma {:induction false} JoinLength(pieces: seq<string>, sep: string)
    requires |pieces| >= 1
    ensures |Join(pieces, sep)| == TotalLength(pieces) + (|pieces| - 1) * |sep|
  {
    if |pieces| > 1 {
      JoinLength(pieces[1..], sep);
      assert TotalLength(pieces) == |pieces[0]| + TotalLength(pieces[1..]);
    }
  }

  function TotalLength(pieces: seq<string>): nat
  {
    if pieces == [] then 0 else |pieces[0]| + TotalLength(pieces[1..])
  }
}
