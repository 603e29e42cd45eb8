/** Replacing every occurrence of a pattern in a string, from the left and without overlaps. */
module ReplaceInPlace {
  predicate OccursAt(s: string, pat: string, i: int) {
    0 <= i && i + |pat| <= |s| && s[i..i + |pat|] == pat
  }

  ghost predicate Occurs(s: string, pat: string) {
    exists i :: OccursAt(s, pat, i)
  }

  /** The first occurrence at or after an index, or -1. */
  function Find(s: string, pat: string, from: nat): (r: int)
    ensures r == -1 ==> forall i | i >= from :: !OccursAt(s, pat, i)
    ensures r != -1 ==> r >= from && OccursAt(s, pat, r) && forall i | from <= i < r :: !OccursAt(s, pat, i)
    decreases |s| - from
  {
    if from + |pat| > |s| then -1 else if OccursAt(s, pat, from) then from else Find(s, pat, from + 1)
  }

  /** The pieces of the string between the occurrences. */
  function Pieces(s: string, pat: string): (ps: seq<string>)
    requires pat != ""
    ensures ps != []
    decreases |s|
  {
    var i := Find(s, pat, 0);
    if i == -1 then [s] else [s[..i]] + Pieces(s[i + |pat|..], pat)
  }

  function Join(ps: seq<string>, sep: string): string
    requires ps != []
  {
    if |ps| == 1 then ps[0] else ps[0] + sep + Join(ps[1..], sep)
  }

  lemma OccursInPrefix(s: string, pat: string, n: nat, j: int)
    requires n <= |s| && OccursAt(s[..n], pat, j)
    ensures OccursAt(s, pat, j)
  {
    assert s[j..j + |pat|] == s[..n][j..j + |pat|];
  }

  lemma FirstPiece(s: string, pat: string)
    requires pat != "" && Find(s, pat, 0) != -1
    ensures var i := Find(s, pat, 0);
            && s == s[..i] + pat + s[i + |pat|..] && !Occurs(s[..i], pat)
            && forall j | j < i :: !OccursAt(s[..i] + pat, pat, j)
  {
    var i := Find(s, pat, 0);
    assert s[..i] + pat == s[..i + |pat|];
    forall j | j < i ensures !OccursAt(s[..i] + pat, pat, j) {
      if OccursAt(s[..i + |pat|], pat, j) { OccursInPrefix(s, pat, i + |pat|, j); }
    }
    forall j ensures !OccursAt(s[..i], pat, j) {
      if OccursAt(s[..i], pat, j) { OccursInPrefix(s, pat, i, j); }
    }
  }

  /** The pattern following a piece starts no earlier than at its end, and no piece contains it. */
  ghost predicate Separated(ps: seq<string>, pat: string) {
    && (forall k | 0 <= k < |ps| :: !Occurs(ps[k], pat))
    && forall k, i | 0 <= k < |ps| - 1 && i < |ps[k]| :: !OccursAt(ps[k] + pat, pat, i)
  }

  lemma SeparatedMore(p: string, ps: seq<string>, pat: string)
    requires Separated(ps, pat) && !Occurs(p, pat) && forall i | i < |p| :: !OccursAt(p + pat, pat, i)
    ensures Separated([p] + ps, pat)
  {
  }

  /** The pieces make up the string, are several just when the pattern occurs, and end where it first occurs. */
  lemma {:induction false} PiecesOfString(s: string, pat: string)
    requires pat != ""
    ensures var ps := Pieces(s, pat);
            Join(ps, pat) == s && (|ps| > 1 <==> Occurs(s, pat)) && Separated(ps, pat)
    decreases |s|
  {
    var i := Find(s, pat, 0);
    if i != -1 {
      var rest := s[i + |pat|..];
      PiecesOfString(rest, pat);
      FirstPiece(s, pat);
      SeparatedMore(s[..i], Pieces(rest, pat), pat);
      assert Pieces(s, pat)[1..] == Pieces(rest, pat);
    }
  }

  lemma {:induction false} FindInRest(done: string, rest: string, pat: string, j: nat)
    requires j <= |rest|
    ensures Find(done + rest, pat, |done| + j) == if Find(rest, pat, j) == -1 then -1 else |done| + Find(rest, pat, j)
    decreases |rest| - j
  {
    if j + |pat| <= |rest| {
      OccursShifted(done, rest, pat, j);
      if !OccursAt(rest, pat, j) {
        if j < |rest| {
          FindInRest(done, rest, pat, j + 1);
        }
      }
    }
  }

  lemma OccursShifted(done: string, rest: string, pat: string, i: nat)
    ensures OccursAt(rest, pat, i) == OccursAt(done + rest, pat, |done| + i)
  {
    if i + |pat| <= |rest| { assert rest[i..i + |pat|] == (done + rest)[|done| + i..|done| + i + |pat|]; }
  }

  /** What is done and what is not, and where in both together the next occurrence is. */
  ghost predicate Midway(s: string, pat: string, with: string, done: string, rest: string, i: int)
    requires pat != ""
  {
    && |rest| <= |s| && (|rest| == |s| ==> rest == s)
    && done + Join(Pieces(rest, pat), with) == Join(Pieces(s, pat), with)
    && i == if Find(rest, pat, 0) == -1 then -1 else |done| + Find(rest, pat, 0)
  }

  // ---------- The loop ----------

  /** One turn of the loop on the string and the index of the occurrence to be replaced. */
  function Turn(pat: string, with: string, str: string, i: nat): (string, int)
    requires i + |pat| <= |str|
  {
    var str' := str[..i] + with + str[i + |pat|..];
    (str', if i < |str'| - |with| then Find(str', pat, i + |with|) else -1)
  }

  /** The string and the index after n turns, or fewer if the loop ends before. */
  function Turns(s: string, pat: string, with: string, n: nat): (r: (string, int))
    ensures r.1 == -1 || (0 <= r.1 && r.1 + |pat| <= |r.0|)
  {
    if n == 0 then (s, Find(s, pat, 0))
    else
      var (str, i) := Turns(s, pat, with, n - 1);
      if i == -1 then (str, i) else Turn(pat, with, str, i)
  }

  lemma TurnsStart(s: string, pat: string, with: string)
    ensures Turns(s, pat, with, 0) == (s, Find(s, pat, 0))
  {
  }

  lemma TurnsGoOn(s: string, pat: string, with: string, n: nat, str: string, i: int)
    requires Turns(s, pat, with, n) == (str, i) && i != -1
    ensures 0 <= i && i + |pat| <= |str| && Turns(s, pat, with, n + 1) == Turn(pat, with, str, i)
  {
  }

  /** The state of the loop; the empty pattern is replaced once, in the empty string. */
  ghost predicate InLoop(s: string, pat: string, with: string, replaced: bool, str: string, i: int,
                         done: string, rest: string)
    requires pat != "" || s == ""
  {
    if pat == "" then if replaced then str == with && i == -1 else str == s && i == 0
    else
      && str == done + rest && Midway(s, pat, with, done, rest, i)
      && (replaced <==> |rest| < |s|) && (replaced ==> Occurs(s, pat))
  }

  lemma LoopStarts(s: string, pat: string, with: string)
    requires pat != "" || s == ""
    ensures InLoop(s, pat, with, false, s, Find(s, pat, 0), "", s)
  {
    assert "" + s == s && (pat != "" ==> "" + Join(Pieces(s, pat), with) == Join(Pieces(s, pat), with));
  }

  lemma LoopGoesOn(s: string, pat: string, with: string, replaced: bool, str: string, i: int,
                   done: string, rest: string) returns (done': string, rest': string)
    requires (pat != "" || s == "") && InLoop(s, pat, with, replaced, str, i, done, rest)
    requires 0 <= i && i + |pat| <= |str|
    ensures var (str', i') := Turn(pat, with, str, i);
            InLoop(s, pat, with, true, str', i', done', rest') && (i' == -1 || |rest'| < |rest|)
  {
    if pat == "" {
      done', rest' := done, rest;
    } else {
      done', rest' := Step(s, pat, with, done, rest, i);
    }
  }

  lemma LoopEnds(s: string, pat: string, with: string, replaced: bool, str: string, done: string, rest: string)
    requires (pat != "" || s == "") && InLoop(s, pat, with, replaced, str, -1, done, rest)
    ensures str == (if pat == "" then with else Join(Pieces(s, pat), with)) && (replaced <==> Occurs(s, pat))
  {
    if pat == "" { assert OccursAt(s, pat, 0); }
  }

  /**
   * The result is the pieces joined by the replacement, even when that contains the pattern. The only
   * string in which an empty pattern can be replaced is the empty one.
   */
  method Replace(s: string, pat: string, with: string) returns (replaced: bool, str: string)
    requires pat != "" || s == ""
    ensures str == if pat == "" then with else Join(Pieces(s, pat), with)
    ensures replaced <==> Occurs(s, pat)
    ensures exists n :: Turns(s, pat, with, n) == (str, -1)
  {
    hide InLoop, Turns, Join, Pieces, Occurs;
    str := s;
    replaced := false;
    var i := Find(str, pat, 0);
    ghost var done, rest, n := "", s, 0;
    TurnsStart(s, pat, with);
    LoopStarts(s, pat, with);
    while i != -1
      invariant Turns(s, pat, with, n) == (str, i)
      invariant InLoop(s, pat, with, replaced, str, i, done, rest)
      decreases if i == -1 then 0 else 1 + |rest|
    {
      TurnsGoOn(s, pat, with, n, str, i);
      done, rest := LoopGoesOn(s, pat, with, replaced, str, i, done, rest);
      n := n + 1;
      replaced := true;
      str := str[..i] + with + str[i + |pat|..];
      if i < |str| - |with| {
        i := Find(str, pat, i + |with|);
      } else {
        i := -1;
      }
    }
    LoopEnds(s, pat, with, replaced, str, done, rest);
  }

  /** In a string that is not empty, the loop never ends for an empty pattern. */
  lemma {:induction false} EmptyPatternNeverEnds(s: string, with: string, n: nat)
    requires s != ""
    ensures var (str, i) := Turns(s, "", with, n); i == n * |with| && |str| == |s| + n * |with|
    decreases n
  {
    if n > 0 {
      EmptyPatternNeverEnds(s, with, n - 1);
      var (str, i) := Turns(s, "", with, n - 1);
      assert n * |with| == (n - 1) * |with| + |with|;
    }
  }

  function NextFrom(str: string, pat: string, n: nat): int {
    if n < |str| then Find(str, pat, n) else -1
  }

  /** Replacing one occurrence moves it, and what is before it, to what is done. */
  lemma Step(s: string, pat: string, with: string, done: string, rest: string, i: int)
    returns (done': string, rest': string)
    requires pat != "" && i != -1 && Midway(s, pat, with, done, rest, i)
    ensures |done| <= i && i + |pat| <= |done + rest| && |done'| == i + |with| && |rest'| < |rest|
    ensures (done + rest)[..i] + with + (done + rest)[i + |pat|..] == done' + rest'
    ensures Midway(s, pat, with, done', rest', NextFrom(done' + rest', pat, |done'|))
    ensures rest == s ==> Occurs(s, pat)
  {
    done', rest' := Moved(s, pat, with, done, rest, i);
    Splice(done, rest, i - |done|, |pat|, with);
  }

  lemma Moved(s: string, pat: string, with: string, done: string, rest: string, i: int)
    returns (done': string, rest': string)
    requires pat != "" && i != -1 && Midway(s, pat, with, done, rest, i)
    ensures |done| <= i && i - |done| + |pat| <= |rest| && |done'| == i + |with| && |rest'| < |rest|
    ensures done' == done + rest[..i - |done|] + with && rest' == rest[i - |done| + |pat|..]
    ensures Midway(s, pat, with, done', rest', NextFrom(done' + rest', pat, |done'|))
    ensures rest == s ==> Occurs(s, pat)
  {
    done', rest' := Advance(done, rest, pat, with);
    FindNext(done', rest', pat);
  }

  lemma FindNext(done: string, rest: string, pat: string)
    requires pat != ""
    ensures NextFrom(done + rest, pat, |done|) == if Find(rest, pat, 0) == -1 then -1 else |done| + Find(rest, pat, 0)
  {
    FindInRest(done, rest, pat, 0);
  }

  lemma Splice(done: string, rest: string, k: nat, n: nat, with: string)
    requires k + n <= |rest|
    ensures var str := done + rest;
            str[..|done| + k] + with + str[|done| + k + n..] == (done + rest[..k] + with) + rest[k + n..]
  {
    assert (done + rest)[..|done| + k] == done + rest[..k];
    assert (done + rest)[|done| + k + n..] == rest[k + n..];
  }

  lemma Advance(done: string, rest: string, pat: string, with: string) returns (done': string, rest': string)
    requires pat != "" && Find(rest, pat, 0) != -1
    ensures var k := Find(rest, pat, 0); done' == done + rest[..k] + with && rest' == rest[k + |pat|..]
    ensures done + Join(Pieces(rest, pat), with) == done' + Join(Pieces(rest', pat), with)
  {
    var k := Find(rest, pat, 0);
    done', rest' := done + rest[..k] + with, rest[k + |pat|..];
    assert Pieces(rest, pat)[1..] == Pieces(rest', pat);
  }
}
