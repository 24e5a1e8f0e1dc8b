/**
 * The PHP string built-ins the blog engine relies on, over strings as
 * sequences of characters: trim(), implode(), strpos(), explode() and
 * str_replace(), plus PHP's truthiness of a string.
 */
module Text {
  import opened Wrappers

  /** PHP's truthiness of a string: "" and "0" are falsy, everything else is truthy. */
  predicate Truthy(s: string)
  {
    s != "" && s != "0"
  }

  /** The characters trim() strips when no character list is given: " \t\n\r\0\x0B". */
  const PhpWhitespace: set<char> := {' ', '\t', '\n', '\r', 0 as char, 11 as char}

  /** The first index at or after i whose character is not in `cs`; |s| when there is none. */
  function LeadEnd(s: string, cs: set<char>, i: nat): (k: nat)
    requires i <= |s|
    ensures i <= k <= |s|
    ensures forall j :: i <= j < k ==> s[j] in cs
    ensures k < |s| ==> s[k] !in cs
    decreases |s| - i
  {
    if i < |s| && s[i] in cs then LeadEnd(s, cs, i + 1) else i
  }

  /** The last index up to j such that every character from it to j is in `cs` and the one before it is not. */
  function TrailStart(s: string, cs: set<char>, j: nat): (k: nat)
    requires j <= |s|
    ensures k <= j
    ensures forall i :: k <= i < j ==> s[i] in cs
    ensures k > 0 ==> s[k - 1] !in cs
  {
    if j > 0 && s[j - 1] in cs then TrailStart(s, cs, j - 1) else j
  }

  /** PHP ltrim($s, $chars): drops the characters of `cs` from the front. */
  function TrimLeft(s: string, cs: set<char>): string
  {
    s[LeadEnd(s, cs, 0)..]
  }

  /** PHP rtrim($s, $chars): drops the characters of `cs` from the back. */
  function TrimRight(s: string, cs: set<char>): string
  {
    s[..TrailStart(s, cs, |s|)]
  }

  /** PHP trim($s, $chars): strips the characters of `cs` from both ends. */
  function TrimChars(s: string, cs: set<char>): string
  {
    TrimRight(TrimLeft(s, cs), cs)
  }

  /** PHP trim($s) with its default character list. */
  function Trim(s: string): string
  {
    TrimChars(s, PhpWhitespace)
  }

  /** trim() is a slice of its input that starts and ends with a kept character, and it drops only characters of `cs`. */
  lemma TrimSlice(s: string, cs: set<char>)
    ensures exists a, b :: 0 <= a <= b <= |s| && TrimChars(s, cs) == s[a..b]
              && (forall i :: 0 <= i < a ==> s[i] in cs) && (forall i :: b <= i < |s| ==> s[i] in cs)
    ensures |TrimChars(s, cs)| > 0 ==> TrimChars(s, cs)[0] !in cs && TrimChars(s, cs)[|TrimChars(s, cs)| - 1] !in cs
  {
    var a := LeadEnd(s, cs, 0);
    var t := s[a..];
    var e := TrailStart(t, cs, |t|);
    assert TrimChars(s, cs) == s[a..a + e];
    forall i | a + e <= i < |s| ensures s[i] in cs {
      assert s[i] == t[i - a];
    }
    if e > 0 {
      assert t[0] == s[a];
    }
  }

  /** Trimming twice is trimming once. */
  lemma TrimIdempotent(s: string, cs: set<char>)
    ensures TrimChars(TrimChars(s, cs), cs) == TrimChars(s, cs)
  {
    TrimSlice(s, cs);
    var r := TrimChars(s, cs);
    if |r| > 0 {
      TrimKeepsFirst(r, cs);
      assert LeadEnd(r, cs, 0) == 0;
      assert r[0..] == r;
      assert TrailStart(r, cs, |r|) == |r|;
    }
  }

  /** trim() keeps a first character it does not strip. */
  lemma TrimKeepsFirst(s: string, cs: set<char>)
    requires |s| > 0 && s[0] !in cs
    ensures |TrimChars(s, cs)| > 0 && TrimChars(s, cs)[0] == s[0]
  {
    assert LeadEnd(s, cs, 0) == 0;
    assert s[0..] == s;
  }

  /** A string none of whose characters is stripped comes back from trim() unchanged. */
  lemma TrimNoStripChars(s: string, cs: set<char>)
    requires forall i :: 0 <= i < |s| ==> s[i] !in cs
    ensures TrimChars(s, cs) == s
  {
    if |s| > 0 {
      assert s[0] !in cs && s[|s| - 1] !in cs;
      assert LeadEnd(s, cs, 0) == 0;
      assert s[0..] == s;
      assert TrailStart(s, cs, |s|) == |s|;
    }
  }

  /** Whether `pat` occurs in `s` at index `i`. */
  predicate OccursAt(s: string, pat: string, i: nat)
  {
    i + |pat| <= |s| && s[i..i + |pat|] == pat
  }

  /** Whether `pat` occurs anywhere in `s`. */
  predicate Contains(s: string, pat: string)
  {
    exists i: nat | i <= |s| :: OccursAt(s, pat, i)
  }

  /** The first index at or after `i` where `pat` occurs. */
  function StrPosFrom(s: string, pat: string, i: nat): (r: Option<nat>)
    requires i <= |s|
    ensures r.Some? ==> i <= r.value && OccursAt(s, pat, r.value)
    ensures r.Some? ==> forall j: nat :: i <= j < r.value ==> !OccursAt(s, pat, j)
    ensures r.None? ==> forall j: nat :: i <= j ==> !OccursAt(s, pat, j)
    decreases |s| - i
  {
    if OccursAt(s, pat, i) then Some(i)
    else if i + |pat| >= |s| then None
    else StrPosFrom(s, pat, i + 1)
  }

  /** PHP strpos($s, $pat): the index of the first occurrence, or false (None). */
  function StrPos(s: string, pat: string): (r: Option<nat>)
    ensures r.Some? ==> OccursAt(s, pat, r.value) && forall j: nat :: j < r.value ==> !OccursAt(s, pat, j)
    ensures r.None? <==> !Contains(s, pat)
  {
    StrPosFrom(s, pat, 0)
  }

  /** A pattern holding a character that `s` never contains does not occur in `s`. */
  lemma NotContainsChar(s: string, pat: string, k: nat)
    requires k < |pat|
    requires forall i :: 0 <= i < |s| ==> s[i] != pat[k]
    ensures !Contains(s, pat)
  {
    forall i: nat | i <= |s| ensures !OccursAt(s, pat, i) {
      if i + |pat| <= |s| {
        assert s[i..i + |pat|][k] == s[i + k];
      }
    }
  }

  /** PHP implode($sep, $xs). */
  function Join(xs: seq<string>, sep: string): string
  {
    if |xs| == 0 then ""
    else if |xs| == 1 then xs[0]
    else xs[0] + sep + Join(xs[1..], sep)
  }

  /**
   * PHP explode($pat, $s): the pieces between the occurrences of `pat`,
   * taken left to right without overlap.
   */
  function Explode(s: string, pat: string): (r: seq<string>)
    requires |pat| > 0
    ensures |r| >= 1 && r[0] <= s
    decreases |s|
  {
    if |s| < |pat| then [s]
    else if s[..|pat|] == pat then [""] + Explode(s[|pat|..], pat)
    else
      var t := Explode(s[1..], pat);
      [[s[0]] + t[0]] + t[1..]
  }

  /** PHP str_replace($pat, $rep, $s): every occurrence, left to right without overlap, becomes `rep`. */
  function ReplaceAll(s: string, pat: string, rep: string): string
    decreases |s|
  {
    if |pat| == 0 || |s| < |pat| then s
    else if s[..|pat|] == pat then rep + ReplaceAll(s[|pat|..], pat, rep)
    else [s[0]] + ReplaceAll(s[1..], pat, rep)
  }

  /** Prepending a character to the first piece prepends it to the joined string. */
  lemma JoinConsFirst(c: char, t: seq<string>, sep: string)
    requires |t| >= 1
    ensures Join([[c] + t[0]] + t[1..], sep) == [c] + Join(t, sep)
  {
    var u := [[c] + t[0]] + t[1..];
    if |t| > 1 {
      assert u[1..] == t[1..];
    }
  }

  /** Prepending an empty piece prepends the separator. */
  lemma JoinConsEmpty(t: seq<string>, sep: string)
    requires |t| >= 1
    ensures Join([""] + t, sep) == sep + Join(t, sep)
  {
    assert ([""] + t)[1..] == t;
  }

  /** Exploding and imploding with the same separator gives back the string. */
  lemma {:induction false} ExplodeJoin(s: string, pat: string)
    requires |pat| > 0
    ensures Join(Explode(s, pat), pat) == s
    decreases |s|
  {
    if |s| < |pat| {
    } else if s[..|pat|] == pat {
      ExplodeJoin(s[|pat|..], pat);
      JoinConsEmpty(Explode(s[|pat|..], pat), pat);
      assert s == pat + s[|pat|..];
    } else {
      var t := Explode(s[1..], pat);
      ExplodeJoin(s[1..], pat);
      JoinConsFirst(s[0], t, pat);
      assert s == [s[0]] + s[1..];
    }
  }

  /** str_replace is explode followed by implode with the replacement. */
  lemma {:induction false} ReplaceAllIsExplodeJoin(s: string, pat: string, rep: string)
    requires |pat| > 0
    ensures ReplaceAll(s, pat, rep) == Join(Explode(s, pat), rep)
    decreases |s|
  {
    if |s| < |pat| {
    } else if s[..|pat|] == pat {
      ReplaceAllIsExplodeJoin(s[|pat|..], pat, rep);
      JoinConsEmpty(Explode(s[|pat|..], pat), rep);
    } else {
      ReplaceAllIsExplodeJoin(s[1..], pat, rep);
      JoinConsFirst(s[0], Explode(s[1..], pat), rep);
    }
  }

  /** No piece of explode() still contains the separator. */
  lemma {:induction false} ExplodePiecesFree(s: string, pat: string)
    requires |pat| > 0
    ensures forall k :: 0 <= k < |Explode(s, pat)| ==> !Contains(Explode(s, pat)[k], pat)
    decreases |s|
  {
    var r := Explode(s, pat);
    if |s| < |pat| {
    } else if s[..|pat|] == pat {
      ExplodePiecesFree(s[|pat|..], pat);
      forall k | 0 <= k < |r| ensures !Contains(r[k], pat) {
        if k > 0 {
          assert r[k] == Explode(s[|pat|..], pat)[k - 1];
        }
      }
    } else {
      var t := Explode(s[1..], pat);
      ExplodePiecesFree(s[1..], pat);
      assert !Contains(t[0], pat);
      var p := [s[0]] + t[0];
      assert p <= s;
      forall i: nat | i <= |p| ensures !OccursAt(p, pat, i) {
        if i + |pat| <= |p| {
          if i == 0 {
            assert p[..|pat|] == s[..|pat|];
          } else {
            assert p[i..i + |pat|] == t[0][i - 1..i - 1 + |pat|];
            assert !OccursAt(t[0], pat, i - 1);
          }
        }
      }
      assert r[0] == p;
      forall k | 0 <= k < |r| ensures !Contains(r[k], pat) {
        if k > 0 {
          assert r[k] == t[k];
        }
      }
    }
  }

  /** An occurrence at j >= 1 is an occurrence at j - 1 of the string without its first character. */
  lemma OccursShift(s: string, pat: string, j: nat)
    requires 1 <= j && |s| >= 1
    ensures OccursAt(s, pat, j) <==> OccursAt(s[1..], pat, j - 1)
  {
    if j + |pat| <= |s| {
      var a, b := s[j..j + |pat|], s[1..][j - 1..j - 1 + |pat|];
      forall k | 0 <= k < |pat| ensures a[k] == b[k] {
        assert a[k] == s[j + k];
      }
      assert a == b;
    }
  }

  /**
   * The pieces `r` split `s` at the leftmost occurrences of `pat`: one piece
   * when there is no occurrence, and otherwise an occurrence ends the first
   * piece, none starts inside it, and what follows it is exploded in turn.
   */
  ghost predicate LeftmostSplit(s: string, pat: string, r: seq<string>)
    requires |pat| > 0 && |r| >= 1
  {
    if |r| == 1 then r[0] == s && forall j: nat :: !OccursAt(s, pat, j)
    else
      OccursAt(s, pat, |r[0]|)
      && (forall j: nat :: j < |r[0]| ==> !OccursAt(s, pat, j))
      && r[1..] == Explode(s[|r[0]| + |pat|..], pat)
  }

  /**
   * explode() splits at the leftmost occurrences. Together with the recursion
   * on what follows, this fixes the pieces even for a needle that overlaps
   * itself.
   */
  lemma {:induction false} ExplodeLeftmost(s: string, pat: string)
    requires |pat| > 0
    ensures LeftmostSplit(s, pat, Explode(s, pat))
    decreases |s|
  {
    if |s| < |pat| {
    } else if s[..|pat|] == pat {
      var r := Explode(s, pat);
      assert OccursAt(s, pat, 0);
      assert r[1..] == Explode(s[|pat|..], pat);
    } else {
      ExplodeLeftmost(s[1..], pat);
      var t := Explode(s[1..], pat);
      assert Explode(s, pat) == [[s[0]] + t[0]] + t[1..];
      if |t| == 1 {
        ExplodeMissOne(s, pat, t);
      } else {
        ExplodeMissMore(s, pat, t);
      }
    }
  }

  /** No occurrence at 0 and none after it: the single piece [s[1..]] grows into [s]. */
  lemma ExplodeMissOne(s: string, pat: string, t: seq<string>)
    requires |pat| > 0 && |s| >= 1 && !OccursAt(s, pat, 0)
    requires |t| == 1 && LeftmostSplit(s[1..], pat, t)
    ensures LeftmostSplit(s, pat, [[s[0]] + t[0]] + t[1..])
  {
    NoOccurrenceShift(s, pat);
    assert [s[0]] + s[1..] == s;
  }

  /** No occurrence at 0 and a first one in the rest: that one, one further on, ends the longer first piece. */
  lemma ExplodeMissMore(s: string, pat: string, t: seq<string>)
    requires |pat| > 0 && |s| >= 1 && !OccursAt(s, pat, 0)
    requires |t| > 1 && LeftmostSplit(s[1..], pat, t)
    ensures LeftmostSplit(s, pat, [[s[0]] + t[0]] + t[1..])
  {
    var r := [[s[0]] + t[0]] + t[1..];
    FirstOccurrenceShift(s, pat, |t[0]|);
    assert |r[0]| == |t[0]| + 1;
    assert r[1..] == t[1..];
  }

  /** Without an occurrence at 0 or in the rest, there is none at all. */
  lemma NoOccurrenceShift(s: string, pat: string)
    requires |s| >= 1 && !OccursAt(s, pat, 0)
    requires forall j: nat :: !OccursAt(s[1..], pat, j)
    ensures forall j: nat :: !OccursAt(s, pat, j)
  {
    forall j: nat ensures !OccursAt(s, pat, j) {
      if j >= 1 {
        OccursShift(s, pat, j);
      }
    }
  }

  /** Without an occurrence at 0, the first occurrence in the rest, one further on, is the first in the string. */
  lemma FirstOccurrenceShift(s: string, pat: string, v: nat)
    requires |s| >= 1 && !OccursAt(s, pat, 0)
    requires OccursAt(s[1..], pat, v) && forall j: nat :: j < v ==> !OccursAt(s[1..], pat, j)
    ensures OccursAt(s, pat, v + 1) && forall j: nat :: j < v + 1 ==> !OccursAt(s, pat, j)
    ensures s[1..][v + |pat|..] == s[v + 1 + |pat|..]
  {
    OccursShift(s, pat, v + 1);
    forall j: nat | j < v + 1 ensures !OccursAt(s, pat, j) {
      if j >= 1 {
        OccursShift(s, pat, j);
      }
    }
  }

  /** So strpos finds the needle exactly where the first piece of explode ends, and nowhere when there is one piece. */
  lemma ExplodeAtStrPos(s: string, pat: string)
    requires |pat| > 0
    ensures |Explode(s, pat)| == 1 <==> StrPos(s, pat).None?
    ensures |Explode(s, pat)| > 1 ==> StrPos(s, pat) == Some(|Explode(s, pat)[0]|)
  {
    ExplodeLeftmost(s, pat);
    var r := Explode(s, pat);
    if |r| > 1 {
      assert OccursAt(s, pat, |r[0]|);
    }
  }


  /** A string without an occurrence of `pat` goes through str_replace unchanged. */
  lemma {:induction false} ReplaceAllAbsent(s: string, pat: string, rep: string)
    requires !Contains(s, pat)
    ensures ReplaceAll(s, pat, rep) == s
    decreases |s|
  {
    if |pat| == 0 {
    } else if |s| < |pat| {
    } else {
      assert !OccursAt(s, pat, 0);
      forall i: nat | i <= |s[1..]| ensures !OccursAt(s[1..], pat, i) {
        if i + |pat| <= |s[1..]| {
          assert s[1..][i..i + |pat|] == s[i + 1..i + 1 + |pat|];
          assert !OccursAt(s, pat, i + 1);
        }
      }
      ReplaceAllAbsent(s[1..], pat, rep);
    }
  }
}
