/**
 * The display helpers of lib/helpers.php: preg_fetch, the age ladder of
 * published() and the English tag list of tags().
 */
module Helpers {
  import opened Wrappers
  import opened Text
  import opened Patterns

  /** preg_fetch($regex, $text): capture group 1 of the leftmost match, or null. */
  function PregFetch(p: Pattern, s: string): Option<string>
  {
    match PregMatch(p, s)
    case Some(g) => Some(s[g.start..g.end])
    case None => None
  }

  /** preg_fetch gives null exactly when the pattern matches nowhere, and otherwise the group of the leftmost match. */
  lemma PregFetchLeftmost(p: Pattern, s: string)
    ensures PregFetch(p, s).None? <==> forall j :: 0 <= j <= |s| ==> MatchAt(p, s, j).None?
    ensures PregFetch(p, s).Some? ==>
      exists i :: 0 <= i <= |s| && MatchAt(p, s, i).Some? && (forall j :: 0 <= j < i ==> MatchAt(p, s, j).None?)
        && PregFetch(p, s).value == s[MatchAt(p, s, i).value.start..MatchAt(p, s, i).value.end]
  {
    PregMatchLeftmost(p, s);
  }

  // ---------------------------------------------------------------------
  // published($ts), with the age in seconds as its input

  const Day := 60 * 60 * 24

  /** The day thresholds of the ladder, in increasing order. */
  const Thresholds: seq<nat> := [1, 7, 14, 21, 45, 70, 100, 200, 400, 800]

  /** "today", one label per threshold, and "years ago" beyond the last. */
  const Labels: seq<string> := ["today", "yesterday", "this week", "a week ago", "this month",
    "a month ago", "2 months ago", "3 months ago", "half a year ago", "a year ago",
    "2 years ago", "years ago"]

  /** How long ago, in words, something happened `ago` seconds before today. */
  function Published(ago: int): (words: string)
    ensures words == "today" <==> ago <= 0
    ensures words == "years ago" <==> ago > 800 * Day
    ensures words in Labels
  {
    if ago <= 0 then "today"
    else if ago <= Day * 1 then "yesterday"
    else if ago <= Day * 7 then "this week"
    else if ago <= Day * 14 then "a week ago"
    else if ago <= Day * 21 then "this month"
    else if ago <= Day * 45 then "a month ago"
    else if ago <= Day * 70 then "2 months ago"
    else if ago <= Day * 100 then "3 months ago"
    else if ago <= Day * 200 then "half a year ago"
    else if ago <= Day * 400 then "a year ago"
    else if ago <= Day * 800 then "2 years ago"
    else "years ago"
  }

  /** The first threshold, from index k on, that `ago` does not exceed; |Thresholds| when it exceeds them all. */
  function FirstThreshold(ago: int, k: nat): (r: nat)
    requires k <= |Thresholds|
    ensures k <= r <= |Thresholds|
    ensures r < |Thresholds| ==> ago <= Thresholds[r] * Day
    ensures forall j :: k <= j < r ==> ago > Thresholds[j] * Day
    decreases |Thresholds| - k
  {
    if k == |Thresholds| || ago <= Thresholds[k] * Day then k else FirstThreshold(ago, k + 1)
  }

  /** The rung of the ladder: 0 for today, then one per threshold, then "years ago". */
  function Rung(ago: int): (b: nat)
    ensures b < |Labels|
  {
    if ago <= 0 then 0 else 1 + FirstThreshold(ago, 0)
  }

  /** published() picks the label of the first threshold that the age does not exceed. */
  lemma PublishedByLadder(ago: int)
    ensures Published(ago) == Labels[Rung(ago)]
  {
    if ago > 0 {
      var r := FirstThreshold(ago, 0);
      assert r < |Thresholds| ==> ago <= Thresholds[r] * Day;
      assert r > 0 ==> ago > Thresholds[r - 1] * Day;
      if r < 5 {
        LadderLow(ago, r);
      } else {
        LadderHigh(ago, r);
      }
    }
  }

  /** The rungs up to "a month ago". */
  lemma LadderLow(ago: int, r: nat)
    requires 0 < ago && r < 5
    requires ago <= Thresholds[r] * Day && (r > 0 ==> ago > Thresholds[r - 1] * Day)
    ensures Published(ago) == Labels[r + 1]
  {
    if r == 0 {
      assert Thresholds[0] == 1 && Labels[1] == "yesterday";
    } else if r == 1 {
      assert Thresholds[0] == 1 && Thresholds[1] == 7 && Labels[2] == "this week";
    } else if r == 2 {
      assert Thresholds[1] == 7 && Thresholds[2] == 14 && Labels[3] == "a week ago";
    } else if r == 3 {
      assert Thresholds[2] == 14 && Thresholds[3] == 21 && Labels[4] == "this month";
    } else {
      assert Thresholds[3] == 21 && Thresholds[4] == 45 && Labels[5] == "a month ago";
    }
  }

  /** The rungs from "2 months ago" on. */
  lemma LadderHigh(ago: int, r: nat)
    requires 5 <= r <= |Thresholds|
    requires (r < |Thresholds| ==> ago <= Thresholds[r] * Day) && ago > Thresholds[r - 1] * Day
    ensures Published(ago) == Labels[r + 1]
  {
    if r == 5 {
      assert Thresholds[4] == 45 && Thresholds[5] == 70 && Labels[6] == "2 months ago";
    } else if r == 6 {
      assert Thresholds[5] == 70 && Thresholds[6] == 100 && Labels[7] == "3 months ago";
    } else if r == 7 {
      assert Thresholds[6] == 100 && Thresholds[7] == 200 && Labels[8] == "half a year ago";
    } else if r == 8 {
      assert Thresholds[7] == 200 && Thresholds[8] == 400 && Labels[9] == "a year ago";
    } else if r == 9 {
      assert Thresholds[8] == 400 && Thresholds[9] == 800 && Labels[10] == "2 years ago";
    } else {
      assert Thresholds[9] == 800 && Labels[11] == "years ago";
    }
  }

  /** An older date never gets a label from an earlier rung of the ladder. */
  lemma PublishedMonotone(a: int, b: int)
    requires a <= b
    ensures Rung(a) <= Rung(b)
    ensures Published(a) == Labels[Rung(a)] && Published(b) == Labels[Rung(b)]
  {
    PublishedByLadder(a);
    PublishedByLadder(b);
  }

  // ---------------------------------------------------------------------
  // tags($tags, $linked)

  /** The link a tag becomes when `linked` is set. */
  function LinkTag(v: string): string
  {
    "<a href=\"/" + v + "\">" + v + "</a>"
  }

  /** Every tag replaced by its link, in place. */
  function Linked(xs: seq<string>): (r: seq<string>)
    ensures |r| == |xs| && forall k :: 0 <= k < |xs| ==> r[k] == LinkTag(xs[k])
  {
    seq(|xs|, k requires 0 <= k < |xs| => LinkTag(xs[k]))
  }

  const About := " about <b>#"
  const ListComma := "</b>, <b>#"
  const ListAnd := " and <b>#"
  const Unbold := "</b>"

  /** What goes in front of tag i of n: `head` for the first, `fin` for the last, `mid` otherwise. */
  function Lead(i: nat, n: nat, head: string, mid: string, fin: string): string
  {
    if i == 0 then head else if i + 1 == n then fin else mid
  }

  /** The tags from i on, each behind its lead. */
  function Items(xs: seq<string>, i: nat, head: string, mid: string, fin: string): string
    decreases |xs| - i
  {
    if i >= |xs| then "" else Lead(i, |xs|, head, mid, fin) + xs[i] + Items(xs, i + 1, head, mid, fin)
  }

  /** The English list " about #a, #b and #c", each tag in bold, in order, each once. */
  function EnglishList(xs: seq<string>): string
  {
    Items(xs, 0, About, ListComma, Unbold + ListAnd) + Unbold
  }

  /** With one tag the list is just that tag. */
  lemma EnglishListSingle(t: string)
    ensures EnglishList([t]) == About + t + Unbold
  {
    assert Items([t], 1, About, ListComma, Unbold + ListAnd) == "";
  }

  // The three regroupings below are the string concatenation steps of the
  // implode proofs. Kept as lemmas of their own, they are proved once, on
  // their own, instead of inside the larger list proofs that use them.

  /** Gluing the head onto the first tag and its items, in either grouping. */
  lemma ConcatAssoc3(a: string, b: string, c: string)
    ensures a + b + c == a + (b + c)
  {
  }

  /** One more tag in JoinThenLast: tag, glue, imploded tail, closing glue and last tag, regrouped. */
  lemma ConcatRegroup5(a: string, b: string, c: string, d: string, e: string)
    ensures a + b + c + d + e == a + (b + (c + d + e))
  {
  }

  /** The English-list output of tags(), flattened from both of the groupings that build it. */
  lemma ConcatRegroup6(a: string, b: string, c: string, d: string, e: string, f: string)
    ensures a + (b + (c + d) + e) + f == a + b + c + d + e + f
    ensures a + b + c + (d + e + f) == a + b + c + d + e + f
  {
  }

  /** The tags from i on, imploded up to the last and then joined to it by `fin`, are tag i followed by the items after it. */
  lemma {:induction false} JoinThenLast(xs: seq<string>, i: nat, head: string, mid: string, fin: string)
    requires i + 1 < |xs|
    ensures Join(xs[i..|xs| - 1], mid) + fin + xs[|xs| - 1] == xs[i] + Items(xs, i + 1, head, mid, fin)
    decreases |xs| - i
  {
    var n := |xs|;
    var last := xs[n - 1];
    if i + 2 == n {
      assert xs[i..n - 1] == [xs[i]];
      assert Items(xs, n, head, mid, fin) == "";
      assert Items(xs, i + 1, head, mid, fin) == fin + last + "";
    } else {
      var a := xs[i..n - 1];
      assert a[1..] == xs[i + 1..n - 1];
      var tail := Join(xs[i + 1..n - 1], mid);
      assert Join(a, mid) == xs[i] + mid + tail;
      JoinThenLast(xs, i + 1, head, mid, fin);
      var rest := Items(xs, i + 2, head, mid, fin);
      assert Items(xs, i + 1, head, mid, fin) == mid + xs[i + 1] + rest;
      ConcatRegroup5(xs[i], mid, tail, fin, last);
      assert mid + xs[i + 1] + rest == mid + (xs[i + 1] + rest);
    }
  }

  /** With more than one tag, the items are `head`, the tags but the last imploded by `mid`, then `fin` and the last. */
  lemma ItemsByImplode(xs: seq<string>, head: string, mid: string, fin: string)
    requires |xs| > 1
    ensures Items(xs, 0, head, mid, fin) == head + (Join(xs[..|xs| - 1], mid) + fin + xs[|xs| - 1])
  {
    var n := |xs|;
    JoinThenLast(xs, 0, head, mid, fin);
    assert xs[0..n - 1] == xs[..n - 1];
    var rest := Items(xs, 1, head, mid, fin);
    assert Lead(0, n, head, mid, fin) == head;
    assert Items(xs, 0, head, mid, fin) == head + xs[0] + rest;
    ConcatAssoc3(head, xs[0], rest);
  }

  /**
   * Imploding all tags but the last with "</b>, <b>#" and appending the
   * popped last one behind " and " gives the English list.
   */
  lemma EnglishListByImplode(xs: seq<string>)
    requires |xs| > 1
    ensures EnglishList(xs) == About + Join(xs[..|xs| - 1], ListComma) + Unbold + ListAnd + xs[|xs| - 1] + Unbold
  {
    ItemsByImplode(xs, About, ListComma, Unbold + ListAnd);
    ConcatRegroup6(About, Join(xs[..|xs| - 1], ListComma), Unbold, ListAnd, xs[|xs| - 1], Unbold);
  }

  /**
   * tags($tags, $linked): null for a falsy string, otherwise the English list
   * of the tags split at ',' and ';' (as links when `linked` is set).
   */
  method Tags(tags: string, linked: bool) returns (r: Option<string>)
    ensures !Truthy(tags) ==> r.None?
    ensures Truthy(tags) ==> r == Some(EnglishList(if linked then Linked(SplitTags(tags)) else SplitTags(tags)))
  {
    if !Truthy(tags) {
      return None;
    }
    var list := SplitTags(tags);
    ghost var split := list;
    SplitTagsShape(tags);
    if linked {
      var k := 0;
      while k < |list|
        invariant 0 <= k <= |list| == |split|
        invariant forall j :: 0 <= j < k ==> list[j] == LinkTag(split[j])
        invariant forall j :: k <= j < |list| ==> list[j] == split[j]
      {
        list := list[k := LinkTag(list[k])];
        k := k + 1;
      }
    }
    ghost var full := list;
    assert full == if linked then Linked(split) else split;
    var last: Option<string> := None;
    if |list| > 1 {
      last := Some(list[|list| - 1]);
      list := list[..|list| - 1];
    }
    r := Some(About + Join(list, ListComma) + Unbold + (if last.Some? then ListAnd + last.value + Unbold else ""));
    if |full| > 1 {
      EnglishListByImplode(full);
      assert list == full[..|full| - 1] && last == Some(full[|full| - 1]);
      ConcatRegroup6(About, Join(list, ListComma), Unbold, ListAnd, full[|full| - 1], Unbold);
    } else {
      EnglishListSingle(full[0]);
      assert list == [full[0]] && last.None?;
      assert Join(list, ListComma) == full[0];
      assert About + full[0] + Unbold + "" == About + full[0] + Unbold;
    }
  }

  /** Linking keeps the number of tags and rewrites each one in place. */
  lemma LinkedKeepsCount(s: string)
    ensures |Linked(SplitTags(s))| == CountSeps(s) + 1
    ensures forall k :: 0 <= k < |SplitTags(s)| ==> Linked(SplitTags(s))[k] == LinkTag(SplitTags(s)[k])
  {
    SplitTagsShape(s);
  }
}
