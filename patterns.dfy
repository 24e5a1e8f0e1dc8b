/**
 * The handful of PCRE patterns the blog engine uses, each modelled on its
 * own rather than through a regular-expression engine. Default PCRE
 * settings apply: `.` matches any character but "\n", `^` and `$` anchor at
 * the subject's ends unless the `m` flag is given, and `$` also matches just
 * before a final "\n".
 */
module Patterns {
  import opened Wrappers
  import opened Text

  /** The index of the first "\n" at or after `i`, or |s| if there is none. */
  function LineEnd(s: string, i: nat): (e: nat)
    requires i <= |s|
    ensures i <= e <= |s|
    ensures e < |s| ==> s[e] == '\n'
    ensures forall k :: i <= k < e ==> s[k] != '\n'
    decreases |s| - i
  {
    if i == |s| || s[i] == '\n' then i else LineEnd(s, i + 1)
  }

  /** The patterns passed to preg_match by the engine, one per call site. */
  datatype Pattern =
    | Heading            // /^#(.+)/
    | BodyAfterBlank     // /\r?\n\r?\n(.+)$/misu
    | UrlLine            // /\* url: .+\.[^\.\/]+(\/.+)/
    | MetaLine(key: string)  // /\* <key>: (.+)/ for the other metadata keys

  /** The bounds of capture group 1 in the subject. */
  datatype Group = Group(start: nat, end: nat)

  /** `^#(.+)`: without the `m` flag `^` only matches at index 0; the group runs to the end of the first line. */
  function HeadingAt(s: string, i: nat): (r: Option<Group>)
    ensures r.Some? ==> i == 0 && |s| >= 2 && s[0] == '#' && r.value == Group(1, LineEnd(s, 1)) && r.value.start < r.value.end
  {
    if i == 0 && |s| >= 2 && s[0] == '#' && s[1] != '\n' then Some(Group(1, LineEnd(s, 1))) else None
  }

  /** The literal text before the group of `\* <key>: (.+)`. */
  function MetaPrefix(key: string): string
  {
    "* " + key + ": "
  }

  /** `\* <key>: (.+)` at i: the group is the rest of that line, and it is not empty. */
  function MetaAt(s: string, key: string, i: nat): (r: Option<Group>)
    ensures r.Some? ==> OccursAt(s, MetaPrefix(key), i)
    ensures r.Some? ==> r.value == Group(i + |MetaPrefix(key)|, LineEnd(s, i + |MetaPrefix(key)|))
    ensures r.Some? ==> r.value.start < r.value.end
  {
    var a := i + |MetaPrefix(key)|;
    if OccursAt(s, MetaPrefix(key), i) && a < |s| && s[a] != '\n' then Some(Group(a, LineEnd(s, a))) else None
  }

  const UrlPrefix := "* url: "

  function IsDotOrSlash(c: char): bool
  {
    c == '.' || c == '/'
  }

  /** The end of the run of characters other than '.' and '/' that starts at k (a `[^\.\/]+` taken greedily). */
  function RunEnd(s: string, k: nat): (e: nat)
    requires k <= |s|
    ensures k <= e <= |s|
    ensures e < |s| ==> IsDotOrSlash(s[e])
    ensures forall m :: k <= m < e ==> !IsDotOrSlash(s[m])
    decreases |s| - k
  {
    if k == |s| || IsDotOrSlash(s[k]) then k else RunEnd(s, k + 1)
  }

  /**
   * `\.[^\.\/]+(\/.+)` with the '.' at b: the run after the dot must be
   * followed by a '/', which starts the group, and one more character of the
   * same line. The run is maximal; a shorter one would be followed by a
   * character that is not '/', so backtracking adds no other match.
   */
  function UrlTail(s: string, b: nat): (r: Option<nat>)
    requires b < |s|
    ensures r.Some? ==> b + 1 < r.value && r.value + 1 < |s| && s[r.value] == '/' && s[r.value + 1] != '\n'
    ensures r.Some? ==> forall m :: b < m < r.value ==> !IsDotOrSlash(s[m])
  {
    var c := RunEnd(s, b + 1);
    if c > b + 1 && c + 1 < |s| && s[c] == '/' && s[c + 1] != '\n' then Some(c) else None
  }

  /** For each index, the url group's start when a '.' there has a matching tail. */
  function DotTails(s: string): (ts: seq<Option<nat>>)
    ensures |ts| == |s|
  {
    seq(|s|, b requires 0 <= b < |s| => if s[b] == '.' then UrlTail(s, b) else None)
  }

  /** The last index in [lo, hi) whose entry is present. */
  function LastSome(ts: seq<Option<nat>>, lo: nat, hi: nat): (r: Option<nat>)
    requires hi <= |ts|
    ensures r.Some? ==> lo <= r.value < hi && ts[r.value].Some?
    ensures r.Some? ==> forall c :: r.value < c < hi ==> ts[c].None?
    ensures r.None? ==> forall c :: lo <= c < hi ==> ts[c].None?
    decreases hi
  {
    if hi <= lo then None
    else if ts[hi - 1].Some? then Some(hi - 1)
    else LastSome(ts, lo, hi - 1)
  }

  /** The greedy `.+` before `\.`: the last '.' in [lo, hi) whose tail matches gives the group's start. */
  function UrlDot(s: string, lo: nat, hi: nat): (r: Option<nat>)
    requires hi <= |s|
    ensures r.Some? ==> lo + 1 < r.value && r.value + 1 < |s| && s[r.value] == '/' && s[r.value + 1] != '\n'
  {
    var ts := DotTails(s);
    match LastSome(ts, lo, hi)
    case Some(b) => ts[b]
    case None => None
  }

  /** UrlDot picks the last '.' in [lo, hi) whose tail matches, and none when no '.' there has a matching tail. */
  lemma UrlDotLast(s: string, lo: nat, hi: nat)
    requires hi <= |s|
    ensures UrlDot(s, lo, hi).Some? ==>
      exists b :: lo <= b < hi && s[b] == '.' && UrlTail(s, b) == UrlDot(s, lo, hi)
        && forall c :: b < c < hi && s[c] == '.' ==> UrlTail(s, c).None?
    ensures UrlDot(s, lo, hi).None? ==> forall b :: lo <= b < hi && s[b] == '.' ==> UrlTail(s, b).None?
  {
    var ts := DotTails(s);
    assert forall b :: 0 <= b < |s| ==> ts[b] == if s[b] == '.' then UrlTail(s, b) else None;
    match LastSome(ts, lo, hi) {
      case Some(b) =>
        assert s[b] == '.' && UrlTail(s, b) == UrlDot(s, lo, hi);
      case None =>
    }
  }

  /** `\* url: .+\.[^\.\/]+(\/.+)` at i: the group is a '/' and the rest of its line. */
  function UrlAt(s: string, i: nat): (r: Option<Group>)
    ensures r.Some? ==> OccursAt(s, UrlPrefix, i)
    ensures r.Some? ==> r.value.start + 2 <= r.value.end <= |s| && s[r.value.start] == '/'
    ensures r.Some? ==> r.value.end == LineEnd(s, r.value.start)
  {
    if OccursAt(s, UrlPrefix, i) then
      var a := i + |UrlPrefix|;
      match UrlDot(s, a + 1, LineEnd(s, a))
      case Some(c) => Some(Group(c, LineEnd(s, c)))
      case None => None
    else None
  }

  /**
   * `\r?\n\r?\n` at i: the index just after it. Each optional "\r" is
   * taken exactly when present, because the "\n" that follows could not
   * match a "\r"; so PCRE's backtracking leaves one candidate.
   */
  function BlankLineEnd(s: string, i: nat): (r: Option<nat>)
    ensures r.Some? ==> i + 2 <= r.value <= |s| && s[r.value - 1] == '\n'
  {
    var j := if i < |s| && s[i] == '\r' then i + 1 else i;
    if j < |s| && s[j] == '\n' then
      var k := if j + 1 < |s| && s[j + 1] == '\r' then j + 2 else j + 1;
      if k < |s| && s[k] == '\n' then Some(k + 1) else None
    else None
  }

  /** `\r?\n\r?\n(.+)$` with `s` and `m`: the group is everything after the blank line, at least one character. */
  function BodyAt(s: string, i: nat): (r: Option<Group>)
    ensures r.Some? ==> r.value.start < r.value.end == |s|
  {
    match BlankLineEnd(s, i)
    case Some(e) => if e < |s| then Some(Group(e, |s|)) else None
    case None => None
  }

  /** Whether pattern `p` matches `s` starting at index i, and where its group lies. */
  function MatchAt(p: Pattern, s: string, i: nat): (r: Option<Group>)
    ensures r.Some? ==> r.value.start <= r.value.end <= |s|
  {
    match p
    case Heading => HeadingAt(s, i)
    case BodyAfterBlank => BodyAt(s, i)
    case UrlLine => UrlAt(s, i)
    case MetaLine(key) => MetaAt(s, key, i)
  }

  /** The outcome of trying `p` at every start position of `s`, 0 through |s|. */
  function Matches(p: Pattern, s: string): (ms: seq<Option<Group>>)
    ensures |ms| == |s| + 1
  {
    seq(|s| + 1, j requires 0 <= j <= |s| => MatchAt(p, s, j))
  }

  /** The first position at or after i whose attempt succeeded. */
  function FirstSome(ms: seq<Option<Group>>, i: nat): (r: Option<nat>)
    requires i <= |ms|
    ensures r.Some? ==> i <= r.value < |ms| && ms[r.value].Some?
    decreases |ms| - i
  {
    if i == |ms| then None
    else if ms[i].Some? then Some(i)
    else FirstSome(ms, i + 1)
  }

  /** FirstSome skips only failed attempts, and gives none only when every attempt failed. */
  lemma {:induction false} FirstSomeFirst(ms: seq<Option<Group>>, i: nat)
    requires i <= |ms|
    ensures FirstSome(ms, i).Some? ==> forall j :: i <= j < FirstSome(ms, i).value ==> ms[j].None?
    ensures FirstSome(ms, i).None? ==> forall j :: i <= j < |ms| ==> ms[j].None?
    decreases |ms| - i
  {
    if i < |ms| && ms[i].None? {
      FirstSomeFirst(ms, i + 1);
    }
  }

  /** preg_match($p, $s, $m): the group of the leftmost match, or no match. */
  function PregMatch(p: Pattern, s: string): (r: Option<Group>)
    ensures r.Some? ==> r.value.start <= r.value.end <= |s|
  {
    var ms := Matches(p, s);
    match FirstSome(ms, 0)
    case Some(i) => ms[i]
    case None => None
  }

  /** preg_match reports the match at the leftmost position where the pattern matches, and no match exactly when it matches nowhere. */
  lemma PregMatchLeftmost(p: Pattern, s: string)
    ensures PregMatch(p, s).Some? ==> exists i :: 0 <= i <= |s| && MatchAt(p, s, i) == PregMatch(p, s) && forall j :: 0 <= j < i ==> MatchAt(p, s, j).None?
    ensures PregMatch(p, s).None? <==> forall j :: 0 <= j <= |s| ==> MatchAt(p, s, j).None?
  {
    var ms := Matches(p, s);
    FirstSomeFirst(ms, 0);
    assert forall j :: 0 <= j <= |s| ==> ms[j] == MatchAt(p, s, j);
    match FirstSome(ms, 0) {
      case Some(i) =>
        assert MatchAt(p, s, i) == PregMatch(p, s);
      case None =>
    }
  }

  /** `^#(.+)` matches exactly when the subject itself starts with '#' and a character of the same line. */
  lemma HeadingOnlyAtStart(s: string)
    ensures PregMatch(Heading, s).Some? <==> |s| >= 2 && s[0] == '#' && s[1] != '\n'
    ensures PregMatch(Heading, s).Some? ==> PregMatch(Heading, s).value == Group(1, LineEnd(s, 1))
  {
    PregMatchLeftmost(Heading, s);
    if |s| >= 2 && s[0] == '#' && s[1] != '\n' {
      assert MatchAt(Heading, s, 0).Some?;
    }
  }

  /** The url group starts at a '/' and holds at least one more character. */
  lemma UrlMatchShape(s: string)
    requires PregMatch(UrlLine, s).Some?
    ensures PregMatch(UrlLine, s).value.start + 2 <= PregMatch(UrlLine, s).value.end <= |s|
    ensures s[PregMatch(UrlLine, s).value.start] == '/'
  {
    var i := FirstSome(Matches(UrlLine, s), 0).value;
    assert PregMatch(UrlLine, s) == UrlAt(s, i);
  }

  /** A metadata key whose "* key: " line is missing gives no match. */
  lemma MetaMissing(s: string, key: string)
    requires !Contains(s, MetaPrefix(key))
    ensures PregMatch(MetaLine(key), s).None?
  {
    PregMatchLeftmost(MetaLine(key), s);
    forall j | 0 <= j <= |s| ensures MatchAt(MetaLine(key), s, j).None? {
      assert !OccursAt(s, MetaPrefix(key), j);
    }
  }

  /** The four spellings of a blank line that `\r?\n\r?\n` accepts. */
  predicate IsBlankLine(sep: string)
  {
    sep == "\n\n" || sep == "\r\n\n" || sep == "\n\r\n" || sep == "\r\n\r\n"
  }

  /** A head holding no blank line has no "\n" followed by "\n" or by "\r\n" at t. */
  lemma NoBlankAt(head: string, t: nat)
    requires !Contains(head, "\n\n") && !Contains(head, "\n\r\n")
    ensures t + 1 < |head| ==> !(head[t] == '\n' && head[t + 1] == '\n')
    ensures t + 2 < |head| ==> !(head[t] == '\n' && head[t + 1] == '\r' && head[t + 2] == '\n')
  {
    assert !OccursAt(head, "\n\n", t);
    assert !OccursAt(head, "\n\r\n", t);
    if t + 1 < |head| {
      assert head[t..t + 2] == [head[t], head[t + 1]];
    }
    if t + 2 < |head| {
      assert head[t..t + 3] == [head[t], head[t + 1], head[t + 2]];
    }
  }

  /**
   * Inside such a head no attempt matches, except one that starts at a final
   * "\r" right before an LF-led separator: it ends where the separator does.
   */
  lemma EarlyBlank(head: string, sep: string, rest: string, j: nat)
    requires IsBlankLine(sep)
    requires !Contains(head, "\n\n") && !Contains(head, "\n\r\n")
    requires |head| == 0 || head[|head| - 1] != '\n'
    requires |head| < 2 || head[|head| - 2..] != "\n\r"
    requires j < |head|
    ensures BlankLineEnd(head + sep + rest, j) == None
      || (j + 1 == |head| && BlankLineEnd(head + sep + rest, j) == Some(|head| + |sep|))
  {
    NoBlankAt(head, j);
    NoBlankAt(head, j + 1);
    if |head| >= 2 {
      assert head[|head| - 2..] == [head[|head| - 2], head[|head| - 1]];
    }
  }

  /** At the separator itself the attempt matches, and the group is all that follows it. */
  lemma SeparatorMatches(head: string, sep: string, rest: string)
    requires IsBlankLine(sep)
    requires |rest| > 0
    ensures MatchAt(BodyAfterBlank, head + sep + rest, |head|) == Some(Group(|head| + |sep|, |head| + |sep| + |rest|))
  {
    assert BlankLineEnd(head + sep + rest, |head|) == Some(|head| + |sep|);
  }

  /**
   * After a head with no blank line in it, the body group is all that
   * follows the first blank line, in any of its LF and CRLF spellings.
   */
  lemma BodyAfterFirstBlank(head: string, sep: string, rest: string)
    requires IsBlankLine(sep)
    requires !Contains(head, "\n\n") && !Contains(head, "\n\r\n")
    requires |head| == 0 || head[|head| - 1] != '\n'
    requires |head| < 2 || head[|head| - 2..] != "\n\r"
    requires |rest| > 0
    ensures PregMatch(BodyAfterBlank, head + sep + rest) == Some(Group(|head| + |sep|, |head| + |sep| + |rest|))
  {
    var s := head + sep + rest;
    var g := Some(Group(|head| + |sep|, |s|));
    forall j | 0 <= j < |head| ensures MatchAt(BodyAfterBlank, s, j) == None || (j + 1 == |head| && MatchAt(BodyAfterBlank, s, j) == g) {
      EarlyBlank(head, sep, rest, j);
    }
    SeparatorMatches(head, sep, rest);
    var ms := Matches(BodyAfterBlank, s);
    FirstSomeFirst(ms, 0);
    assert ms[|head|].Some?;
    var i := FirstSome(ms, 0).value;
    assert i <= |head|;
    assert ms[i] == g;
  }

  // ---------------------------------------------------------------------
  // preg_replace('/\*\*\*(.+)\*\*\*/', '<b>$1</b>', $html)

  const Stars := "***"

  /** The largest q in [lo, hi) where `pat` occurs. */
  function LastOccurrence(s: string, pat: string, lo: nat, hi: int): (r: Option<nat>)
    ensures r.Some? ==> lo <= r.value < hi && OccursAt(s, pat, r.value)
    ensures r.Some? ==> forall q: nat :: r.value < q < hi ==> !OccursAt(s, pat, q)
    ensures r.None? ==> forall q: nat :: lo <= q < hi ==> !OccursAt(s, pat, q)
    decreases hi - lo
  {
    if hi <= lo then None
    else if OccursAt(s, pat, hi - 1) then Some(hi - 1)
    else LastOccurrence(s, pat, lo, hi - 1)
  }

  /**
   * For an opening "***" at p: where the closing "***" starts. The greedy
   * `(.+)` makes it the last "***" on the same line leaving at least one
   * character in the group.
   */
  function BoldClose(s: string, p: nat): (r: Option<nat>)
    requires OccursAt(s, Stars, p)
    ensures r.Some? ==> p + 4 <= r.value && r.value + 3 <= |s| && OccursAt(s, Stars, r.value)
    ensures r.Some? ==> forall k :: p + 3 <= k < r.value ==> s[k] != '\n'
  {
    LastOccurrence(s, Stars, p + 4, LineEnd(s, p + 3) - 2)
  }

  /** The global replacement from index i on: each match becomes "<b>group</b>" and the scan resumes after it. */
  function BoldFrom(s: string, i: nat): string
    requires i <= |s|
    decreases |s| - i
  {
    if i == |s| then ""
    else if OccursAt(s, Stars, i) && BoldClose(s, i).Some? then
      var q := BoldClose(s, i).value;
      "<b>" + s[i + 3..q] + "</b>" + BoldFrom(s, q + 3)
    else [s[i]] + BoldFrom(s, i + 1)
  }

  /** The `***x***` to `<b>x</b>` rewrite applied to rendered HTML. */
  function Embolden(s: string): string
  {
    BoldFrom(s, 0)
  }

  /** Without "***" in the subject the rewrite changes nothing. */
  lemma {:induction false} BoldFromAbsent(s: string, i: nat)
    requires i <= |s|
    requires !Contains(s, Stars)
    ensures BoldFrom(s, i) == s[i..]
    decreases |s| - i
  {
    if i < |s| {
      assert !OccursAt(s, Stars, i);
      BoldFromAbsent(s, i + 1);
      assert s[i..] == [s[i]] + s[i + 1..];
    }
  }

  lemma EmboldenAbsent(s: string)
    requires !Contains(s, Stars)
    ensures Embolden(s) == s
  {
    BoldFromAbsent(s, 0);
  }

  /** A one-line `***x***` becomes exactly `<b>x</b>`, whatever asterisks x holds. */
  lemma EmboldenSpan(x: string)
    requires |x| >= 1
    requires forall k :: 0 <= k < |x| ==> x[k] != '\n'
    ensures Embolden(Stars + x + Stars) == "<b>" + x + "</b>"
  {
    var s := Stars + x + Stars;
    assert OccursAt(s, Stars, 0);
    assert LineEnd(s, 3) == |s| by {
      forall k | 3 <= k < |s| ensures s[k] != '\n' {
        if k < 3 + |x| { assert s[k] == x[k - 3]; }
      }
    }
    assert OccursAt(s, Stars, |s| - 3);
    assert BoldClose(s, 0) == Some(|s| - 3);
    assert s[3..|s| - 3] == x;
    assert BoldFrom(s, |s|) == "";
    assert BoldFrom(s, 0) == "<b>" + s[3..|s| - 3] + "</b>" + BoldFrom(s, |s|);
  }

  // ---------------------------------------------------------------------
  // preg_split('/\s*[,;]\s*/', $tags)

  /** The characters `\s` matches without the `u` flag: space, \t, \n, \v, \f, \r. */
  const RegexSpace: set<char> := {' ', '\t', '\n', 11 as char, 12 as char, '\r'}

  predicate IsTagSep(c: char)
  {
    c == ',' || c == ';'
  }

  predicate SepFree(t: string)
  {
    forall j :: 0 <= j < |t| ==> !IsTagSep(t[j])
  }

  function CountSeps(s: string): nat
  {
    if |s| == 0 then 0 else (if IsTagSep(s[0]) then 1 else 0) + CountSeps(s[1..])
  }

  /** The pieces between the ',' and ';' characters. */
  function SplitRaw(s: string): (r: seq<string>)
    ensures |r| == CountSeps(s) + 1
    ensures forall k :: 0 <= k < |r| ==> SepFree(r[k])
    decreases |s|
  {
    if |s| == 0 then [""]
    else
      var t := SplitRaw(s[1..]);
      if IsTagSep(s[0]) then [""] + t else [[s[0]] + t[0]] + t[1..]
  }

  /**
   * Removes the `\s*` a separator match swallows: leading white space when
   * a separator precedes the piece, trailing white space when one follows.
   */
  function TrimPiece(p: string, afterSep: bool, beforeSep: bool): string
  {
    var l := if afterSep then TrimLeft(p, RegexSpace) else p;
    if beforeSep then TrimRight(l, RegexSpace) else l
  }

  /**
   * preg_split('/\s*[,;]\s*\/', $s). Every match is one separator with the
   * white space around it (a match cannot start inside a white-space run that
   * does not reach a separator, and the trailing `\s*` takes the whole run),
   * so the pieces are the raw pieces with that white space removed.
   */
  function SplitTags(s: string): seq<string>
  {
    var raw := SplitRaw(s);
    seq(|raw|, k requires 0 <= k < |raw| => TrimPiece(raw[k], k > 0, k + 1 < |raw|))
  }

  lemma TrimLeftSepFree(t: string, cs: set<char>)
    requires SepFree(t)
    ensures SepFree(TrimLeft(t, cs))
  {
    var k := LeadEnd(t, cs, 0);
    var r := TrimLeft(t, cs);
    forall j | 0 <= j < |r| ensures !IsTagSep(r[j]) {
      assert r[j] == t[k + j];
    }
  }

  lemma TrimRightSepFree(t: string, cs: set<char>)
    requires SepFree(t)
    ensures SepFree(TrimRight(t, cs))
  {
    var r := TrimRight(t, cs);
    forall j | 0 <= j < |r| ensures !IsTagSep(r[j]) {
      assert r[j] == t[j];
    }
  }

  /** k separators give k + 1 pieces, and no piece holds a ',' or ';'. */
  lemma SplitTagsShape(s: string)
    ensures |SplitTags(s)| == CountSeps(s) + 1
    ensures forall k :: 0 <= k < |SplitTags(s)| ==> SepFree(SplitTags(s)[k])
  {
    var raw := SplitRaw(s);
    forall k | 0 <= k < |raw| ensures SepFree(SplitTags(s)[k]) {
      var l := if k > 0 then TrimLeft(raw[k], RegexSpace) else raw[k];
      TrimLeftSepFree(raw[k], RegexSpace);
      TrimRightSepFree(l, RegexSpace);
    }
  }

  lemma {:induction false} SplitRawSepFree(a: string)
    requires SepFree(a)
    ensures SplitRaw(a) == [a]
    decreases |a|
  {
    if |a| > 0 {
      SplitRawSepFree(a[1..]);
      assert [a[0]] + a[1..] == a;
    }
  }

  lemma {:induction false} SplitRawPrefix(pre: string, t: string)
    requires SepFree(pre)
    ensures SplitRaw(pre + t) == [pre + SplitRaw(t)[0]] + SplitRaw(t)[1..]
    decreases |pre|
  {
    if |pre| > 0 {
      var s := pre + t;
      assert s[1..] == pre[1..] + t;
      SplitRawPrefix(pre[1..], t);
      assert [pre[0]] + (pre[1..] + SplitRaw(t)[0]) == pre + SplitRaw(t)[0];
    } else {
      assert pre == [];
      assert pre + t == t;
      var r := SplitRaw(t);
      assert pre + r[0] == r[0];
      assert [pre + r[0]] + r[1..] == [r[0]] + r[1..] == r;
    }
  }

  lemma SplitRawSep(c: char, t: string)
    requires IsTagSep(c)
    ensures SplitRaw([c] + t) == [""] + SplitRaw(t)
  {
    assert ([c] + t)[1..] == t;
  }

  /** The raw pieces of `xs` joined by "," + pad: the first tag, then each later tag behind the pad. */
  lemma {:induction false} SplitRawJoin(xs: seq<string>, pad: string)
    requires |xs| >= 1 && SepFree(pad)
    requires forall k :: 0 <= k < |xs| ==> SepFree(xs[k])
    ensures SplitRaw(Join(xs, "," + pad)) == [xs[0]] + seq(|xs| - 1, k requires 0 <= k < |xs| - 1 => pad + xs[k + 1])
    decreases |xs|
  {
    if |xs| == 1 {
      SplitRawSepFree(xs[0]);
    } else {
      var rest := Join(xs[1..], "," + pad);
      assert Join(xs, "," + pad) == xs[0] + ([','] + (pad + rest));
      SplitRawPrefix(xs[0], [','] + (pad + rest));
      SplitRawSep(',', pad + rest);
      SplitRawPrefix(pad, rest);
      SplitRawJoin(xs[1..], pad);
      var r := SplitRaw(rest);
      assert xs[0] + "" == xs[0];
      assert SplitRaw(Join(xs, "," + pad)) == [xs[0]] + ([pad + r[0]] + r[1..]);
      PadShift(xs, pad, r);
    }
  }

  /** The pieces after the first separator, with the pad glued back onto the first of them, line up with the tags. */
  lemma PadShift(xs: seq<string>, pad: string, r: seq<string>)
    requires |xs| >= 2
    requires r == [xs[1..][0]] + seq(|xs[1..]| - 1, k requires 0 <= k < |xs[1..]| - 1 => pad + xs[1..][k + 1])
    ensures [xs[0]] + ([pad + r[0]] + r[1..]) == [xs[0]] + seq(|xs| - 1, k requires 0 <= k < |xs| - 1 => pad + xs[k + 1])
  {
    var got := [xs[0]] + ([pad + r[0]] + r[1..]);
    var want := [xs[0]] + seq(|xs| - 1, k requires 0 <= k < |xs| - 1 => pad + xs[k + 1]);
    forall i | 0 <= i < |want| ensures got[i] == want[i] {
      if i >= 2 {
        assert got[i] == r[i - 1] == pad + xs[1..][i - 1];
      }
    }
  }

  /** A tag that splitting gives back as it is: no separator, no white space at either end. */
  predicate CleanTag(t: string)
  {
    SepFree(t) && (|t| > 0 ==> t[0] !in RegexSpace && t[|t| - 1] !in RegexSpace)
  }

  /** Trimming leaves a clean tag alone, and strips one space in front of it. */
  lemma TrimClean(t: string, before: bool)
    requires CleanTag(t)
    ensures TrimPiece(t, false, before) == t
    ensures TrimPiece(" " + t, true, before) == t
  {
    var st := " " + t;
    assert st[1..] == t;
    assert LeadEnd(st, RegexSpace, 0) == LeadEnd(st, RegexSpace, 1) == 1;
    if |t| > 0 {
      assert LeadEnd(t, RegexSpace, 0) == 0;
      assert TrailStart(t, RegexSpace, |t|) == |t|;
    }
    assert t[0..] == t && t[..|t|] == t;
  }

  /** Trimming the raw pieces "a", " b", " c" of clean tags gives the tags. */
  lemma SplitTagsFromRaw(s: string, xs: seq<string>)
    requires |xs| >= 1
    requires forall k :: 0 <= k < |xs| ==> CleanTag(xs[k])
    requires SplitRaw(s) == [xs[0]] + seq(|xs| - 1, k requires 0 <= k < |xs| - 1 => " " + xs[k + 1])
    ensures SplitTags(s) == xs
  {
    var raw := SplitRaw(s);
    var r := SplitTags(s);
    assert |r| == |xs|;
    forall k | 0 <= k < |xs| ensures r[k] == xs[k] {
      var before := k + 1 < |raw|;
      TrimClean(xs[k], before);
      if k == 0 {
        assert raw[0] == xs[0];
      } else {
        assert raw[k] == " " + xs[k];
      }
    }
  }

  /** Splitting undoes writing the tags as "a, b, c". */
  lemma SplitTagsJoin(xs: seq<string>)
    requires |xs| >= 1
    requires forall k :: 0 <= k < |xs| ==> CleanTag(xs[k])
    ensures SplitTags(Join(xs, ", ")) == xs
  {
    assert ", " == "," + " ";
    forall k | 0 <= k < |xs| ensures SepFree(xs[k]) {
      assert CleanTag(xs[k]);
    }
    SplitRawJoin(xs, " ");
    SplitTagsFromRaw(Join(xs, ", "), xs);
  }
}
