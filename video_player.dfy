/**
 * `extractVideoId` of the video player (src/components/VideoPlayer.tsx): the match of
 *   /^.*(youtu.be\/|v\/|u\/\w\/|embed\/|watch\?v=|\&v=)([^#\&\?]*).* /
 * followed by a length check, written as explicit searches over the string.
 *
 * How the match goes: `^.*` is greedy and cannot cross a line terminator, so the
 * engine tries the marker alternatives at the end of the first line and backs off
 * one character at a time; the first (that is, rightmost) position where a marker
 * matches wins. The six markers start with six different characters, so at most
 * one alternative can match at a position. Group 2 is then the longest run of
 * characters other than `#`, `&` and `?` (which may cross line terminators), and
 * the trailing `.*` always matches. The id is group 2 if it is 11 characters long.
 */
module VideoPlayer {
  import opened TaskModel

  /** The characters ECMAScript's `.` does not match. */
  predicate IsLineTerminator(c: char) {
    c == '\n' || c == '\r' || c == '\U{2028}' || c == '\U{2029}'
  }

  /**
   * What the `.` of `youtu.be` can stand for. Without the `u` flag a pattern works on
   * UTF-16 code units, so `.` matches one unit other than a line terminator; a
   * character outside the Basic Multilingual Plane is two units, so `.` followed by
   * `b` cannot match it.
   */
  predicate IsDotChar(c: char) {
    !IsLineTerminator(c) && c < '\U{10000}'
  }

  /** ECMAScript's `\w`. */
  predicate IsWordChar(c: char) {
    'a' <= c <= 'z' || 'A' <= c <= 'Z' || '0' <= c <= '9' || c == '_'
  }

  /** The class `[^#\&\?]` of group 2. */
  predicate IsIdChar(c: char) {
    c != '#' && c != '&' && c != '?'
  }

  /**
   * The length of the marker alternative that matches at position `p`, or 0 when
   * none does. In order: `youtu.be/` (the `.` is any character `IsDotChar`
   * allows), `v/`, `u/\w/`, `embed/`, `watch?v=`, `&v=`.
   */
  function MarkerLength(s: string, p: nat): (n: nat)
    ensures n > 0 ==> p + n <= |s|
  {
    if p + 9 <= |s| && s[p] == 'y' && s[p + 1] == 'o' && s[p + 2] == 'u' && s[p + 3] == 't' && s[p + 4] == 'u'
       && IsDotChar(s[p + 5]) && s[p + 6] == 'b' && s[p + 7] == 'e' && s[p + 8] == '/' then 9
    else if p + 2 <= |s| && s[p] == 'v' && s[p + 1] == '/' then 2
    else if p + 4 <= |s| && s[p] == 'u' && s[p + 1] == '/' && IsWordChar(s[p + 2]) && s[p + 3] == '/' then 4
    else if p + 6 <= |s| && s[p] == 'e' && s[p + 1] == 'm' && s[p + 2] == 'b' && s[p + 3] == 'e' && s[p + 4] == 'd'
       && s[p + 5] == '/' then 6
    else if p + 8 <= |s| && s[p] == 'w' && s[p + 1] == 'a' && s[p + 2] == 't' && s[p + 3] == 'c' && s[p + 4] == 'h'
       && s[p + 5] == '?' && s[p + 6] == 'v' && s[p + 7] == '=' then 8
    else if p + 3 <= |s| && s[p] == '&' && s[p + 1] == 'v' && s[p + 2] == '=' then 3
    else 0
  }

  /** The end of the line that starts at `i`: the first line terminator from `i` on, or `|s|`. */
  function LineEnd(s: string, i: nat): (e: nat)
    requires i <= |s|
    ensures i <= e <= |s|
    decreases |s| - i
  {
    if i == |s| || IsLineTerminator(s[i]) then i else LineEnd(s, i + 1)
  }

  /** `LineEnd` stops at the first line terminator and passes no other. */
  lemma {:induction false} LineEndIsFirstTerminator(s: string, i: nat)
    requires i <= |s|
    ensures forall k :: i <= k < LineEnd(s, i) ==> !IsLineTerminator(s[k])
    ensures LineEnd(s, i) < |s| ==> IsLineTerminator(s[LineEnd(s, i)])
    decreases |s| - i
  {
    if i < |s| && !IsLineTerminator(s[i]) {
      LineEndIsFirstTerminator(s, i + 1);
    }
  }

  /** The last position at or before `p` where a marker matches, if any. */
  function LastMarkerAtOrBefore(s: string, p: nat): (m: Option<nat>)
    ensures m.Some? ==> m.value <= p && MarkerLength(s, m.value) > 0
    decreases p
  {
    if MarkerLength(s, p) > 0 then Some(p)
    else if p == 0 then None
    else LastMarkerAtOrBefore(s, p - 1)
  }

  /** The search finds the rightmost marker at or before `p`, and finds one whenever there is one. */
  lemma {:induction false} LastMarkerIsRightmost(s: string, p: nat)
    ensures var m := LastMarkerAtOrBefore(s, p);
            && (m.Some? ==> forall q :: m.value < q <= p ==> MarkerLength(s, q) == 0)
            && (m.None? ==> forall q :: 0 <= q <= p ==> MarkerLength(s, q) == 0)
    decreases p
  {
    if MarkerLength(s, p) == 0 && p > 0 {
      LastMarkerIsRightmost(s, p - 1);
    }
  }

  /** The end of the longest run of id characters starting at `i`. */
  function RunEnd(s: string, i: nat): (j: nat)
    requires i <= |s|
    ensures i <= j <= |s|
    decreases |s| - i
  {
    if i == |s| || !IsIdChar(s[i]) then i else RunEnd(s, i + 1)
  }

  /** `s[i..RunEnd(s, i)]` is the longest run of id characters starting at `i`. */
  lemma {:induction false} RunEndIsMaximal(s: string, i: nat)
    requires i <= |s|
    ensures IsMaximalRun(s, i, RunEnd(s, i))
    decreases |s| - i
  {
    if i < |s| && IsIdChar(s[i]) {
      RunEndIsMaximal(s, i + 1);
    }
  }

  /** Group 2 after the marker at `p`, kept only when it has exactly 11 characters. */
  function IdAfterMarker(url: string, p: nat): (id: Option<string>)
    requires p + MarkerLength(url, p) <= |url|
    ensures id.Some? ==> |id.value| == 11
    ensures id.Some? ==> '#' !in id.value && '&' !in id.value && '?' !in id.value
  {
    var start := p + MarkerLength(url, p);
    var run := url[start..RunEnd(url, start)];
    assert forall k :: 0 <= k < |run| ==> IsIdChar(run[k]) by {
      RunEndIsMaximal(url, start);
      forall k | 0 <= k < |run| ensures IsIdChar(run[k]) {
        assert run[k] == url[start + k];
      }
    }
    if |run| == 11 then Some(run) else None
  }

  /** `extractVideoId`: group 2 of the match when it has exactly 11 characters, else null. */
  function ExtractVideoId(url: string): (id: Option<string>)
    ensures id.Some? ==> |id.value| == 11
    ensures id.Some? ==> '#' !in id.value && '&' !in id.value && '?' !in id.value
  {
    match LastMarkerAtOrBefore(url, LineEnd(url, 0))
    case None => None
    case Some(p) => IdAfterMarker(url, p)
  }

  /**
   * `p` is where the match puts its marker: a marker matches at `p`, `p` is not past
   * the end of the first line, and no marker matches later in the first line.
   */
  ghost predicate IsChosenMarker(url: string, p: nat) {
    && p <= LineEnd(url, 0)
    && MarkerLength(url, p) > 0
    && forall q :: p < q <= LineEnd(url, 0) ==> MarkerLength(url, q) == 0
  }

  /** `url[i..j]` is a maximal run of id characters starting at `i`. */
  ghost predicate IsMaximalRun(url: string, i: nat, j: nat) {
    && i <= j <= |url|
    && (forall k :: i <= k < j ==> IsIdChar(url[k]))
    && (j == |url| || !IsIdChar(url[j]))
  }

  /** A maximal run from a given start is unique. */
  lemma MaximalRunIsUnique(url: string, i: nat, j1: nat, j2: nat)
    requires IsMaximalRun(url, i, j1) && IsMaximalRun(url, i, j2)
    ensures j1 == j2
  {
  }

  /**
   * The declarative reading of the regular expression: once the chosen marker is at
   * `p` and the maximal id run after it ends at `j`, the result is that run exactly
   * when it has 11 characters, and null otherwise.
   */
  lemma ExtractAtChosenMarker(url: string, p: nat, n: nat, j: nat)
    requires IsChosenMarker(url, p) && MarkerLength(url, p) == n
    requires IsMaximalRun(url, p + n, j)
    ensures ExtractVideoId(url) == if j - (p + n) == 11 then Some(url[p + n..j]) else None
  {
    ChosenMarkerIsFound(url, p);
    RunEndIsMaximal(url, p + n);
    MaximalRunIsUnique(url, p + n, j, RunEnd(url, p + n));
    ExtractAtFoundMarker(url, LineEnd(url, 0), p);
  }

  /** Once the search has found the marker at `p`, the result is the id read after it. */
  lemma ExtractAtFoundMarker(url: string, e: nat, p: nat)
    requires LineEnd(url, 0) == e && LastMarkerAtOrBefore(url, e) == Some(p)
    ensures ExtractVideoId(url) == IdAfterMarker(url, p)
  {
  }

  /** The backwards search from the end of the first line stops at the chosen marker. */
  lemma ChosenMarkerIsFound(url: string, p: nat)
    requires IsChosenMarker(url, p)
    ensures LastMarkerAtOrBefore(url, LineEnd(url, 0)) == Some(p)
  {
    var e := LineEnd(url, 0);
    LastMarkerIsRightmost(url, e);
    var m := LastMarkerAtOrBefore(url, e);
    assert m.None? || m.value < p ==> MarkerLength(url, p) == 0;
  }

  /** Without a marker anywhere in the first line there is no match, so no id. */
  lemma NoMarkerNoId(url: string)
    requires forall q :: 0 <= q <= LineEnd(url, 0) ==> MarkerLength(url, q) == 0
    ensures ExtractVideoId(url) == None
  {
    LastMarkerIsRightmost(url, LineEnd(url, 0));
  }

  /** In particular, a URL in which no marker occurs at all yields no id. */
  lemma NoMarkerAnywhereNoId(url: string)
    requires forall q :: 0 <= q <= |url| ==> MarkerLength(url, q) == 0
    ensures ExtractVideoId(url) == None
  {
    NoMarkerNoId(url);
  }

  /** A URL with no line terminator is searched in full. */
  lemma SingleLineIsSearchedInFull(url: string)
    requires forall k :: 0 <= k < |url| ==> !IsLineTerminator(url[k])
    ensures LineEnd(url, 0) == |url|
  {
    LineEndIsFirstTerminator(url, 0);
  }

  // Markers, line ends and runs only look forward from where they start, so a
  // prefix placed in front shifts them without changing them.

  lemma MarkerLengthShift(a: string, b: string, q: nat)
    ensures MarkerLength(a + b, |a| + q) == MarkerLength(b, q)
  {
    var s := a + b;
    if q < |b| { assert s[|a| + q] == b[q]; }
    if q + 1 < |b| { assert s[|a| + q + 1] == b[q + 1]; }
    if q + 2 < |b| { assert s[|a| + q + 2] == b[q + 2]; }
    if q + 3 < |b| { assert s[|a| + q + 3] == b[q + 3]; }
    if q + 4 < |b| { assert s[|a| + q + 4] == b[q + 4]; }
    if q + 5 < |b| { assert s[|a| + q + 5] == b[q + 5]; }
    if q + 6 < |b| { assert s[|a| + q + 6] == b[q + 6]; }
    if q + 7 < |b| { assert s[|a| + q + 7] == b[q + 7]; }
    if q + 8 < |b| { assert s[|a| + q + 8] == b[q + 8]; }
  }

  lemma {:induction false} LineEndShift(a: string, b: string, j: nat)
    requires j <= |b|
    ensures LineEnd(a + b, |a| + j) == |a| + LineEnd(b, j)
    decreases |b| - j
  {
    if j < |b| {
      assert (a + b)[|a| + j] == b[j];
      if !IsLineTerminator(b[j]) {
        LineEndShift(a, b, j + 1);
      }
    }
  }

  /** A prefix without line terminators extends the first line by its own length. */
  lemma {:induction false} LineEndThroughPrefix(a: string, b: string, i: nat)
    requires i <= |a| && LineEnd(a, i) == |a|
    ensures LineEnd(a + b, i) == |a| + LineEnd(b, 0)
    decreases |a| - i
  {
    if i == |a| {
      LineEndShift(a, b, 0);
    } else {
      assert (a + b)[i] == a[i];
      LineEndThroughPrefix(a, b, i + 1);
    }
  }

  /**
   * Only the rightmost marker counts: text in front of a URL that has a marker in its
   * first line changes nothing, provided that text holds no line terminator.
   */
  lemma PlainPrefixIsIgnored(prefix: string, url: string)
    requires forall k :: 0 <= k < |prefix| ==> !IsLineTerminator(prefix[k])
    requires LastMarkerAtOrBefore(url, LineEnd(url, 0)).Some?
    ensures ExtractVideoId(prefix + url) == ExtractVideoId(url)
  {
    var p := LastMarkerAtOrBefore(url, LineEnd(url, 0)).value;
    var n := MarkerLength(url, p);
    var j := RunEnd(url, p + n);
    FoundMarkerIsChosen(url);
    RunEndIsMaximal(url, p + n);
    ExtractOfRun(url, p, n, j, url[p + n..j]);
    LineEndAfterPlainPrefix(prefix, url);
    ExtractAfterPrefix(prefix, url, p, n, j);
  }

  /** A prefix without line terminators lengthens the first line by its own length. */
  lemma LineEndAfterPlainPrefix(prefix: string, url: string)
    requires forall k :: 0 <= k < |prefix| ==> !IsLineTerminator(prefix[k])
    ensures LineEnd(prefix + url, 0) == |prefix| + LineEnd(url, 0)
  {
    SingleLineIsSearchedInFull(prefix);
    LineEndThroughPrefix(prefix, url, 0);
  }

  /** The chosen marker and the run after it, seen through a prefix. */
  lemma ExtractAfterPrefix(prefix: string, url: string, p: nat, n: nat, j: nat)
    requires LineEnd(prefix + url, 0) == |prefix| + LineEnd(url, 0)
    requires IsChosenMarker(url, p) && MarkerLength(url, p) == n && IsMaximalRun(url, p + n, j)
    ensures ExtractVideoId(prefix + url) == if |url[p + n..j]| == 11 then Some(url[p + n..j]) else None
  {
    PrefixFacts(prefix, url, p, n, j);
    ExtractOfRun(prefix + url, |prefix| + p, n, |prefix| + j, url[p + n..j]);
  }

  lemma PrefixFacts(prefix: string, url: string, p: nat, n: nat, j: nat)
    requires LineEnd(prefix + url, 0) == |prefix| + LineEnd(url, 0)
    requires IsChosenMarker(url, p) && MarkerLength(url, p) == n && IsMaximalRun(url, p + n, j)
    ensures var w := prefix + url;
            && IsChosenMarker(w, |prefix| + p) && MarkerLength(w, |prefix| + p) == n
            && IsMaximalRun(w, |prefix| + p + n, |prefix| + j)
            && w[|prefix| + p + n..|prefix| + j] == url[p + n..j]
  {
    ChosenMarkerShift(prefix, url, p);
    MaximalRunShift(prefix, url, p + n, j);
    assert |prefix| + (p + n) == |prefix| + p + n;
  }

  /** The marker the backwards search finds is the chosen one. */
  lemma FoundMarkerIsChosen(url: string)
    requires LastMarkerAtOrBefore(url, LineEnd(url, 0)).Some?
    ensures IsChosenMarker(url, LastMarkerAtOrBefore(url, LineEnd(url, 0)).value)
  {
    LastMarkerIsRightmost(url, LineEnd(url, 0));
  }

  /** A prefix without line terminators shifts the chosen marker by its length. */
  lemma ChosenMarkerShift(prefix: string, url: string, p: nat)
    requires LineEnd(prefix + url, 0) == |prefix| + LineEnd(url, 0) && IsChosenMarker(url, p)
    ensures IsChosenMarker(prefix + url, |prefix| + p)
    ensures MarkerLength(prefix + url, |prefix| + p) == MarkerLength(url, p)
  {
    MarkerLengthShift(prefix, url, p);
    forall q | |prefix| + p < q <= |prefix| + LineEnd(url, 0) ensures MarkerLength(prefix + url, q) == 0 {
      MarkerAbsentShift(prefix, url, q);
    }
  }

  lemma MarkerAbsentShift(prefix: string, url: string, q: nat)
    requires |prefix| <= q && MarkerLength(url, q - |prefix|) == 0
    ensures MarkerLength(prefix + url, q) == 0
  {
    MarkerLengthShift(prefix, url, q - |prefix|);
  }

  /** A prefix shifts a maximal run, and the run's text, by its length. */
  lemma MaximalRunShift(prefix: string, url: string, i: nat, j: nat)
    requires IsMaximalRun(url, i, j)
    ensures IsMaximalRun(prefix + url, |prefix| + i, |prefix| + j)
    ensures (prefix + url)[|prefix| + i..|prefix| + j] == url[i..j]
  {
    var whole := prefix + url;
    forall k | |prefix| + i <= k < |prefix| + j ensures IsIdChar(whole[k]) {
      assert whole[k] == url[k - |prefix|];
    }
    if j < |url| {
      assert whole[|prefix| + j] == url[j];
    }
  }

  /** `s` holds no line terminator. */
  predicate NoLineTerminator(s: string)
    decreases |s|
  {
    s == [] || (!IsLineTerminator(s[0]) && NoLineTerminator(s[1..]))
  }

  lemma {:induction false} NoLineTerminatorMeans(s: string)
    ensures NoLineTerminator(s) <==> forall k :: 0 <= k < |s| ==> !IsLineTerminator(s[k])
    decreases |s|
  {
    if s != [] {
      NoLineTerminatorMeans(s[1..]);
      assert forall k :: 1 <= k < |s| ==> s[k] == s[1..][k - 1];
    }
  }

  /**
   * Text that can follow a marker and be read in full as the id: no `#`, `&`, `?`, no
   * line terminator, and no `/` or `=`, the characters every marker ends with.
   */
  predicate IsPlainChar(c: char) {
    IsIdChar(c) && !IsLineTerminator(c) && c != '/' && c != '='
  }

  /** Every character of `s` is plain. */
  predicate PlainText(s: string)
    decreases |s|
  {
    s == [] || (IsPlainChar(s[0]) && PlainText(s[1..]))
  }

  lemma {:induction false} PlainTextMeans(s: string)
    ensures PlainText(s) <==> forall k :: 0 <= k < |s| ==> IsPlainChar(s[k])
    decreases |s|
  {
    if s != [] {
      PlainTextMeans(s[1..]);
      assert forall k :: 1 <= k < |s| ==> s[k] == s[1..][k - 1];
    }
  }

  /**
   * Every marker is free of line terminators and ends in `/` or in `v=`; so no marker
   * can end inside plain text, and a marker never stops the first line.
   */
  lemma MarkerShape(s: string, p: nat)
    ensures var n := MarkerLength(s, p);
            n > 0 ==>
              && (forall k :: p <= k < p + n ==> !IsLineTerminator(s[k]))
              && (s[p + n - 1] == '/' || s[p + n - 1] == '=')
              && (s[p + n - 1] == '=' ==> n >= 2 && s[p + n - 2] == 'v')
  {
  }

  /**
   * Text appended after a marker does not change it, and a marker that fits in `s` is
   * the same in `s + t`.
   */
  lemma MarkerLengthRestrict(s: string, t: string, p: nat)
    ensures MarkerLength(s, p) > 0 ==> MarkerLength(s + t, p) == MarkerLength(s, p)
    ensures var m := MarkerLength(s + t, p);
            m > 0 && p + m <= |s| ==> MarkerLength(s, p) == m
  {
    var u := s + t;
    if p < |s| { assert u[p] == s[p]; }
    if p + 1 < |s| { assert u[p + 1] == s[p + 1]; }
    if p + 2 < |s| { assert u[p + 2] == s[p + 2]; }
    if p + 3 < |s| { assert u[p + 3] == s[p + 3]; }
    if p + 4 < |s| { assert u[p + 4] == s[p + 4]; }
    if p + 5 < |s| { assert u[p + 5] == s[p + 5]; }
    if p + 6 < |s| { assert u[p + 6] == s[p + 6]; }
    if p + 7 < |s| { assert u[p + 7] == s[p + 7]; }
    if p + 8 < |s| { assert u[p + 8] == s[p + 8]; }
  }

  /** `rest` starts with a marker, no other marker starts inside it, and only plain text follows it. */
  predicate MarkerThenPlain(rest: string) {
    && MarkerLength(rest, 0) > 0
    && (forall q :: 0 < q < MarkerLength(rest, 0) ==> MarkerLength(rest, q) == 0)
    && PlainText(rest[MarkerLength(rest, 0)..])
  }

  /** Plain text after the marker: every character from the end of the marker on is plain. */
  lemma PlainAfterMarker(rest: string)
    requires MarkerThenPlain(rest)
    ensures forall k :: MarkerLength(rest, 0) <= k < |rest| ==> IsPlainChar(rest[k])
  {
    var n := MarkerLength(rest, 0);
    PlainTextMeans(rest[n..]);
    forall k | n <= k < |rest| ensures IsPlainChar(rest[k]) {
      assert rest[k] == rest[n..][k - n];
    }
  }

  /** `t` holds no `/` and no `v=`, so no marker can end inside it. */
  predicate NoMarkerEnd(t: string)
    decreases |t|
  {
    t == [] || (t[0] != '/' && !(|t| >= 2 && t[0] == 'v' && t[1] == '=') && NoMarkerEnd(t[1..]))
  }

  lemma {:induction false} NoMarkerEndMeans(t: string)
    requires NoMarkerEnd(t)
    ensures forall k :: 0 <= k < |t| ==> t[k] != '/'
    ensures forall k :: 1 <= k < |t| ==> !(t[k - 1] == 'v' && t[k] == '=')
    decreases |t|
  {
    if t != [] {
      NoMarkerEndMeans(t[1..]);
      assert forall k :: 1 <= k < |t| ==> t[k] == t[1..][k - 1];
    }
  }

  /**
   * What may follow the id of a well-formed link: nothing, or text that starts with
   * `#`, `&` or `?` (ending the id) in which no marker ends, such as `&t=10`.
   */
  predicate ParamTail(tail: string) {
    tail == [] || (!IsIdChar(tail[0]) && NoMarkerEnd(tail))
  }

  /** In `rest + tail`, no marker starts after the one at position 0. */
  lemma NoLaterMarker(rest: string, tail: string, r: nat)
    requires MarkerThenPlain(rest) && ParamTail(tail) && 0 < r
    ensures MarkerLength(rest + tail, r) == 0
  {
    var s := rest + tail;
    MarkerShape(s, r);
    MarkerLengthRestrict(rest, tail, r);
    PlainAfterMarker(rest);
    NoMarkerEndMeans(tail);
    assert forall k :: 0 <= k < |rest| ==> s[k] == rest[k];
    assert forall k :: |rest| <= k < |s| ==> s[k] == tail[k - |rest|];
  }

  /** No marker starts after the head in `head + (rest + tail)`. */
  lemma NoMarkerAfterHead(head: string, rest: string, tail: string)
    requires MarkerThenPlain(rest) && ParamTail(tail)
    ensures forall q :: |head| < q <= |head| + |rest + tail| ==> MarkerLength(head + (rest + tail), q) == 0
  {
    forall q | |head| < q <= |head| + |rest + tail| ensures MarkerLength(head + (rest + tail), q) == 0 {
      MarkerLengthShift(head, rest + tail, q - |head|);
      NoLaterMarker(rest, tail, q - |head|);
    }
  }

  /** In `head + (rest + tail)`, the match chooses the marker that starts `rest`. */
  lemma MarkerAfterHeadIsChosen(head: string, rest: string, tail: string)
    requires NoLineTerminator(head) && MarkerThenPlain(rest) && ParamTail(tail)
    ensures IsChosenMarker(head + (rest + tail), |head|)
    ensures MarkerLength(head + (rest + tail), |head|) == MarkerLength(rest, 0)
  {
    var url := head + (rest + tail);
    MarkerLengthRestrict(rest, tail, 0);
    MarkerLengthShift(head, rest + tail, 0);
    NoMarkerAfterHead(head, rest, tail);
    NoLineTerminatorMeans(head);
    LineEndIsFirstTerminator(url, 0);
    assert forall k :: 0 <= k < |head| ==> url[k] == head[k];
  }

  /** After that marker, the id run covers the plain text and stops where `tail` starts. */
  lemma RunAfterChosenMarker(head: string, rest: string, tail: string)
    requires MarkerThenPlain(rest) && ParamTail(tail)
    ensures var h, n := |head|, MarkerLength(rest, 0);
            IsMaximalRun(head + (rest + tail), h + n, h + |rest|)
  {
    var url := head + (rest + tail);
    var h, n := |head|, MarkerLength(rest, 0);
    PlainAfterMarker(rest);
    forall k | h + n <= k < h + |rest| ensures IsIdChar(url[k]) {
      assert url[k] == rest[k - h];
    }
    if tail != [] {
      assert url[h + |rest|] == tail[0];
    }
  }

  /**
   * The general case behind every well-formed link: whatever comes first on the line,
   * a marker followed by plain text and then, possibly, parameters decides the
   * result, and the id is that plain text when it has 11 characters.
   */
  lemma MarkerThenPlainText(head: string, rest: string, tail: string)
    requires NoLineTerminator(head) && MarkerThenPlain(rest) && ParamTail(tail)
    ensures var n := MarkerLength(rest, 0);
            ExtractVideoId(head + (rest + tail)) == if |rest[n..]| == 11 then Some(rest[n..]) else None
  {
    var url := head + (rest + tail);
    var h, n := |head|, MarkerLength(rest, 0);
    LinkFacts(head, rest, tail);
    SliceOfMiddle(head, rest, tail, n);
    ExtractOfRun(url, h, n, h + |rest|, rest[n..]);
  }

  /** What the match sees in `head + (rest + tail)`: the chosen marker and the run after it. */
  lemma LinkFacts(head: string, rest: string, tail: string)
    requires NoLineTerminator(head) && MarkerThenPlain(rest) && ParamTail(tail)
    ensures var url, h, n := head + (rest + tail), |head|, MarkerLength(rest, 0);
            && IsChosenMarker(url, h) && MarkerLength(url, h) == n
            && IsMaximalRun(url, h + n, h + |rest|)
  {
    MarkerAfterHeadIsChosen(head, rest, tail);
    RunAfterChosenMarker(head, rest, tail);
  }

  /** The result once the marker and the run are known, with the run given as `id`. */
  lemma ExtractOfRun(url: string, p: nat, n: nat, j: nat, id: string)
    requires IsChosenMarker(url, p) && MarkerLength(url, p) == n
    requires IsMaximalRun(url, p + n, j) && url[p + n..j] == id
    ensures ExtractVideoId(url) == if |id| == 11 then Some(id) else None
  {
    ExtractAtChosenMarker(url, p, n, j);
  }

  /** Proof helper: the middle piece of `head + (rest + tail)`, from offset `n` of `rest`. */
  lemma SliceOfMiddle(head: string, rest: string, tail: string, n: nat)
    requires n <= |rest|
    ensures (head + (rest + tail))[|head| + n..|head| + |rest|] == rest[n..]
  {
    var url := head + (rest + tail);
    forall k | 0 <= k < |rest| - n ensures url[|head| + n..|head| + |rest|][k] == rest[n..][k] {
      assert url[|head| + n + k] == rest[n + k];
    }
  }

  /**
   * A link of the form `<head><marker><id><tail>`: when `marker` is recognised at its
   * own start and no other marker starts inside it, the result is `id` exactly when
   * `id` has 11 characters, whatever `head` holds (other markers included).
   */
  lemma LinkGivesId(head: string, marker: string, id: string, tail: string)
    requires NoLineTerminator(head) && PlainText(id) && ParamTail(tail) && marker != []
    requires MarkerLength(marker + id, 0) == |marker|
    requires forall q :: 0 < q < |marker| ==> MarkerLength(marker + id, q) == 0
    ensures ExtractVideoId(head + marker + id + tail) == if |id| == 11 then Some(id) else None
  {
    MarkerBeforePlainText(marker, id);
    MarkerThenPlainText(head, marker + id, tail);
    Regroup(head, marker, id, tail);
  }

  /** Proof helper: the same four pieces, grouped two ways. */
  lemma Regroup(a: string, b: string, c: string, d: string)
    ensures a + (b + c + d) == a + b + c + d
  {
  }

  lemma MarkerBeforePlainText(marker: string, id: string)
    requires PlainText(id) && marker != []
    requires MarkerLength(marker + id, 0) == |marker|
    requires forall q :: 0 < q < |marker| ==> MarkerLength(marker + id, q) == 0
    ensures MarkerThenPlain(marker + id) && (marker + id)[|marker|..] == id
  {
    var rest := marker + id;
    assert rest[|marker|..] == id;
  }

  /** The short-link marker `youtu.be/`, any `IsDotChar` in place of the dot, is recognised once. */
  lemma ShortMarker(dot: char, id: string)
    requires IsDotChar(dot)
    ensures var rest := "youtu" + [dot] + "be/" + id;
            MarkerLength(rest, 0) == 9 && forall q :: 0 < q < 9 ==> MarkerLength(rest, q) == 0
  {
    var rest := "youtu" + [dot] + "be/" + id;
    assert rest[5] == dot;
    forall q | 0 < q < 9 ensures MarkerLength(rest, q) == 0 {
      if q == 1 { assert rest[1] == 'o';
      } else if q == 2 { assert rest[2] == 'u' && rest[3] == 't';
      } else if q == 3 { assert rest[3] == 't';
      } else if q == 4 { assert rest[4] == 'u' && rest[7] == 'e';
      } else if q == 5 { assert rest[6] == 'b';
      } else if q == 6 { assert rest[6] == 'b';
      } else if q == 7 { assert rest[7] == 'e' && rest[8] == '/';
      } else { assert rest[8] == '/'; }
    }
  }

  /**
   * A character outside the Basic Multilingual Plane in place of the dot gives no
   * short-link marker: `.` takes its first code unit and `b` fails on the second.
   */
  lemma WideDotIsNoMarker(c: char, id: string)
    requires c >= '\U{10000}'
    ensures MarkerLength("youtu" + [c] + "be/" + id, 0) == 0
  {
    var rest := "youtu" + [c] + "be/" + id;
    assert rest[0] == 'y' && rest[5] == c;
  }

  /** The form `…youtu.be/<id>`. */
  lemma ShortLinkGivesId(head: string, dot: char, id: string, tail: string)
    requires NoLineTerminator(head) && PlainText(id) && ParamTail(tail) && IsDotChar(dot)
    ensures ExtractVideoId(head + ("youtu" + [dot] + "be/") + id + tail) == if |id| == 11 then Some(id) else None
  {
    ShortMarker(dot, id);
    LinkGivesId(head, "youtu" + [dot] + "be/", id, tail);
  }

  /** The marker `v/` is recognised at the start. */
  lemma VMarker(id: string)
    ensures MarkerLength("v/" + id, 0) == 2
  {
    var rest := "v/" + id;
    assert rest[0] == 'v' && rest[1] == '/';
  }

  /** The form `…v/<id>`. */
  lemma VLinkGivesId(head: string, id: string, tail: string)
    requires NoLineTerminator(head) && PlainText(id) && ParamTail(tail)
    ensures ExtractVideoId(head + "v/" + id + tail) == if |id| == 11 then Some(id) else None
  {
    VMarker(id);
    LinkGivesId(head, "v/", id, tail);
  }

  /** The marker `u/<w>/` is recognised once, unless `<w>` is `v`, which makes `v/` start inside it. */
  lemma UserMarker(w: char, id: string)
    requires IsWordChar(w) && PlainText(id) && w != 'v'
    ensures var rest := "u/" + [w] + "/" + id;
            MarkerLength(rest, 0) == 4 && forall q :: 0 < q < 4 ==> MarkerLength(rest, q) == 0
  {
    var rest := "u/" + [w] + "/" + id;
    assert rest[0] == 'u' && rest[1] == '/' && rest[2] == w && rest[3] == '/';
    PlainTextMeans(id);
    forall q | 0 < q < 4 ensures MarkerLength(rest, q) == 0 {
      if q == 2 && |id| >= 2 {
        assert rest[5] == id[1];
      }
    }
  }

  /** The user-page form `…u/<w>/<id>`, `<w>` a word character. */
  lemma UserLinkGivesId(head: string, w: char, id: string, tail: string)
    requires NoLineTerminator(head) && PlainText(id) && ParamTail(tail) && IsWordChar(w)
    ensures ExtractVideoId(head + ("u/" + [w] + "/") + id + tail) == if |id| == 11 then Some(id) else None
  {
    if w == 'v' {
      // `u/v/` holds the later marker `v/`, which wins and reads the same id.
      UserPrefixIsOneLine(head);
      VLinkGivesId(head + "u/", id, tail);
      UserAsV(head, id, tail);
    } else {
      UserMarker(w, id);
      LinkGivesId(head, "u/" + [w] + "/", id, tail);
    }
  }

  lemma UserPrefixIsOneLine(head: string)
    requires NoLineTerminator(head)
    ensures NoLineTerminator(head + "u/")
  {
    assert NoLineTerminator("u/");
    NoLineTerminatorJoin(head, "u/");
  }

  lemma UserAsV(head: string, id: string, tail: string)
    ensures head + "u/" + "v/" + id + tail == head + ("u/" + ['v'] + "/") + id + tail
  {
    assert "u/" + ['v'] + "/" == "u/" + "v/";
  }

  /** The marker `embed/` is recognised once. */
  lemma EmbedMarker(id: string)
    ensures var rest := "embed/" + id;
            MarkerLength(rest, 0) == 6 && forall q :: 0 < q < 6 ==> MarkerLength(rest, q) == 0
  {
    var rest := "embed/" + id;
    assert rest[0] == 'e';
    forall q | 0 < q < 6 ensures MarkerLength(rest, q) == 0 {
      if q == 1 { assert rest[1] == 'm';
      } else if q == 2 { assert rest[2] == 'b';
      } else if q == 3 { assert rest[3] == 'e' && rest[4] == 'd';
      } else if q == 4 { assert rest[4] == 'd';
      } else { assert rest[5] == '/'; }
    }
  }

  /** The embed form `…embed/<id>`. */
  lemma EmbedLinkGivesId(head: string, id: string, tail: string)
    requires NoLineTerminator(head) && PlainText(id) && ParamTail(tail)
    ensures ExtractVideoId(head + "embed/" + id + tail) == if |id| == 11 then Some(id) else None
  {
    EmbedMarker(id);
    LinkGivesId(head, "embed/", id, tail);
  }

  /** The marker `watch?v=` is recognised once. */
  lemma WatchMarker(id: string)
    ensures var rest := "watch?v=" + id;
            MarkerLength(rest, 0) == 8 && forall q :: 0 < q < 8 ==> MarkerLength(rest, q) == 0
  {
    var rest := "watch?v=" + id;
    assert rest[0] == 'w';
    forall q | 0 < q < 8 ensures MarkerLength(rest, q) == 0 {
      if q == 1 { assert rest[1] == 'a';
      } else if q == 2 { assert rest[2] == 't';
      } else if q == 3 { assert rest[3] == 'c';
      } else if q == 4 { assert rest[4] == 'h';
      } else if q == 5 { assert rest[5] == '?';
      } else if q == 6 { assert rest[6] == 'v' && rest[7] == '=';
      } else { assert rest[7] == '='; }
    }
  }

  /** The watch-page form `…watch?v=<id>`. */
  lemma WatchLinkGivesId(head: string, id: string, tail: string)
    requires NoLineTerminator(head) && PlainText(id) && ParamTail(tail)
    ensures ExtractVideoId(head + "watch?v=" + id + tail) == if |id| == 11 then Some(id) else None
  {
    WatchMarker(id);
    LinkGivesId(head, "watch?v=", id, tail);
  }

  /** The marker `&v=` is recognised once. */
  lemma ParamMarker(id: string)
    ensures var rest := "&v=" + id;
            MarkerLength(rest, 0) == 3 && forall q :: 0 < q < 3 ==> MarkerLength(rest, q) == 0
  {
    var rest := "&v=" + id;
    assert rest[0] == '&';
    forall q | 0 < q < 3 ensures MarkerLength(rest, q) == 0 {
      if q == 1 { assert rest[1] == 'v' && rest[2] == '=';
      } else { assert rest[2] == '='; }
    }
  }

  /** The parameter form `…&v=<id>`. */
  lemma ParamLinkGivesId(head: string, id: string, tail: string)
    requires NoLineTerminator(head) && PlainText(id) && ParamTail(tail)
    ensures ExtractVideoId(head + "&v=" + id + tail) == if |id| == 11 then Some(id) else None
  {
    ParamMarker(id);
    LinkGivesId(head, "&v=", id, tail);
  }

  /** Two texts without line terminators make one. */
  lemma NoLineTerminatorJoin(a: string, b: string)
    requires NoLineTerminator(a) && NoLineTerminator(b)
    ensures NoLineTerminator(a + b)
  {
    NoLineTerminatorMeans(a);
    NoLineTerminatorMeans(b);
    NoLineTerminatorMeans(a + b);
    forall k | 0 <= k < |a + b| ensures !IsLineTerminator((a + b)[k]) {
      if k >= |a| {
        assert (a + b)[k] == b[k - |a|];
      }
    }
  }

  /** Two plain texts make one. */
  lemma PlainTextJoin(a: string, b: string)
    requires PlainText(a) && PlainText(b)
    ensures PlainText(a + b)
  {
    PlainTextMeans(a);
    PlainTextMeans(b);
    PlainTextMeans(a + b);
    forall k | 0 <= k < |a + b| ensures IsPlainChar((a + b)[k]) {
      if k >= |a| {
        assert (a + b)[k] == b[k - |a|];
      }
    }
  }

  // Worked examples. Each is one instance of a general lemma above. The lemmas just
  // below, from `ExampleIdIsPlain` to `ShortMarkers`, are proof helpers: each
  // states one fact about a literal piece, so that no example has to evaluate a long
  // literal in one go.

  lemma ExampleIdIsPlain() ensures PlainText("dQw4w9WgXcQ") {
    assert PlainText("dQw4w9");
    assert PlainText("WgXcQ");
    PlainTextJoin("dQw4w9", "WgXcQ");
    assert "dQw4w9" + "WgXcQ" == "dQw4w9WgXcQ";
  }
  lemma ShortIdIsPlain() ensures PlainText("abc") {}
  lemma SchemeIsOneLine() ensures NoLineTerminator("https://") {}
  lemma DomainIsOneLine() ensures NoLineTerminator("youtube.com/") {
    assert NoLineTerminator("youtube");
    assert NoLineTerminator(".com/");
    NoLineTerminatorJoin("youtube", ".com/");
    assert "youtube" + ".com/" == "youtube.com/";
  }

  lemma HostIsOneLine() ensures NoLineTerminator("www." + "youtube.com/") {
    DomainIsOneLine();
    assert NoLineTerminator("www.");
    NoLineTerminatorJoin("www.", "youtube.com/");
  }

  /** An empty tail adds nothing. */
  lemma NoTail(s: string) ensures s + "" == s {}
  lemma ShortHostIsOneLine() ensures NoLineTerminator("youtu.be/") {}
  lemma TimeIsParamTail() ensures ParamTail("&t=10") {}

  lemma ShortMarkers()
    ensures "youtu" + ['.'] + "be/" == "youtu.be/"
    ensures "" + ("youtu" + ['X'] + "be/") == "youtuXbe/"
  {
  }

  /** The short link. */
  lemma ShortLinkExample()
    ensures ExtractVideoId("https://" + "youtu.be/" + "dQw4w9WgXcQ") == Some("dQw4w9WgXcQ")
  {
    SchemeIsOneLine();
    ExampleIdIsPlain();
    ShortLinkGivesId("https://", '.', "dQw4w9WgXcQ", "");
    ShortMarkers();
    NoTail("https://" + "youtu.be/" + "dQw4w9WgXcQ");
  }

  /** An id of the wrong length gives null. */
  lemma ShortIdExample()
    ensures ExtractVideoId("https://" + "youtu.be/" + "abc") == None
  {
    SchemeIsOneLine();
    ShortIdIsPlain();
    ShortLinkGivesId("https://", '.', "abc", "");
    ShortMarkers();
    NoTail("https://" + "youtu.be/" + "abc");
  }

  /** The `.` of `youtu.be` is unescaped in the pattern, so `youtuXbe/` is a marker too. */
  lemma DotMatchesAnyCharacter()
    ensures ExtractVideoId("youtuXbe/" + "dQw4w9WgXcQ") == Some("dQw4w9WgXcQ")
  {
    ExampleIdIsPlain();
    ShortLinkGivesId("", 'X', "dQw4w9WgXcQ", "");
    ShortMarkers();
    NoTail("youtuXbe/" + "dQw4w9WgXcQ");
  }

  /** The watch page with a time parameter after the id. */
  lemma WatchPageExample()
    ensures ExtractVideoId("https://" + ("www." + "youtube.com/") + "watch?v=" + "dQw4w9WgXcQ" + "&t=10")
            == Some("dQw4w9WgXcQ")
  {
    SchemeIsOneLine();
    HostIsOneLine();
    NoLineTerminatorJoin("https://", "www." + "youtube.com/");
    ExampleIdIsPlain();
    TimeIsParamTail();
    WatchLinkGivesId("https://" + ("www." + "youtube.com/"), "dQw4w9WgXcQ", "&t=10");
  }

  /** The embed page. */
  lemma EmbedExample()
    ensures ExtractVideoId("https://" + ("www." + "youtube.com/") + "embed/" + "dQw4w9WgXcQ") == Some("dQw4w9WgXcQ")
  {
    SchemeIsOneLine();
    HostIsOneLine();
    NoLineTerminatorJoin("https://", "www." + "youtube.com/");
    ExampleIdIsPlain();
    EmbedLinkGivesId("https://" + ("www." + "youtube.com/"), "dQw4w9WgXcQ", "");
    NoTail("https://" + ("www." + "youtube.com/") + "embed/" + "dQw4w9WgXcQ");
  }

  /** The rightmost marker wins even when the id after an earlier one is well formed. */
  lemma RightmostMarkerWins()
    ensures ExtractVideoId("youtu.be/" + "dQw4w9WgXcQ" + "?" + "v/" + "abc") == None
  {
    ExampleIdIsPlain();
    PlainTextMeans("dQw4w9WgXcQ");
    NoLineTerminatorMeans("dQw4w9WgXcQ");
    ShortHostIsOneLine();
    NoLineTerminatorJoin("youtu.be/", "dQw4w9WgXcQ");
    assert NoLineTerminator("?");
    NoLineTerminatorJoin("youtu.be/" + "dQw4w9WgXcQ", "?");
    ShortIdIsPlain();
    VLinkGivesId("youtu.be/" + "dQw4w9WgXcQ" + "?", "abc", "");
    NoTail("youtu.be/" + "dQw4w9WgXcQ" + "?" + "v/" + "abc");
  }
}
