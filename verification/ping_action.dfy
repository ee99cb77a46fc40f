/** `org.connectionmonitor.ping.PingAction`: the fold over the output lines
    of `ping -c 1` and the two regular-expression parsers. A regular
    expression is modelled by the relation "the pattern matches with its
    group at `s[p..e]`"; the leading greedy `.*` makes `find` report the
    match with the rightmost group start, and for both patterns the group
    end is determined by its start. `.` is taken to match every character
    of a line and `\d`, `\b` are the ASCII classes. */
module PingAction {
  import opened JavaSemantics
  import opened SiteRecords

  predicate IsDigit(c: char) {
    '0' <= c <= '9'
  }

  predicate IsWordChar(c: char) {
    ('a' <= c <= 'z') || ('A' <= c <= 'Z') || IsDigit(c) || c == '_'
  }

  /** `\d{1,max}` matches exactly `s[i..j]`. */
  predicate DigitsBetween(s: string, i: int, j: int, max: int) {
    0 <= i < j <= |s| && j - i <= max && forall k :: i <= k < j ==> IsDigit(s[k])
  }

  /** `\b` before a word character at `p`. */
  predicate BoundaryBefore(s: string, p: int) {
    0 <= p <= |s| && (p == 0 || !IsWordChar(s[p - 1]))
  }

  /** `\b` after a word character ending at `e`. */
  predicate BoundaryAfter(s: string, e: int) {
    0 <= e <= |s| && (e == |s| || !IsWordChar(s[e]))
  }

  /** `\d{1,3}\.\d{1,3}\.\d{1,3}\.\d{1,3}` matches exactly `s[p..e]`, with
      the dots at `e1`, `e2` and `e3`. */
  predicate QuadSplit(s: string, p: int, e1: int, e2: int, e3: int, e: int) {
    DigitsBetween(s, p, e1, 3) && DigitsBetween(s, e1 + 1, e2, 3) &&
    DigitsBetween(s, e2 + 1, e3, 3) && DigitsBetween(s, e3 + 1, e, 3) &&
    s[e1] == '.' && s[e2] == '.' && s[e3] == '.'
  }

  ghost predicate QuadGroups(s: string, p: int, e: int) {
    exists e1, e2, e3 :: QuadSplit(s, p, e1, e2, e3, e)
  }

  /** `\b(\d{1,3}\.\d{1,3}\.\d{1,3}\.\d{1,3})\b` matches with its group at `s[p..e]`. */
  ghost predicate QuadMatch(s: string, p: int, e: int) {
    BoundaryBefore(s, p) && BoundaryAfter(s, e) && QuadGroups(s, p, e)
  }

  /** The match `find` reports: no match starts further right. */
  ghost predicate RightmostQuad(s: string, p: int, e: int) {
    QuadMatch(s, p, e) && forall q, e' :: p < q ==> !QuadMatch(s, q, e')
  }

  /** Four dot-separated groups of one to three digits. */
  ghost predicate IsDottedQuad(t: string) {
    QuadGroups(t, 0, |t|)
  }

  /** The end of the run of digits starting at `i`. */
  function RunEnd(s: string, i: int): (r: int)
    requires 0 <= i <= |s|
    ensures i <= r <= |s|
    ensures forall k :: i <= k < r ==> IsDigit(s[k])
    ensures r == |s| || !IsDigit(s[r])
    decreases |s| - i
  {
    if i < |s| && IsDigit(s[i]) then RunEnd(s, i + 1) else i
  }

  lemma RunEndUnique(s: string, i: int, j: int)
    requires 0 <= i <= j <= |s|
    requires forall k :: i <= k < j ==> IsDigit(s[k])
    requires j == |s| || !IsDigit(s[j])
    ensures RunEnd(s, i) == j
  {
  }

  /** The digit group starting at `i`, if it is a run of one to three
      digits followed by a dot (`dotAfter`) or by `\b`. */
  function GroupEnd(s: string, i: int, dotAfter: bool): Option<int>
    requires 0 <= i <= |s|
  {
    var e := RunEnd(s, i);
    if DigitsBetween(s, i, e, 3) && (if dotAfter then e < |s| && s[e] == '.' else BoundaryAfter(s, e))
    then Some(e) else None
  }

  /** Backtracking cannot end a group early: the next character would be a
      digit where a dot or `\b` is needed. */
  lemma GroupEndOf(s: string, i: int, e: int, dotAfter: bool)
    requires DigitsBetween(s, i, e, 3)
    requires if dotAfter then e < |s| && s[e] == '.' else BoundaryAfter(s, e)
    ensures GroupEnd(s, i, dotAfter) == Some(e)
  {
    RunEndUnique(s, i, e);
  }

  /** The only possible group end for a quad starting at `p`. */
  function QuadEnd(s: string, p: int): Option<int>
    requires 0 <= p <= |s|
  {
    if !BoundaryBefore(s, p) then None
    else match GroupEnd(s, p, true)
      case None => None
      case Some(e1) =>
        match GroupEnd(s, e1 + 1, true)
        case None => None
        case Some(e2) =>
          match GroupEnd(s, e2 + 1, true)
          case None => None
          case Some(e3) => GroupEnd(s, e3 + 1, false)
  }

  lemma QuadEndSound(s: string, p: int)
    requires 0 <= p <= |s| && QuadEnd(s, p).Some?
    ensures QuadMatch(s, p, QuadEnd(s, p).value)
  {
    var e1 := GroupEnd(s, p, true).value;
    var e2 := GroupEnd(s, e1 + 1, true).value;
    var e3 := GroupEnd(s, e2 + 1, true).value;
    assert QuadSplit(s, p, e1, e2, e3, QuadEnd(s, p).value);
  }

  lemma QuadEndComplete(s: string, p: int, e: int)
    requires QuadMatch(s, p, e)
    ensures QuadEnd(s, p) == Some(e)
  {
    var e1, e2, e3 :| QuadSplit(s, p, e1, e2, e3, e);
    GroupEndOf(s, p, e1, true);
    GroupEndOf(s, e1 + 1, e2, true);
    GroupEndOf(s, e2 + 1, e3, true);
    GroupEndOf(s, e3 + 1, e, false);
    QuadEndOfGroups(s, p, e1, e2, e3, e);
  }

  lemma QuadEndOfGroups(s: string, p: int, e1: int, e2: int, e3: int, e: int)
    requires 0 <= p <= |s| && BoundaryBefore(s, p)
    requires 0 <= e1 < |s| && 0 <= e2 < |s| && 0 <= e3 < |s|
    requires GroupEnd(s, p, true) == Some(e1) && GroupEnd(s, e1 + 1, true) == Some(e2)
    requires GroupEnd(s, e2 + 1, true) == Some(e3) && GroupEnd(s, e3 + 1, false) == Some(e)
    ensures QuadEnd(s, p) == Some(e)
  {
  }

  /** The match with the rightmost group start at or before `p`. */
  function FindQuadFrom(s: string, p: int): (r: Option<(int, int)>)
    requires 0 <= p <= |s|
    ensures r.Some? ==> r.value.0 <= p && QuadMatch(s, r.value.0, r.value.1)
    ensures r.Some? ==> forall q, e :: r.value.0 < q <= p ==> !QuadMatch(s, q, e)
    ensures r.None? ==> forall q, e :: q <= p ==> !QuadMatch(s, q, e)
    decreases p
  {
    match QuadEnd(s, p)
    case Some(e) =>
      QuadEndSound(s, p);
      Some((p, e))
    case None =>
      assert forall e :: !QuadMatch(s, p, e) by {
        forall e | QuadMatch(s, p, e) ensures false {
          QuadEndComplete(s, p, e);
        }
      }
      if p == 0 then None else FindQuadFrom(s, p - 1)
  }

  /** A match's group, cut out of the line, is itself a dotted quad. */
  lemma QuadGroupsText(s: string, p: int, e: int)
    requires QuadGroups(s, p, e)
    ensures IsDottedQuad(s[p..e])
  {
    var t := s[p..e];
    var e1, e2, e3 :| QuadSplit(s, p, e1, e2, e3, e);
    assert forall k :: 0 <= k < |t| ==> t[k] == s[p + k];
    assert QuadSplit(t, 0, e1 - p, e2 - p, e3 - p, |t|);
  }

  /** Only one match is rightmost. */
  lemma RightmostQuadUnique(s: string, p: int, e: int, p': int, e': int)
    requires RightmostQuad(s, p, e) && RightmostQuad(s, p', e')
    ensures p == p' && e == e'
  {
    assert !(p < p') && !(p' < p);
    QuadEndComplete(s, p, e);
    QuadEndComplete(s, p, e');
  }

  /** `parsePingIP(pingString)`: the group of the match `find` reports, or
      `""` when the line has none. */
  function ParsePingIP(pingString: string): (ip: string)
    ensures ip == "" <==> forall p, e :: !QuadMatch(pingString, p, e)
    ensures ip != "" ==> exists p, e :: RightmostQuad(pingString, p, e)
    ensures forall p, e :: RightmostQuad(pingString, p, e) ==> ip == pingString[p..e]
  {
    match FindQuadFrom(pingString, |pingString|)
    case None => ""
    case Some((p, e)) =>
      assert RightmostQuad(pingString, p, e);
      assert forall p', e' :: RightmostQuad(pingString, p', e') ==> p' == p && e' == e by {
        forall p', e' | RightmostQuad(pingString, p', e') ensures p' == p && e' == e {
          RightmostQuadUnique(pingString, p, e, p', e');
        }
      }
      pingString[p..e]
  }

  /** Whatever `parsePingIP` returns is empty or a dotted quad. */
  lemma ParsePingIPIsDottedQuad(pingString: string)
    ensures ParsePingIP(pingString) == "" || IsDottedQuad(ParsePingIP(pingString))
  {
    var ip := ParsePingIP(pingString);
    if ip != "" {
      var p, e :| RightmostQuad(pingString, p, e);
      QuadGroupsText(pingString, p, e);
    }
  }

  /** `\d{1,6}.\d{1,3}` matches exactly `s[q..e]`, with the unescaped `.`
      (any character) at `a`. */
  predicate SplitAt(s: string, q: int, a: int, e: int) {
    DigitsBetween(s, q, a, 6) && DigitsBetween(s, a + 1, e, 3)
  }

  ghost predicate LatencyGroup(s: string, q: int, e: int) {
    exists a :: SplitAt(s, q, a, e)
  }

  /** `time=(\d{1,6}.\d{1,3}) ms` matches with "time=" at `p` and " ms" at `e`. */
  ghost predicate LatencyMatch(s: string, p: int, e: int) {
    OccursAt(s, "time=", p) && OccursAt(s, " ms", e) && LatencyGroup(s, p + 5, e)
  }

  ghost predicate RightmostLatency(s: string, p: int, e: int) {
    LatencyMatch(s, p, e) && forall q, e' :: p < q ==> !LatencyMatch(s, q, e')
  }

  /** One to six digits, any character, one to three digits. */
  ghost predicate IsLatencyText(t: string) {
    LatencyGroup(t, 0, |t|)
  }

  /** Once the dividing character is fixed, the second run must end where
      its digits do, since " ms" follows it. */
  lemma SplitEnds(s: string, q: int, a: int)
    requires 0 <= a
    ensures forall e :: SplitAt(s, q, a, e) && OccursAt(s, " ms", e) ==> RunEnd(s, a + 1) == e
  {
    forall e | SplitAt(s, q, a, e) && OccursAt(s, " ms", e)
      ensures RunEnd(s, a + 1) == e
    {
      assert s[e] == s[e..e + 3][0] == ' ';
      RunEndUnique(s, a + 1, e);
    }
  }

  /** The group end of a latency match is determined by where it starts:
      " ms" holds two non-digits, so it cannot begin inside a later group
      of digits split by a single other character. */
  lemma LatencyEndUnique(s: string, p: int, e: int, e': int)
    requires LatencyMatch(s, p, e) && LatencyMatch(s, p, e')
    ensures e == e'
  {
    var a :| SplitAt(s, p + 5, a, e);
    var a' :| SplitAt(s, p + 5, a', e');
    assert s[e] == s[e..e + 3][0] == ' ' && s[e + 1] == s[e..e + 3][1] == 'm';
    assert s[e'] == s[e'..e' + 3][0] == ' ' && s[e' + 1] == s[e'..e' + 3][1] == 'm';
    assert !IsDigit(s[e]) && !IsDigit(s[e + 1]) && !IsDigit(s[e']) && !IsDigit(s[e' + 1]);
  }

  /** Try the dividing character at `a`, then further right while the first
      run can still hold at most six digits. */
  function LatencyEndFrom(s: string, q: int, a: int): (r: Option<int>)
    requires 0 <= q < a
    ensures r.Some? ==> LatencyGroup(s, q, r.value) && OccursAt(s, " ms", r.value)
    ensures r.None? ==> forall a', e :: a <= a' ==> !(SplitAt(s, q, a', e) && OccursAt(s, " ms", e))
    decreases q + 7 - a
  {
    if a > q + 6 || a >= |s| then None
    else
      var e := RunEnd(s, a + 1);
      SplitEnds(s, q, a);
      if SplitAt(s, q, a, e) && OccursAt(s, " ms", e) then Some(e)
      else LatencyEndFrom(s, q, a + 1)
  }

  function LatencyEnd(s: string, p: int): (r: Option<int>)
    requires 0 <= p <= |s|
    ensures r.Some? ==> LatencyMatch(s, p, r.value)
    ensures r.None? ==> forall e :: !LatencyMatch(s, p, e)
  {
    if OccursAt(s, "time=", p) then LatencyEndFrom(s, p + 5, p + 6) else None
  }

  /** The latency match with the rightmost "time=" at or before `p`. */
  function FindLatencyFrom(s: string, p: int): (r: Option<(int, int)>)
    requires 0 <= p <= |s|
    ensures r.Some? ==> r.value.0 <= p && LatencyMatch(s, r.value.0, r.value.1)
    ensures r.Some? ==> forall q, e :: r.value.0 < q <= p ==> !LatencyMatch(s, q, e)
    ensures r.None? ==> forall q, e :: q <= p ==> !LatencyMatch(s, q, e)
    decreases p
  {
    match LatencyEnd(s, p)
    case Some(e) => Some((p, e))
    case None => if p == 0 then None else FindLatencyFrom(s, p - 1)
  }

  lemma RightmostLatencyUnique(s: string, p: int, e: int, p': int, e': int)
    requires RightmostLatency(s, p, e) && RightmostLatency(s, p', e')
    ensures p == p' && e == e'
  {
    assert !(p < p') && !(p' < p);
    LatencyEndUnique(s, p, e, e');
  }

  /** `parsePingLatency(pingString)`, with `Double.parseDouble` a parameter
      that returns a value or throws `NumberFormatException` (the group can
      hold any middle character, so it may throw). */
  function ParsePingLatency(pingString: string, parseDouble: string -> Throws<real>): (r: Throws<real>)
    ensures (forall p, e :: !LatencyMatch(pingString, p, e)) ==> r == Returns(-1.0)
    ensures (forall p, e :: !LatencyMatch(pingString, p, e)) || exists p, e :: RightmostLatency(pingString, p, e)
    ensures forall p, e :: RightmostLatency(pingString, p, e) ==> r == parseDouble(pingString[p + 5..e])
  {
    match FindLatencyFrom(pingString, |pingString|)
    case None => Returns(-1.0)
    case Some((p, e)) =>
      assert RightmostLatency(pingString, p, e);
      assert forall p', e' :: RightmostLatency(pingString, p', e') ==> p' == p && e' == e by {
        forall p', e' | RightmostLatency(pingString, p', e') ensures p' == p && e' == e {
          RightmostLatencyUnique(pingString, p, e, p', e');
        }
      }
      parseDouble(pingString[p + 5..e])
  }

  /** The text handed to `parseDouble` is digits, one character, digits. */
  lemma LatencyGroupText(s: string, p: int, e: int)
    requires LatencyMatch(s, p, e)
    ensures IsLatencyText(s[p + 5..e])
  {
    var t := s[p + 5..e];
    var a :| SplitAt(s, p + 5, a, e);
    assert forall k :: 0 <= k < |t| ==> t[k] == s[p + 5 + k];
    assert SplitAt(t, 0, a - p - 5, |t|);
  }

  /** The first non-empty string of `xs`, or `""`, computed from the front
      the way the fold meets them. */
  function FirstNonEmpty(xs: seq<string>): string
    decreases |xs|
  {
    if |xs| == 0 then ""
    else
      var first := FirstNonEmpty(xs[..|xs| - 1]);
      if first != "" then first else xs[|xs| - 1]
  }

  lemma {:induction false} FirstNonEmptyIsFirst(xs: seq<string>)
    ensures FirstNonEmpty(xs) == "" <==> forall k :: 0 <= k < |xs| ==> xs[k] == ""
    ensures FirstNonEmpty(xs) != "" ==> exists k :: 0 <= k < |xs| && FirstNonEmpty(xs) == xs[k] &&
                                                    forall j :: 0 <= j < k ==> xs[j] == ""
    decreases |xs|
  {
    if |xs| > 0 {
      var n := |xs| - 1;
      FirstNonEmptyIsFirst(xs[..n]);
      assert forall k :: 0 <= k < n ==> xs[..n][k] == xs[k];
    }
  }

  /** `parsePingIP` of every line. */
  function LineIPs(lines: seq<string>): (ips: seq<string>)
    ensures |ips| == |lines|
    ensures forall k :: 0 <= k < |lines| ==> ips[k] == ParsePingIP(lines[k])
  {
    seq(|lines|, k requires 0 <= k < |lines| => ParsePingIP(lines[k]))
  }

  /** The address the fold settles on. */
  function FirstIP(lines: seq<string>): string {
    FirstNonEmpty(LineIPs(lines))
  }

  /** `FirstIP` is the first non-empty address on any line, or `""`. */
  lemma FirstIPIsFirst(lines: seq<string>)
    ensures FirstIP(lines) == "" <==> forall k :: 0 <= k < |lines| ==> ParsePingIP(lines[k]) == ""
    ensures FirstIP(lines) != "" ==> exists k :: 0 <= k < |lines| && FirstIP(lines) == ParsePingIP(lines[k]) &&
                                                 forall j :: 0 <= j < k ==> ParsePingIP(lines[j]) == ""
  {
    var ips := LineIPs(lines);
    FirstNonEmptyIsFirst(ips);
    if FirstIP(lines) != "" {
      var k :| 0 <= k < |ips| && FirstNonEmpty(ips) == ips[k] && forall j :: 0 <= j < k ==> ips[j] == "";
      assert forall j :: 0 <= j < k ==> ParsePingIP(lines[j]) == "";
    }
  }

  lemma LineIPsSnoc(lines: seq<string>, i: int)
    requires 0 <= i < |lines|
    ensures LineIPs(lines[..i + 1]) == LineIPs(lines[..i]) + [ParsePingIP(lines[i])]
  {
  }

  /** One more line of output: the address found so far, else this line's. */
  lemma FirstIPStep(lines: seq<string>, i: int)
    requires 0 <= i < |lines|
    ensures FirstIP(lines[..i + 1]) == if FirstIP(lines[..i]) != "" then FirstIP(lines[..i]) else ParsePingIP(lines[i])
  {
    LineIPsSnoc(lines, i);
    var ips := LineIPs(lines[..i + 1]);
    assert ips[..|ips| - 1] == LineIPs(lines[..i]);
  }

  /** The latency the fold settles on for a reachable ping: each line is
      parsed while it is still -1, and the first exception ends the fold. */
  function FirstLatency(lines: seq<string>, parseDouble: string -> Throws<real>): Throws<real>
    decreases |lines|
  {
    if |lines| == 0 then Returns(-1.0)
    else
      var n := |lines| - 1;
      match FirstLatency(lines[..n], parseDouble)
      case Threw(x) => Threw(x)
      case Returns(v) => if v == -1.0 then ParsePingLatency(lines[n], parseDouble) else Returns(v)
  }

  /** One more line of output for a reachable ping: the fold parses it only
      while the latency is still -1. */
  lemma FirstLatencyStep(lines: seq<string>, i: int, parseDouble: string -> Throws<real>)
    requires 0 <= i < |lines|
    ensures FirstLatency(lines[..i + 1], parseDouble) ==
              match FirstLatency(lines[..i], parseDouble)
              case Threw(x) => Threw(x)
              case Returns(v) => if v == -1.0 then ParsePingLatency(lines[i], parseDouble) else Returns(v)
  {
    assert lines[..i + 1][..i] == lines[..i];
  }

  lemma {:induction false} FirstNonEmptySticks(xs: seq<string>, ys: seq<string>)
    ensures FirstNonEmpty(xs) != "" ==> FirstNonEmpty(xs + ys) == FirstNonEmpty(xs)
    decreases |ys|
  {
    if |ys| > 0 {
      FirstNonEmptySticks(xs, ys[..|ys| - 1]);
      assert (xs + ys)[..|xs + ys| - 1] == xs + ys[..|ys| - 1];
    } else {
      assert xs + ys == xs;
    }
  }

  lemma {:induction false} FirstLatencySticks(a: seq<string>, b: seq<string>, parseDouble: string -> Throws<real>)
    ensures FirstLatency(a, parseDouble).Returns? && FirstLatency(a, parseDouble).value != -1.0 ==>
              FirstLatency(a + b, parseDouble) == FirstLatency(a, parseDouble)
    ensures FirstLatency(a, parseDouble).Threw? ==> FirstLatency(a + b, parseDouble) == FirstLatency(a, parseDouble)
    decreases |b|
  {
    if |b| > 0 {
      var n := |b| - 1;
      FirstLatencySticks(a, b[..n], parseDouble);
      assert (a + b)[..|a + b| - 1] == a + b[..n];
    } else {
      assert a + b == a;
    }
  }

  /** Once the fold has an address, a latency or an exception, later lines
      change none of them. */
  lemma FoldResultsStick(a: seq<string>, b: seq<string>, parseDouble: string -> Throws<real>)
    ensures FirstIP(a) != "" ==> FirstIP(a + b) == FirstIP(a)
    ensures FirstLatency(a, parseDouble).Returns? && FirstLatency(a, parseDouble).value != -1.0 ==>
              FirstLatency(a + b, parseDouble) == FirstLatency(a, parseDouble)
    ensures FirstLatency(a, parseDouble).Threw? ==> FirstLatency(a + b, parseDouble) == FirstLatency(a, parseDouble)
  {
    assert LineIPs(a + b) == LineIPs(a) + LineIPs(b);
    FirstNonEmptySticks(LineIPs(a), LineIPs(b));
    FirstLatencySticks(a, b, parseDouble);
  }

  /** `pingSite(siteAddress)` once the process has finished: `reachable` is
      its zero exit status, `lines` its output, and `now` the time the
      response is created. */
  method PingSite(lines: seq<string>, reachable: bool, parseDouble: string -> Throws<real>, now: Time)
    returns (r: Throws<PingResponse>)
    ensures !reachable ==> r == Returns(PingResponse(false, FirstIP(lines), UNKNOWN_LATENCY, now))
    ensures reachable && FirstLatency(lines, parseDouble).Threw? ==> r == Threw(FirstLatency(lines, parseDouble).exception)
    ensures reachable && FirstLatency(lines, parseDouble).Returns? ==>
              r == Returns(PingResponse(true, FirstIP(lines), FirstLatency(lines, parseDouble).value, now))
  {
    var pingIP := "";
    var pingLatency := -1.0;
    var i := 0;
    while i < |lines|
      invariant 0 <= i <= |lines|
      invariant pingIP == FirstIP(lines[..i])
      invariant !reachable ==> pingLatency == -1.0
      invariant reachable ==> FirstLatency(lines[..i], parseDouble) == Returns(pingLatency)
      decreases |lines| - i
    {
      FirstIPStep(lines, i);
      FirstLatencyStep(lines, i, parseDouble);
      if pingIP == "" {
        pingIP := ParsePingIP(lines[i]);
      }
      if reachable && pingLatency == -1.0 {
        var parsed := ParsePingLatency(lines[i], parseDouble);
        if parsed.Threw? {
          FirstLatencySticks(lines[..i + 1], lines[i + 1..], parseDouble);
          assert lines[..i + 1] + lines[i + 1..] == lines;
          return Threw(parsed.exception);
        }
        pingLatency := parsed.value;
      }
      i := i + 1;
    }
    assert lines[..|lines|] == lines;
    return Returns(PingResponse(reachable, pingIP, pingLatency, now));
  }
}
