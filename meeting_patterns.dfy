/**
 * The five extractors that turn the body of a meeting e-mail into the
 * fields of a call record (demo.py:70-83). Each Python regular expression
 * is modelled twice: as a declarative predicate saying which substrings
 * match at a position, and as a scanner that finds the match `re` returns
 * (the leftmost start and, for these patterns, the longest match there).
 * The scanners are proved against the predicates.
 */
module MeetingPatterns {
  import opened Wrappers
  import opened Text

  // ---------------------------------------------------------------------------
  // Character classes
  // ---------------------------------------------------------------------------

  predicate IsDigit(c: char) { '0' <= c <= '9' }

  predicate IsAsciiLetter(c: char) { 'a' <= c <= 'z' || 'A' <= c <= 'Z' }

  /** `\w`, restricted to ASCII. */
  predicate IsWordChar(c: char) { IsDigit(c) || IsAsciiLetter(c) || c == '_' }

  /** `\b` at index `i`: exactly one of the characters on either side is a word character. */
  predicate AtWordBoundary(s: string, i: nat) {
    i <= |s| && ((0 < i && IsWordChar(s[i - 1])) != (i < |s| && IsWordChar(s[i])))
  }

  /**
   * Under `re.IGNORECASE`, the pattern letter `lower` (an ASCII lower-case
   * letter) matches its two ASCII cases; `i` also matches the dotted capital
   * I (U+0130) and the dotless small i (U+0131).
   */
  predicate MatchesLetterCI(c: char, lower: char) {
    || c == lower
    || ('a' <= lower <= 'z' && c as int == lower as int - 32)
    || (lower == 'i' && (c == '\U{130}' || c == '\U{131}'))
  }

  // ---------------------------------------------------------------------------
  // re.search
  // ---------------------------------------------------------------------------

  /**
   * The search loop of `re.search` from index `from`: the first start at
   * which `at` reports a match, with the end `at` chose there.
   */
  function SearchFrom(s: string, from: nat, at: (string, nat) -> Option<nat>): (r: Option<(nat, nat)>)
    ensures r.Some? ==> from <= r.value.0 <= |s| && at(s, r.value.0) == Some(r.value.1)
    ensures r.Some? ==> forall j: nat :: from <= j < r.value.0 ==> at(s, j).None?
    ensures r.None? ==> forall j: nat :: from <= j <= |s| ==> at(s, j).None?
    decreases |s| + 1 - from
  {
    if from > |s| then None
    else
      match at(s, from)
      case Some(e) => Some((from, e))
      case None => SearchFrom(s, from + 1, at)
  }

  // ---------------------------------------------------------------------------
  // call_time: \b(\d{1,2}:\d{2}\s?(AM|PM)?)\b, re.IGNORECASE
  // ---------------------------------------------------------------------------

  /** `\d{1,2}:\d{2}`. */
  predicate IsClock(t: string) {
    || (|t| == 4 && IsDigit(t[0]) && t[1] == ':' && IsDigit(t[2]) && IsDigit(t[3]))
    || (|t| == 5 && IsDigit(t[0]) && IsDigit(t[1]) && t[2] == ':' && IsDigit(t[3]) && IsDigit(t[4]))
  }

  /** `AM|PM` in either case. */
  predicate IsMeridiem(t: string) {
    |t| == 2 && (MatchesLetterCI(t[0], 'a') || MatchesLetterCI(t[0], 'p')) && MatchesLetterCI(t[1], 'm')
  }

  /** `\s?(AM|PM)?`. */
  predicate IsTimeTail(t: string) {
    || t == []
    || (|t| == 1 && IsSpace(t[0]))
    || IsMeridiem(t)
    || (|t| == 3 && IsSpace(t[0]) && IsMeridiem(t[1..]))
  }

  /** The text of a match, boundaries aside. */
  predicate IsTimeText(t: string) {
    || (4 <= |t| && IsClock(t[..4]) && IsTimeTail(t[4..]))
    || (5 <= |t| && IsClock(t[..5]) && IsTimeTail(t[5..]))
  }

  /** The pattern matches `s[i..e]`. */
  predicate TimeMatch(s: string, i: nat, e: nat) {
    i <= e <= |s| && AtWordBoundary(s, i) && AtWordBoundary(s, e) && IsTimeText(s[i..e])
  }

  /** The end of `\d{1,2}:\d{2}` at `i`, the two-digit hour tried first. */
  function ClockEnd(s: string, i: nat): (r: Option<nat>)
    ensures r.Some? ==> i + 4 <= r.value <= |s| && IsClock(s[i..r.value])
    ensures forall c: nat :: i <= c <= |s| && IsClock(s[i..c]) ==> r == Some(c)
  {
    if i + 5 <= |s| && IsClock(s[i..i + 5]) then Some(i + 5)
    else if i + 4 <= |s| && IsClock(s[i..i + 4]) then Some(i + 4)
    else None
  }

  /**
   * The end `re` gives a match of the time pattern starting at `i`, trying
   * the alternatives in the engine's order: with the space, with then
   * without AM/PM, then without the space.
   */
  function TimeAt(s: string, i: nat): (r: Option<nat>)
  {
    if i > |s| || !AtWordBoundary(s, i) then None
    else
      match ClockEnd(s, i)
      case None => None
      case Some(k) =>
        if k < |s| && IsSpace(s[k]) then
          if k + 3 <= |s| && IsMeridiem(s[k + 1..k + 3]) && AtWordBoundary(s, k + 3) then Some(k + 3)
          else if AtWordBoundary(s, k + 1) then Some(k + 1)
          else if AtWordBoundary(s, k) then Some(k)
          else None
        else if k + 2 <= |s| && IsMeridiem(s[k..k + 2]) && AtWordBoundary(s, k + 2) then Some(k + 2)
        else if AtWordBoundary(s, k) then Some(k)
        else None
  }

  /** A text that starts with a clock ending at `k` matches exactly when its tail does. */
  lemma TimeTextSplit(s: string, i: nat, k: nat, e: nat)
    requires i <= k <= e <= |s| && IsClock(s[i..k])
    ensures IsTimeText(s[i..e]) <==> IsTimeTail(s[k..e])
  {
    var t := s[i..e];
    assert t[..k - i] == s[i..k];
    assert t[k - i..] == s[k..e];
  }

  /** Whatever `TimeAt` returns is a match. */
  lemma TimeAtSound(s: string, i: nat)
    ensures TimeAt(s, i).Some? ==> TimeMatch(s, i, TimeAt(s, i).value)
  {
    if TimeAt(s, i).Some? {
      var k := ClockEnd(s, i).value;
      var e := TimeAt(s, i).value;
      TimeTextSplit(s, i, k, e);
      if e == k + 3 {
        assert s[k..e][1..] == s[k + 1..k + 3];
      } else if e == k + 2 {
        assert s[k..e] == s[k..k + 2];
      }
    }
  }

  /** Every match at `i` ends no later than the one `TimeAt` returns. */
  lemma TimeAtComplete(s: string, i: nat, e: nat)
    requires TimeMatch(s, i, e)
    ensures TimeAt(s, i).Some? && e <= TimeAt(s, i).value
  {
    var t := s[i..e];
    var c := if 5 <= |t| && IsClock(t[..5]) && IsTimeTail(t[5..]) then 5 else 4;
    assert t[..c] == s[i..i + c];
    var k := i + c;
    assert ClockEnd(s, i) == Some(k);
    TimeTextSplit(s, i, k, e);
    var tail := s[k..e];
    if |tail| == 1 {
      assert s[k] == tail[0];
    } else if |tail| == 2 {
      assert s[k..k + 2] == tail;
      assert !IsSpace(s[k]);
    } else if |tail| == 3 {
      assert s[k] == tail[0];
      assert s[k + 1..k + 3] == tail[1..];
    }
  }

  /** `TimeAt` finds a match whenever there is one, and the longest one. */
  lemma TimeAtIsLongest(s: string, i: nat)
    ensures TimeAt(s, i).Some? ==> TimeMatch(s, i, TimeAt(s, i).value)
    ensures forall e: nat :: TimeMatch(s, i, e) ==> TimeAt(s, i).Some? && e <= TimeAt(s, i).value
  {
    TimeAtSound(s, i);
    forall e: nat | TimeMatch(s, i, e) ensures TimeAt(s, i).Some? && e <= TimeAt(s, i).value {
      TimeAtComplete(s, i, e);
    }
  }

  /** `TimeAtIsLongest` at every start. */
  lemma TimeAtEverywhere(s: string)
    ensures forall i: nat :: TimeAt(s, i).Some? ==> TimeMatch(s, i, TimeAt(s, i).value)
    ensures forall i: nat, e: nat :: TimeMatch(s, i, e) ==> TimeAt(s, i).Some? && e <= TimeAt(s, i).value
  {
    forall i: nat ensures TimeAt(s, i).Some? ==> TimeMatch(s, i, TimeAt(s, i).value) {
      TimeAtIsLongest(s, i);
    }
    forall i: nat, e: nat | TimeMatch(s, i, e) ensures TimeAt(s, i).Some? && e <= TimeAt(s, i).value {
      TimeAtIsLongest(s, i);
    }
  }

  /** `re.search` for the time pattern: the leftmost match, and the longest one there. */
  function FindTime(s: string): (r: Option<(nat, nat)>)
    ensures r.Some? ==> TimeMatch(s, r.value.0, r.value.1)
    ensures r.Some? ==> forall e: nat :: TimeMatch(s, r.value.0, e) ==> e <= r.value.1
    ensures forall i: nat, e: nat :: TimeMatch(s, i, e) ==> r.Some? && r.value.0 <= i
  {
    TimeAtEverywhere(s);
    SearchFrom(s, 0, TimeAt)
  }

  /** `call_time`: the matched text, or "N/A" exactly when the body holds no time. */
  function CallTime(body: string): (r: string)
    ensures r == "N/A" <==> forall i: nat, e: nat :: !TimeMatch(body, i, e)
    ensures r != "N/A" ==> IsTimeText(r)
    ensures r != "N/A" ==> exists i: nat, e: nat ::
      && TimeMatch(body, i, e) && r == body[i..e]
      && (forall i': nat, e': nat :: TimeMatch(body, i', e') ==> i <= i')
      && (forall e': nat :: TimeMatch(body, i, e') ==> e' <= e)
  {
    match FindTime(body)
    case None => "N/A"
    case Some((i, e)) =>
      assert body[i..e][0] == body[i];
      assert TimeMatch(body, i, e);
      body[i..e]
  }

  const SampleLine: string := "Let's meet at 3:30 PM tomorrow"

  /** At index 14 of the sample line the time pattern takes "3:30 PM". */
  lemma SampleTimeAt()
    ensures TimeAt(SampleLine, 14) == Some(21)
    ensures SampleLine[14..21] == "3:30 PM"
  {
    var s := SampleLine;
    assert s[13] == ' ' && s[14] == '3' && s[15] == ':' && s[16] == '3' && s[17] == '0';
    assert s[18] == ' ' && s[19] == 'P' && s[20] == 'M' && s[21] == ' ';
    assert IsClock(s[14..18]) && !IsClock(s[14..19]);
    assert ClockEnd(s, 14) == Some(18);
    assert IsMeridiem(s[19..21]);
    assert s[14..21] == "3:30 PM";
  }

  /** No match starts before index 14 of the sample line: there is no digit there. */
  lemma SampleNoEarlierTime()
    ensures forall j: nat, e: nat :: j < 14 ==> !TimeMatch(SampleLine, j, e)
  {
    var s := SampleLine;
    var lead := "Let's meet at ";
    assert s[..14] == lead;
    assert forall c :: c in lead ==> !IsDigit(c);
    forall j: nat, e: nat | j < 14 && j < e <= |s| ensures !IsTimeText(s[j..e]) {
      assert s[j..e][0] == s[j] == lead[j];
    }
  }

  /** The search for a time in the sample line stops at index 14 and takes "3:30 PM". */
  lemma SampleFindTime()
    ensures FindTime(SampleLine) == Some((14, 21))
  {
    SampleTimeAt();
    TimeAtIsLongest(SampleLine, 14);
    SampleNoEarlierTime();
    var r := FindTime(SampleLine);
    assert r.value.0 == 14;
  }

  /** The time of day in "Let's meet at 3:30 PM tomorrow", with its meridiem. */
  lemma CallTimeExample()
    ensures CallTime(SampleLine) == "3:30 PM"
  {
    SampleTimeAt();
    SampleFindTime();
  }

  // ---------------------------------------------------------------------------
  // meet_url: https?://[^\s]+
  // ---------------------------------------------------------------------------

  predicate NoSpace(t: string) {
    forall k :: 0 <= k < |t| ==> !IsSpace(t[k])
  }

  /** The text of a match: a scheme and at least one character that is not whitespace. */
  predicate IsUrlText(t: string) {
    || (8 < |t| && t[..8] == "https://" && NoSpace(t[8..]))
    || (7 < |t| && t[..7] == "http://" && NoSpace(t[7..]))
  }

  predicate UrlMatch(s: string, i: nat, e: nat) {
    i <= e <= |s| && IsUrlText(s[i..e])
  }

  /** The end `re` gives a match at `i`: `https://` tried before `http://`, then the longest run of non-whitespace. */
  function UrlAt(s: string, i: nat): Option<nat> {
    if i > |s| then None
    else
      var h := if OccursAt(s, "https://", i) then 8 else if OccursAt(s, "http://", i) then 7 else 0;
      if h == 0 then None
      else
        var e := RunEnd(s, i + h, c => !IsSpace(c));
        if e == i + h then None else Some(e)
  }

  /** Whatever `UrlAt` returns is a match. */
  lemma UrlAtSound(s: string, i: nat)
    ensures UrlAt(s, i).Some? ==> UrlMatch(s, i, UrlAt(s, i).value)
  {
    if UrlAt(s, i).Some? {
      var e := UrlAt(s, i).value;
      var h := if OccursAt(s, "https://", i) then 8 else 7;
      var t := s[i..e];
      assert t[..h] == s[i..i + h];
      assert NoSpace(t[h..]) by {
        forall k | 0 <= k < |t[h..]| ensures !IsSpace(t[h..][k]) {
          assert t[h..][k] == s[i + h + k];
        }
      }
    }
  }

  /** The run of non-whitespace after a scheme of length `h` at `i` reaches at least to `e`. */
  lemma UrlRunReaches(s: string, i: nat, h: nat, e: nat)
    requires i + h < e <= |s| && NoSpace(s[i..e][h..])
    ensures RunEnd(s, i + h, c => !IsSpace(c)) >= e
  {
    var t := s[i..e];
    forall m | i + h <= m < e ensures !IsSpace(s[m]) {
      assert s[m] == t[h..][m - i - h];
    }
  }

  /** Every match at `i` ends no later than the one `UrlAt` returns. */
  lemma UrlAtComplete(s: string, i: nat, e: nat)
    requires UrlMatch(s, i, e)
    ensures UrlAt(s, i).Some? && e <= UrlAt(s, i).value
  {
    var t := s[i..e];
    if 8 < |t| && t[..8] == "https://" && NoSpace(t[8..]) {
      assert s[i..i + 8] == t[..8];
      UrlRunReaches(s, i, 8, e);
    } else {
      assert s[i..i + 7] == t[..7];
      assert s[i + 4] == t[4];
      assert !OccursAt(s, "https://", i);
      UrlRunReaches(s, i, 7, e);
    }
  }

  /** `UrlAt` finds a match whenever there is one, and the longest one. */
  lemma UrlAtIsLongest(s: string, i: nat)
    ensures UrlAt(s, i).Some? ==> UrlMatch(s, i, UrlAt(s, i).value)
    ensures forall e: nat :: UrlMatch(s, i, e) ==> UrlAt(s, i).Some? && e <= UrlAt(s, i).value
  {
    UrlAtSound(s, i);
    forall e: nat | UrlMatch(s, i, e) ensures UrlAt(s, i).Some? && e <= UrlAt(s, i).value {
      UrlAtComplete(s, i, e);
    }
  }

  /** `UrlAtIsLongest` at every start. */
  lemma UrlAtEverywhere(s: string)
    ensures forall i: nat :: UrlAt(s, i).Some? ==> UrlMatch(s, i, UrlAt(s, i).value)
    ensures forall i: nat, e: nat :: UrlMatch(s, i, e) ==> UrlAt(s, i).Some? && e <= UrlAt(s, i).value
  {
    forall i: nat ensures UrlAt(s, i).Some? ==> UrlMatch(s, i, UrlAt(s, i).value) {
      UrlAtIsLongest(s, i);
    }
    forall i: nat, e: nat | UrlMatch(s, i, e) ensures UrlAt(s, i).Some? && e <= UrlAt(s, i).value {
      UrlAtIsLongest(s, i);
    }
  }

  /** `re.search` for the URL pattern: the leftmost match, and the longest one there. */
  function FindUrl(s: string): (r: Option<(nat, nat)>)
    ensures r.Some? ==> UrlMatch(s, r.value.0, r.value.1)
    ensures r.Some? ==> forall e: nat :: UrlMatch(s, r.value.0, e) ==> e <= r.value.1
    ensures forall i: nat, e: nat :: UrlMatch(s, i, e) ==> r.Some? && r.value.0 <= i
  {
    UrlAtEverywhere(s);
    SearchFrom(s, 0, UrlAt)
  }

  /** `meet_url`: the matched link, or "N/A" exactly when the body holds none. */
  function MeetUrl(body: string): (r: string)
    ensures r == "N/A" <==> forall i: nat, e: nat :: !UrlMatch(body, i, e)
    ensures r != "N/A" ==> IsUrlText(r)
    ensures r != "N/A" ==> exists i: nat, e: nat ::
      && UrlMatch(body, i, e) && r == body[i..e]
      && (forall i': nat, e': nat :: UrlMatch(body, i', e') ==> i <= i')
      && (forall e': nat :: UrlMatch(body, i, e') ==> e' <= e)
  {
    match FindUrl(body)
    case None => "N/A"
    case Some((i, e)) =>
      assert UrlMatch(body, i, e);
      body[i..e]
  }

  // ---------------------------------------------------------------------------
  // attendees: [a-zA-Z0-9._%+-]+@[a-zA-Z0-9.-]+\.[a-zA-Z]{2,}
  // ---------------------------------------------------------------------------

  predicate IsLocalChar(c: char) {
    IsAsciiLetter(c) || IsDigit(c) || c == '.' || c == '_' || c == '%' || c == '+' || c == '-'
  }

  predicate IsDomainChar(c: char) {
    IsAsciiLetter(c) || IsDigit(c) || c == '.' || c == '-'
  }

  /**
   * `s[i..e]` matches with the `@` at `at` and the dot before the
   * top-level label at `dot`.
   */
  predicate EmailSpan(s: string, i: nat, at: nat, dot: nat, e: nat) {
    && i < at && at + 2 <= dot && dot + 3 <= e <= |s|
    && (forall k :: i <= k < at ==> IsLocalChar(s[k]))
    && s[at] == '@'
    && (forall k :: at < k < dot ==> IsDomainChar(s[k]))
    && s[dot] == '.'
    && (forall k :: dot < k < e ==> IsAsciiLetter(s[k]))
  }

  ghost predicate EmailMatch(s: string, i: nat, e: nat) {
    exists at: nat, dot: nat :: EmailSpan(s, i, at, dot, e)
  }

  /** A dot at `x` followed by at least two ASCII letters. */
  predicate TldAt(s: string, x: nat) {
    x < |s| && s[x] == '.' && RunEnd(s, x + 1, IsAsciiLetter) >= x + 3
  }

  /** The last index in `[lo, hi)` where `TldAt` holds: the backtracking of the greedy domain part. */
  function LastTldDot(s: string, lo: nat, hi: nat): (r: Option<nat>)
    requires hi <= |s|
    ensures r.Some? ==> lo <= r.value < hi && TldAt(s, r.value)
    ensures r.Some? ==> forall x: nat :: r.value < x < hi ==> !TldAt(s, x)
    ensures r.None? ==> forall x: nat :: lo <= x < hi ==> !TldAt(s, x)
    decreases hi
  {
    if hi <= lo then None
    else if TldAt(s, hi - 1) then Some(hi - 1)
    else LastTldDot(s, lo, hi - 1)
  }

  /** The end `re` gives a match at `i`. */
  function EmailAt(s: string, i: nat): (r: Option<nat>)
    ensures r.Some? ==> i + 6 <= r.value <= |s|
  {
    if i >= |s| then None
    else
      var at := RunEnd(s, i, IsLocalChar);
      if at == i || at == |s| || s[at] != '@' then None
      else
        var d := RunEnd(s, at + 1, IsDomainChar);
        match LastTldDot(s, at + 2, d)
        case None => None
        case Some(dot) => Some(RunEnd(s, dot + 1, IsAsciiLetter))
  }

  /** Whatever `EmailAt` returns is a match. */
  lemma EmailAtSound(s: string, i: nat)
    ensures EmailAt(s, i).Some? ==> EmailMatch(s, i, EmailAt(s, i).value)
  {
    if EmailAt(s, i).Some? {
      var at := RunEnd(s, i, IsLocalChar);
      var d := RunEnd(s, at + 1, IsDomainChar);
      var dot := LastTldDot(s, at + 2, d).value;
      assert EmailSpan(s, i, at, dot, EmailAt(s, i).value);
    }
  }

  /** Every match at `i` ends no later than the one `EmailAt` returns. */
  lemma EmailAtComplete(s: string, i: nat, at: nat, dot: nat, e: nat)
    requires EmailSpan(s, i, at, dot, e)
    ensures EmailAt(s, i).Some? && e <= EmailAt(s, i).value
  {
    assert !IsLocalChar(s[at]);
    assert RunEnd(s, i, IsLocalChar) == at;
    var d := RunEnd(s, at + 1, IsDomainChar);
    assert IsDomainChar(s[dot]);
    assert dot < d;
    assert TldAt(s, dot);
    var last := LastTldDot(s, at + 2, d).value;
    if last > dot {
      assert !IsAsciiLetter(s[last]);
      assert e <= last;
    }
  }

  /** `EmailAt` finds a match whenever there is one, and the longest one. */
  lemma EmailAtEverywhere(s: string)
    ensures forall i: nat :: EmailAt(s, i).Some? ==> EmailMatch(s, i, EmailAt(s, i).value)
    ensures forall i: nat, e: nat :: EmailMatch(s, i, e) ==> EmailAt(s, i).Some? && e <= EmailAt(s, i).value
  {
    forall i: nat ensures EmailAt(s, i).Some? ==> EmailMatch(s, i, EmailAt(s, i).value) {
      EmailAtSound(s, i);
    }
    forall i: nat, e: nat | EmailMatch(s, i, e) ensures EmailAt(s, i).Some? && e <= EmailAt(s, i).value {
      var at: nat, dot: nat :| EmailSpan(s, i, at, dot, e);
      EmailAtComplete(s, i, at, dot, e);
    }
  }

  /** A matcher whose matches are never empty, so that `findall` moves forward. */
  ghost predicate Advances(at: (string, nat) -> Option<nat>) {
    forall t: string, i: nat :: at(t, i).Some? ==> i < at(t, i).value <= |t|
  }

  /**
   * The loop of `re.findall` from index `from`: each match is the leftmost
   * one at or after the end of the previous.
   */
  function FindAll(s: string, from: nat, at: (string, nat) -> Option<nat>): seq<(nat, nat)>
    requires Advances(at)
    decreases |s| + 1 - from
  {
    match SearchFrom(s, from, at)
    case None => []
    case Some((i, e)) => [(i, e)] + FindAll(s, e, at)
  }

  /** Each returned pair is a match `at` finds, and the matches follow one another without overlap. */
  lemma {:induction false} FindAllInOrder(s: string, from: nat, at: (string, nat) -> Option<nat>)
    requires Advances(at)
    ensures forall k :: 0 <= k < |FindAll(s, from, at)| ==>
      from <= FindAll(s, from, at)[k].0 && at(s, FindAll(s, from, at)[k].0) == Some(FindAll(s, from, at)[k].1)
    ensures forall k :: 0 < k < |FindAll(s, from, at)| ==> FindAll(s, from, at)[k - 1].1 <= FindAll(s, from, at)[k].0
    decreases |s| + 1 - from
  {
    var r := FindAll(s, from, at);
    match SearchFrom(s, from, at)
    case None =>
    case Some((i, e)) =>
      var rest := FindAll(s, e, at);
      assert r == [(i, e)] + rest;
      FindAllInOrder(s, e, at);
      assert forall k :: 0 < k < |r| ==> r[k] == rest[k - 1];
  }

  /**
   * Nothing is skipped: every index at which a match starts lies inside
   * one of the returned matches.
   */
  lemma {:induction false} FindAllCovers(s: string, from: nat, at: (string, nat) -> Option<nat>, j: nat)
    requires Advances(at)
    requires from <= j && at(s, j).Some?
    ensures exists k :: 0 <= k < |FindAll(s, from, at)| && FindAll(s, from, at)[k].0 <= j < FindAll(s, from, at)[k].1
    decreases |s| + 1 - from
  {
    var r := FindAll(s, from, at);
    match SearchFrom(s, from, at)
    case None =>
      assert false;
    case Some((i, e)) =>
      assert r[0] == (i, e);
      if j >= e {
        FindAllCovers(s, e, at, j);
        var rest := FindAll(s, e, at);
        var k :| 0 <= k < |rest| && rest[k].0 <= j < rest[k].1;
        assert r[k + 1] == rest[k];
      }
  }

  /** The address matcher never returns an empty match. */
  lemma EmailAtAdvances()
    ensures Advances(EmailAt)
  {
    forall t: string, i: nat | EmailAt(t, i).Some? ensures i < EmailAt(t, i).value <= |t| {}
  }

  /**
   * `re.findall` for the address pattern over the whole body: every pair is
   * the match found at its start, and the matches come in order without overlap.
   */
  function FindAllEmails(s: string): (r: seq<(nat, nat)>)
    ensures forall k :: 0 <= k < |r| ==> EmailAt(s, r[k].0) == Some(r[k].1) && r[k].0 + 6 <= r[k].1 <= |s|
    ensures forall k :: 0 < k < |r| ==> r[k - 1].1 <= r[k].0
  {
    EmailAtAdvances();
    FindAllInOrder(s, 0, EmailAt);
    FindAll(s, 0, EmailAt)
  }

  /** `findall` comes back empty exactly when no address matches anywhere in `s`. */
  lemma FindAllEmailsEmpty(s: string)
    ensures FindAllEmails(s) == [] <==> forall i: nat, e: nat :: !EmailMatch(s, i, e)
  {
    EmailAtEverywhere(s);
    EmailAtAdvances();
    var spans := FindAllEmails(s);
    if spans == [] {
      forall i: nat | EmailAt(s, i).Some? ensures false {
        FindAllCovers(s, 0, EmailAt, i);
      }
    } else {
      FindAllInOrder(s, 0, EmailAt);
      assert EmailMatch(s, spans[0].0, spans[0].1);
    }
  }

  /** `attendees`: every address in the body in order, or `["N/A"]` exactly when there is none. */
  function Attendees(body: string): (r: seq<string>)
    ensures r == ["N/A"] <==> forall i: nat, e: nat :: !EmailMatch(body, i, e)
    ensures r != ["N/A"] ==> |r| == |FindAllEmails(body)|
    ensures r != ["N/A"] ==> forall k :: 0 <= k < |r| ==>
      r[k] == body[FindAllEmails(body)[k].0..FindAllEmails(body)[k].1]
  {
    var spans := FindAllEmails(body);
    FindAllEmailsEmpty(body);
    if spans == [] then ["N/A"]
    else
      var r := seq(|spans|, k requires 0 <= k < |spans| => body[spans[k].0..spans[k].1]);
      assert |r[0]| >= 6;
      r
  }

  // ---------------------------------------------------------------------------
  // agenda and client_name: <word>[:\-]?\s*(.*), re.IGNORECASE
  // ---------------------------------------------------------------------------

  /** The keyword `kw` (written in lower case) occurs at `i`, in any case. */
  predicate KeywordAt(s: string, kw: string, i: nat) {
    i + |kw| <= |s| && forall k :: 0 <= k < |kw| ==> MatchesLetterCI(s[i + k], kw[k])
  }

  /** A match of the label pattern at `i` exists exactly when the keyword does; it ends after the keyword. */
  function KeywordEnd(kw: string): (string, nat) -> Option<nat> {
    (s: string, i: nat) => if KeywordAt(s, kw, i) then Some(i + |kw|) else None
  }

  /**
   * Group 1 of `[:\-]?\s*(.*)` after a keyword ending at `k` is `s[start..lineEnd]`:
   * the optional separator is taken when present, `\s*` takes the whole
   * whitespace run after it (line breaks too), and `.` stops at a line break.
   * Each part is greedy and `(.*)` always matches, so nothing backtracks.
   */
  predicate GroupSpan(s: string, k: nat, start: nat, lineEnd: nat) {
    var g := if k < |s| && (s[k] == ':' || s[k] == '-') then k + 1 else k;
    && g <= start <= lineEnd <= |s|
    && (forall m :: g <= m < start ==> IsSpace(s[m]))
    && (start == |s| || !IsSpace(s[start]))
    && (forall m :: start <= m < lineEnd ==> s[m] != '\n')
    && (lineEnd == |s| || s[lineEnd] == '\n')
  }

  /** `i` is the first index where the keyword occurs, in any case. */
  predicate FirstKeywordAt(s: string, kw: string, i: nat) {
    KeywordAt(s, kw, i) && forall j: nat :: j < i ==> !KeywordAt(s, kw, j)
  }

  /** The span of group 1 after a keyword ending at `k`. */
  function GroupBounds(s: string, k: nat): (b: (nat, nat))
    requires k <= |s|
    ensures GroupSpan(s, k, b.0, b.1)
  {
    var sepEnd := if k < |s| && (s[k] == ':' || s[k] == '-') then k + 1 else k;
    var start := RunEnd(s, sepEnd, IsSpace);
    (start, RunEnd(s, start, c => c != '\n'))
  }

  /** Group 1, stripped, for a keyword ending at `k`. */
  function RestOfLine(s: string, k: nat): (r: string)
    requires k <= |s|
    ensures '\n' !in r && Stripped(r)
    ensures exists start: nat, lineEnd: nat :: GroupSpan(s, k, start, lineEnd) && r == Strip(s[start..lineEnd])
  {
    var b := GroupBounds(s, k);
    assert '\n' !in s[b.0..b.1];
    Strip(s[b.0..b.1])
  }

  /**
   * The value of a label: the stripped rest of the line after the first
   * occurrence of `kw`, or "N/A" when `kw` occurs nowhere.
   */
  function LabelValue(s: string, kw: string): (r: string)
    ensures '\n' !in r && Stripped(r)
    ensures (forall i: nat :: !KeywordAt(s, kw, i)) ==> r == "N/A"
    ensures (exists i: nat :: KeywordAt(s, kw, i)) ==> exists i: nat, start: nat, lineEnd: nat ::
      FirstKeywordAt(s, kw, i) && GroupSpan(s, i + |kw|, start, lineEnd) && r == Strip(s[start..lineEnd])
  {
    match SearchFrom(s, 0, KeywordEnd(kw))
    case None =>
      assert forall i: nat | KeywordAt(s, kw, i) :: i <= |s| && KeywordEnd(kw)(s, i).Some?;
      "N/A"
    case Some((i, k)) =>
      assert KeywordEnd(kw)(s, i) == Some(k);
      assert FirstKeywordAt(s, kw, i) by {
        forall j: nat | j < i ensures !KeywordAt(s, kw, j) {
          assert KeywordEnd(kw)(s, j).None?;
        }
      }
      var b := GroupBounds(s, k);
      assert GroupSpan(s, i + |kw|, b.0, b.1);
      RestOfLine(s, k)
  }

  /** The search for a label stops at the first occurrence of its keyword. */
  lemma FirstKeyword(s: string, kw: string, i: nat)
    requires FirstKeywordAt(s, kw, i)
    ensures SearchFrom(s, 0, KeywordEnd(kw)) == Some((i, i + |kw|))
  {
    assert KeywordEnd(kw)(s, i) == Some(i + |kw|);
    forall j: nat | j < i ensures KeywordEnd(kw)(s, j).None? {}
  }

  /** A run that stops at the first index failing `p` is determined by that index. */
  lemma RunEndAt(s: string, j: nat, e: nat, p: char -> bool)
    requires j <= e <= |s| && (forall m :: j <= m < e ==> p(s[m])) && (e == |s| || !p(s[e]))
    ensures RunEnd(s, j, p) == e
  {
  }

  /** The stripped group read after a keyword ending at `k` is the strip of the span `GroupSpan` fixes. */
  lemma RestOfLineIs(s: string, k: nat, start: nat, lineEnd: nat)
    requires k <= |s| && GroupSpan(s, k, start, lineEnd)
    ensures RestOfLine(s, k) == Strip(s[start..lineEnd])
  {
    var g := if k < |s| && (s[k] == ':' || s[k] == '-') then k + 1 else k;
    RunEndAt(s, g, start, IsSpace);
    RunEndAt(s, start, lineEnd, c => c != '\n');
  }

  /**
   * The value of a label is the stripped rest of the line after its first
   * keyword, the optional separator and any whitespace.
   */
  lemma LabelAt(s: string, kw: string, i: nat, start: nat, lineEnd: nat)
    requires FirstKeywordAt(s, kw, i) && GroupSpan(s, i + |kw|, start, lineEnd)
    ensures LabelValue(s, kw) == Strip(s[start..lineEnd])
  {
    FirstKeyword(s, kw, i);
    RestOfLineIs(s, i + |kw|, start, lineEnd);
  }

  /** Where the pieces of `pre + word + sep + gap + v + post` sit. */
  lemma LabelLayout(pre: string, word: string, sep: string, gap: string, v: string, post: string)
    requires |sep| == 1
    ensures var s, k := pre + word + sep + gap + v + post, |pre| + |word|;
      && s[..k] == pre + word
      && s[|pre|..k] == word
      && s[k] == sep[0]
      && (forall m :: k < m < k + 1 + |gap| ==> s[m] == gap[m - k - 1])
      && s[k + 1 + |gap|..k + 1 + |gap| + |v|] == v
      && (k + 1 + |gap| + |v| < |s| ==> s[k + 1 + |gap| + |v|] == post[0])
  {
    var head, tail := pre + word, sep + gap + v + post;
    var s := head + tail;
    assert s == pre + word + sep + gap + v + post;
    var k := |head|;
    assert s[k..] == tail;
    assert tail[1 + |gap|..1 + |gap| + |v|] == v;
    forall m | k < m < k + 1 + |gap| ensures s[m] == gap[m - k - 1] {
      assert s[m] == tail[m - k];
    }
  }

  /**
   * A label written as `<keyword><sep><whitespace><value><line end>` with
   * no earlier occurrence of the keyword yields the stripped value; a
   * trailing carriage return, as in a CRLF line, is stripped with the rest.
   */
  lemma LabelOnLine(pre: string, word: string, sep: string, gap: string, v: string, post: string, kw: string)
    requires |word| == |kw| && forall k :: 0 <= k < |kw| ==> MatchesLetterCI(word[k], kw[k])
    requires forall j: nat :: j < |pre| ==> !KeywordAt(pre + word, kw, j)
    requires sep == ":" || sep == "-"
    requires AllSpace(gap)
    requires v != [] && !IsSpace(v[0]) && '\n' !in v
    requires post == [] || post[0] == '\n'
    ensures LabelValue(pre + word + sep + gap + v + post, kw) == Strip(v)
  {
    var s := pre + word + sep + gap + v + post;
    var i, k := |pre|, |pre| + |word|;
    var start, lineEnd := k + 1 + |gap|, k + 1 + |gap| + |v|;
    LabelLayout(pre, word, sep, gap, v, post);
    KeywordFirstAt(s, kw, word, i, pre + word);
    forall m | start <= m < lineEnd ensures s[m] != '\n' {
      assert s[m] == s[start..lineEnd][m - start];
    }
    assert s[start] == s[start..lineEnd][0];
    assert GroupSpan(s, k, start, lineEnd);
    LabelAt(s, kw, i, start, lineEnd);
  }

  /** A keyword that would end by `k` occurs in `s` exactly when it occurs in `s[..k]`. */
  lemma KeywordInPrefix(s: string, kw: string, j: nat, k: nat)
    requires j + |kw| <= k <= |s|
    ensures KeywordAt(s, kw, j) <==> KeywordAt(s[..k], kw, j)
  {
    assert forall n :: j <= n < j + |kw| ==> s[..k][n] == s[n];
  }

  /**
   * A keyword spelled `word` at `i`, with no keyword starting earlier in
   * `head` (the text up to its end), is the first keyword of `s`.
   */
  lemma KeywordFirstAt(s: string, kw: string, word: string, i: nat, head: string)
    requires i + |word| <= |s| && s[i..i + |word|] == word && head == s[..i + |word|]
    requires |word| == |kw| && forall k :: 0 <= k < |kw| ==> MatchesLetterCI(word[k], kw[k])
    requires forall j: nat :: j < i ==> !KeywordAt(head, kw, j)
    ensures FirstKeywordAt(s, kw, i)
  {
    var k := i + |word|;
    forall j: nat | j < i ensures !KeywordAt(s, kw, j) {
      KeywordInPrefix(s, kw, j, k);
    }
    assert KeywordAt(s, kw, i) by {
      forall m | 0 <= m < |kw| ensures MatchesLetterCI(s[i + m], kw[m]) {
        assert s[i + m] == s[i..k][m] == word[m];
      }
    }
  }

  /** A trailing carriage return is whitespace, so strip removes it. */
  lemma StripCarriageReturn()
    ensures Strip("Q3 review\r") == "Q3 review"
  {
    var v := "Q3 review\r";
    assert v[..0] == [] && v[9..] == "\r" && v[0..9] == "Q3 review";
    assert Stripped(v[0..9]) by {
      assert v[0..9][0] == 'Q' && v[0..9][8] == 'w';
    }
    StripAt(v, 0, 9);
  }

  /** A CRLF line: `Agenda: Q3 review\r\n...` gives `Q3 review`. */
  lemma CrlfLabel(rest: string)
    ensures LabelValue("Agenda: Q3 review\r\n" + rest, "agenda") == "Q3 review"
  {
    var v := "Q3 review\r";
    assert "Agenda: Q3 review\r\n" + rest == [] + "Agenda" + ":" + " " + v + ("\n" + rest);
    assert forall k :: 0 <= k < 6 ==> MatchesLetterCI("Agenda"[k], "agenda"[k]);
    assert AllSpace(" ") && '\n' !in v && !IsSpace(v[0]);
    LabelOnLine([], "Agenda", ":", " ", v, "\n" + rest, "agenda");
    StripCarriageReturn();
  }

  /** A label line whose keyword has no `:` or `-` after it. */
  const NoSeparatorLine: string := "agenda budget\n"

  /** The keyword of `agenda budget` starts the line. */
  lemma NoSeparatorKeyword()
    ensures FirstKeywordAt(NoSeparatorLine, "agenda", 0)
  {
    assert NoSeparatorLine[..6] == "agenda";
    assert forall k :: 0 <= k < 6 ==> NoSeparatorLine[k] == NoSeparatorLine[..6][k];
  }

  /** With no `:` or `-`, group 1 starts after the space that follows the keyword. */
  lemma NoSeparatorSpan()
    ensures GroupSpan(NoSeparatorLine, 6, 7, 13)
  {
    var s := NoSeparatorLine;
    assert s[6] == ' ' && s[7] == 'b' && s[13] == '\n';
    assert s[7..13] == "budget";
    forall m | 7 <= m < 13 ensures s[m] != '\n' {
      assert s[m] == s[7..13][m - 7];
    }
  }

  /** Without a separator: `agenda budget` on its own line gives `budget`. */
  lemma LabelWithoutSeparator()
    ensures LabelValue(NoSeparatorLine, "agenda") == "budget"
  {
    NoSeparatorKeyword();
    NoSeparatorSpan();
    LabelAt(NoSeparatorLine, "agenda", 0, 7, 13);
    NoSeparatorValue();
  }

  /** Group 1 of `agenda budget` is `budget`, already stripped. */
  lemma NoSeparatorValue()
    ensures Strip(NoSeparatorLine[7..13]) == "budget"
  {
    assert NoSeparatorLine[7..13] == "budget";
    assert Stripped("budget") by {
      assert "budget"[0] == 'b' && "budget"[5] == 't';
    }
    StripStripped("budget");
  }

  /** `agenda`: the stripped rest of the line after the first "agenda", or "N/A". */
  function Agenda(body: string): (r: string)
    ensures '\n' !in r && Stripped(r)
    ensures (forall i: nat :: !KeywordAt(body, "agenda", i)) ==> r == "N/A"
    ensures (exists i: nat :: KeywordAt(body, "agenda", i)) ==> exists i: nat, start: nat, lineEnd: nat ::
      FirstKeywordAt(body, "agenda", i) && GroupSpan(body, i + 6, start, lineEnd) && r == Strip(body[start..lineEnd])
  {
    LabelValue(body, "agenda")
  }

  /** `client_name`: the stripped rest of the line after the first "client", or "N/A". */
  function ClientName(body: string): (r: string)
    ensures '\n' !in r && Stripped(r)
    ensures (forall i: nat :: !KeywordAt(body, "client", i)) ==> r == "N/A"
    ensures (exists i: nat :: KeywordAt(body, "client", i)) ==> exists i: nat, start: nat, lineEnd: nat ::
      FirstKeywordAt(body, "client", i) && GroupSpan(body, i + 6, start, lineEnd) && r == Strip(body[start..lineEnd])
  {
    LabelValue(body, "client")
  }
}
