/**
 * What `fetch_all_emails` (demo.py:8-113) does with the messages once the
 * mailbox has handed them over: picks each message's body, routes it by
 * its subject, and collects regular e-mails and call records in mailbox
 * order. The IMAP session and the header decoding are outside the model:
 * a message arrives with its headers already decoded, or with `None` where
 * decoding raised.
 */
module FetchEmails {
  import opened Wrappers
  import opened Text
  import opened MeetingPatterns

  /**
   * One node of `msg.walk()`: its Content-Disposition header as `str()`
   * renders it ("None" when absent), and the text of
   * `get_payload(decode=True).decode()`, or `None` when that raised (the
   * payload of a container is `None`; the bytes may not be UTF-8).
   */
  datatype Part = Part(disposition: string, text: Option<string>)

  /** A multipart message by its walk, the message itself first; a single-part one by its decoded payload. */
  datatype Body = Multipart(walk: seq<Part>) | SinglePart(text: Option<string>)

  /**
   * A fetched message. `subject`, `from` and `to` are the decoded first
   * chunk of each header, `None` when decoding raised (an absent header
   * does). `cc` and `bcc` are the raw headers, `None` when absent.
   */
  datatype Message = Message(
    subject: Option<string>, from: Option<string>, to: Option<string>,
    cc: Option<string>, bcc: Option<string>, body: Body)

  /** The dict appended to `emails`. */
  datatype EmailRecord = EmailRecord(to: string, from: string, cc: string, bcc: string, subject: string, body: string)

  /** The dict appended to `calls`. */
  datatype CallRecord = CallRecord(
    from: string, attendees: seq<string>, clientName: string,
    callTime: string, agenda: string, meetUrl: string)

  /** Where one message goes. */
  datatype Routed = Regular(email: EmailRecord) | Call(call: CallRecord)

  // ---------------------------------------------------------------------------
  // Body selection
  // ---------------------------------------------------------------------------

  /** A part the loop takes its body from: not an attachment, and its payload decodes. */
  predicate Readable(p: Part) {
    !Contains(p.disposition, "attachment") && p.text.Some?
  }

  /** The first readable part at or after `from`. */
  function FirstReadableFrom(walk: seq<Part>, from: nat): (r: Option<nat>)
    ensures r.Some? ==> from <= r.value < |walk| && Readable(walk[r.value])
    ensures r.Some? ==> forall j :: from <= j < r.value ==> !Readable(walk[j])
    ensures r.None? ==> forall j :: from <= j < |walk| ==> !Readable(walk[j])
    decreases |walk| - from
  {
    if from >= |walk| then None
    else if Readable(walk[from]) then Some(from)
    else FirstReadableFrom(walk, from + 1)
  }

  /** The body of a message: `None` when reading it raises, which only a single-part message can do. */
  function BodyText(b: Body): (r: Option<string>)
    ensures b.Multipart? ==> r.Some?
    ensures b.SinglePart? ==> r == b.text
    ensures b.Multipart? && (forall k :: 0 <= k < |b.walk| ==> !Readable(b.walk[k])) ==> r == Some("")
    ensures b.Multipart? ==> forall k :: 0 <= k < |b.walk| && Readable(b.walk[k]) && (forall j :: 0 <= j < k ==> !Readable(b.walk[j])) ==>
      r == b.walk[k].text
  {
    match b
    case Multipart(walk) =>
      (match FirstReadableFrom(walk, 0)
       case Some(k) => walk[k].text
       case None => Some(""))
    case SinglePart(text) => text
  }

  /**
   * The multipart branch (demo.py:53-63): the payload of the first part
   * that is not an attachment and decodes, or "" when there is none.
   */
  method SelectBody(walk: seq<Part>) returns (body: string)
    ensures forall k :: 0 <= k < |walk| && Readable(walk[k]) && body == "" ==>
      exists j :: 0 <= j <= k && Readable(walk[j]) && walk[j].text.value == ""
    ensures body != "" ==> exists k :: 0 <= k < |walk| && Readable(walk[k]) && walk[k].text.value == body
    ensures Some(body) == BodyText(Multipart(walk))
  {
    body := "";
    for k := 0 to |walk|
      invariant forall j :: 0 <= j < k ==> !Readable(walk[j])
    {
      var part := walk[k];
      if !Contains(part.disposition, "attachment") {
        if part.text.Some? {
          body := part.text.value;
          assert FirstReadableFrom(walk, 0) == Some(k);
          return;
        }
      }
    }
  }

  // ---------------------------------------------------------------------------
  // Routing
  // ---------------------------------------------------------------------------

  const CallWords: seq<string> := ["meeting", "call", "invite"]

  /** The subject test of demo.py:68, on the lower-cased subject. */
  predicate IsCallSubject(subject: string) {
    exists w | w in CallWords :: Contains(LowerAscii(subject), w)
  }

  /** The call record built from a meeting e-mail's body (demo.py:70-92). */
  function CallOf(from: string, body: string): (r: CallRecord)
    ensures r.from == from
    ensures r.attendees == Attendees(body) && r.clientName == ClientName(body) && r.agenda == Agenda(body)
    ensures r.callTime == CallTime(body) && r.meetUrl == MeetUrl(body)
    ensures |r.attendees| >= 1
    ensures '\n' !in r.agenda && '\n' !in r.clientName
    ensures r.callTime == "N/A" || IsTimeText(r.callTime)
    ensures r.meetUrl == "N/A" || IsUrlText(r.meetUrl)
  {
    CallRecord(from, Attendees(body), ClientName(body), CallTime(body), Agenda(body), MeetUrl(body))
  }

  /** One message: where it goes, or `None` when handling it raises and the whole fetch is abandoned. */
  function Classify(m: Message): (r: Option<Routed>)
    ensures r.None? <==> m.subject.None? || m.from.None? || m.to.None? || BodyText(m.body).None?
    ensures r.Some? ==> (r.value.Call? <==> IsCallSubject(m.subject.value))
    ensures r.Some? && r.value.Regular? ==> r.value.email.to == m.to.value && r.value.email.from == m.from.value
    ensures r.Some? && r.value.Regular? ==> r.value.email.subject == m.subject.value && r.value.email.body == BodyText(m.body).value
    ensures r.Some? && r.value.Call? ==> r.value.call == CallOf(m.from.value, BodyText(m.body).value)
    ensures r.Some? && r.value.Regular? ==> r.value.email.cc == m.cc.GetOr("N/A") && r.value.email.bcc == m.bcc.GetOr("N/A")
  {
    if m.subject.None? || m.from.None? || m.to.None? then None
    else
      match BodyText(m.body)
      case None => None
      case Some(body) =>
        if IsCallSubject(m.subject.value) then Some(Call(CallOf(m.from.value, body)))
        else
          Some(Regular(EmailRecord(m.to.value, m.from.value, m.cc.GetOr("N/A"), m.bcc.GetOr("N/A"), m.subject.value, body)))
  }

  /** The regular e-mails among `ms`, in order. */
  function EmailsOf(ms: seq<Message>): seq<EmailRecord>
    decreases |ms|
  {
    if ms == [] then []
    else
      var last := Classify(ms[|ms| - 1]);
      EmailsOf(ms[..|ms| - 1]) + (if last.Some? && last.value.Regular? then [last.value.email] else [])
  }

  /** The call records among `ms`, in order. */
  function CallsOf(ms: seq<Message>): seq<CallRecord>
    decreases |ms|
  {
    if ms == [] then []
    else
      var last := Classify(ms[|ms| - 1]);
      CallsOf(ms[..|ms| - 1]) + (if last.Some? && last.value.Call? then [last.value.call] else [])
  }

  /** The message has the three headers the loop reads and a body it can decode. */
  predicate Handled(m: Message) {
    m.subject.Some? && m.from.Some? && m.to.Some? && BodyText(m.body).Some?
  }

  /** Every message is handled without raising. */
  predicate AllReadable(ms: seq<Message>) {
    forall k :: 0 <= k < |ms| ==> Handled(ms[k])
  }

  /**
   * The returned lists: every message sorted into one of them, or two empty
   * lists when any message raises (the `except` of demo.py:111-113).
   */
  function Fetched(ms: seq<Message>): (seq<EmailRecord>, seq<CallRecord>) {
    if AllReadable(ms) then (EmailsOf(ms), CallsOf(ms)) else ([], [])
  }

  /**
   * The body of the loop for one message (demo.py:38-102): `None` where a
   * step raises, otherwise the record and the list it goes to.
   */
  method HandleMessage(m: Message) returns (r: Option<Routed>)
    ensures r == Classify(m)
  {
    if m.subject.None? || m.from.None? || m.to.None? {
      return None;
    }
    var subject, from, to := m.subject.value, m.from.value, m.to.value;
    var cc := if m.cc.Some? then m.cc.value else "N/A";
    var bcc := if m.bcc.Some? then m.bcc.value else "N/A";
    var body: string;
    match m.body {
      case Multipart(walk) =>
        body := SelectBody(walk);
      case SinglePart(text) =>
        if text.None? {
          return None;
        }
        body := text.value;
    }
    assert BodyText(m.body) == Some(body);
    var lower := LowerAscii(subject);
    if Contains(lower, "meeting") || Contains(lower, "call") || Contains(lower, "invite") {
      assert IsCallSubject(subject) by {
        if Contains(lower, "meeting") { assert CallWords[0] == "meeting"; }
        else if Contains(lower, "call") { assert CallWords[1] == "call"; }
        else { assert CallWords[2] == "invite"; }
      }
      r := Some(Call(CallOf(from, body)));
    } else {
      r := Some(Regular(EmailRecord(to, from, cc, bcc, subject, body)));
    }
  }

  /** The lists after one more message. */
  lemma FetchedStep(ms: seq<Message>, i: nat)
    requires i < |ms|
    ensures var last := Classify(ms[i]);
      && EmailsOf(ms[..i + 1]) == EmailsOf(ms[..i]) + (if last.Some? && last.value.Regular? then [last.value.email] else [])
      && CallsOf(ms[..i + 1]) == CallsOf(ms[..i]) + (if last.Some? && last.value.Call? then [last.value.call] else [])
  {
    assert ms[..i + 1][..i] == ms[..i];
  }

  /** A readable prefix followed by a readable message is a readable prefix. */
  lemma ReadableStep(ms: seq<Message>, i: nat)
    requires i < |ms| && AllReadable(ms[..i]) && Handled(ms[i])
    ensures AllReadable(ms[..i + 1])
  {
    assert forall k :: 0 <= k < i ==> ms[..i + 1][k] == ms[..i][k];
  }

  /** The message loop of demo.py:31-104, inside the `try` of demo.py:18-113. */
  method FetchAllEmails(ms: seq<Message>) returns (emails: seq<EmailRecord>, calls: seq<CallRecord>)
    ensures (emails, calls) == Fetched(ms)
  {
    emails, calls := [], [];
    for i := 0 to |ms|
      invariant AllReadable(ms[..i])
      invariant emails == EmailsOf(ms[..i]) && calls == CallsOf(ms[..i])
    {
      var routed := HandleMessage(ms[i]);
      if routed.None? {
        assert !AllReadable(ms);
        return [], [];
      }
      FetchedStep(ms, i);
      match routed.value {
        case Call(record) => calls := calls + [record];
        case Regular(record) => emails := emails + [record];
      }
      assert Handled(ms[i]);
      ReadableStep(ms, i);
    }
    assert ms[..|ms|] == ms;
  }

  // ---------------------------------------------------------------------------
  // Properties of the fetch
  // ---------------------------------------------------------------------------

  /** When nothing raises, every message lands in exactly one of the two lists. */
  lemma {:induction false} EveryMessageRouted(ms: seq<Message>)
    requires AllReadable(ms)
    ensures |EmailsOf(ms)| + |CallsOf(ms)| == |ms|
    decreases |ms|
  {
    if ms != [] {
      var n := |ms| - 1;
      ReadablePrefix(ms, n);
      EveryMessageRouted(ms[..n]);
      RoutedStep(ms, n);
      assert ms[..n + 1] == ms;
    }
  }

  /** Every prefix of a readable mailbox is readable. */
  lemma ReadablePrefix(ms: seq<Message>, n: nat)
    requires n <= |ms| && AllReadable(ms)
    ensures AllReadable(ms[..n])
  {
    assert forall k :: 0 <= k < n ==> ms[..n][k] == ms[k];
  }

  /** A message that is sorted adds one record to exactly one of the two lists. */
  lemma RoutedStep(ms: seq<Message>, i: nat)
    requires i < |ms| && Classify(ms[i]).Some?
    ensures |EmailsOf(ms[..i + 1])| + |CallsOf(ms[..i + 1])| == |EmailsOf(ms[..i])| + |CallsOf(ms[..i])| + 1
  {
    FetchedStep(ms, i);
  }

  /** No regular e-mail has a subject that names a meeting, a call or an invite. */
  lemma {:induction false} RegularSubjectsAreNotCalls(ms: seq<Message>)
    ensures forall e :: e in EmailsOf(ms) ==> !IsCallSubject(e.subject)
    decreases |ms|
  {
    if ms != [] {
      RegularSubjectsAreNotCalls(ms[..|ms| - 1]);
    }
  }

  /** Lower-casing works character by character, so it distributes over concatenation. */
  lemma LowerAsciiAppend(a: string, b: string)
    ensures LowerAscii(a + b) == LowerAscii(a) + LowerAscii(b)
  {
    assert forall k :: 0 <= k < |a| + |b| ==> LowerAscii(a + b)[k] == (LowerAscii(a) + LowerAscii(b))[k];
  }

  /** A call word anywhere in the subject, in any ASCII case, makes the message a call. */
  lemma CallWordRoutes(pre: string, word: string, post: string)
    requires LowerAscii(word) in CallWords
    ensures IsCallSubject(pre + word + post)
  {
    LowerAsciiAppend(pre + word, post);
    LowerAsciiAppend(pre, word);
    var lower := LowerAscii(pre + word + post);
    var w := LowerAscii(word);
    assert lower[|pre|..|pre| + |w|] == w;
    assert OccursAt(lower, w, |pre|);
  }
}
