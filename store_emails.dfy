/**
 * utils/store_emails.py: the file-name sanitiser, the cleaner that digs a
 * JSON document out of a language-model reply, and the store that appends one
 * fixed-layout text block per email to `parsed_emails/<subject>.txt`.
 *
 * The output directory is modelled as a map from path to file contents.
 * `json.loads` and the `unicode_escape` codec are library code: they are
 * parameters of `ExtractValidJson`, each a partial function returning an
 * option (`None` standing for the exception it raises).
 */
module StoreEmails {
  import opened Wrappers
  import opened Text

  // ---------------------------------------------------------------------------
  // sanitize_filename (store_emails.py:5-7)
  // ---------------------------------------------------------------------------

  /** The nine characters of the class `[<>:"/\\|?*]`. */
  predicate IsReserved(c: char) {
    c == '<' || c == '>' || c == ':' || c == '"' || c == '/' || c == '\\' || c == '|' || c == '?' || c == '*'
  }

  /** `re.sub(r'[<>:"/\\|?*]', '_', s)`. */
  function ReplaceReserved(s: string): (r: string)
    ensures |r| == |s|
    ensures forall k :: 0 <= k < |s| ==> r[k] == (if IsReserved(s[k]) then '_' else s[k])
  {
    if s == [] then [] else [if IsReserved(s[0]) then '_' else s[0]] + ReplaceReserved(s[1..])
  }

  /** `sanitize_filename`: reserved characters become `_`, then surrounding whitespace goes. */
  function SanitizeFilename(name: string): (r: string)
    ensures forall k :: 0 <= k < |r| ==> !IsReserved(r[k])
    ensures Stripped(r)
    ensures IsStripOf(ReplaceReserved(name), r)
  {
    Strip(ReplaceReserved(name))
  }

  /** A name with no reserved character and no surrounding whitespace is its own sanitised form. */
  lemma {:induction false} SanitizeClean(name: string)
    requires forall k :: 0 <= k < |name| ==> !IsReserved(name[k])
    requires Stripped(name)
    ensures SanitizeFilename(name) == name
  {
    assert ReplaceReserved(name) == name;
    StripStripped(name);
  }

  /** Sanitising twice is sanitising once. */
  lemma {:induction false} SanitizeIdempotent(name: string)
    ensures SanitizeFilename(SanitizeFilename(name)) == SanitizeFilename(name)
  {
    SanitizeClean(SanitizeFilename(name));
  }

  // ---------------------------------------------------------------------------
  // extract_valid_json (store_emails.py:9-29)
  // ---------------------------------------------------------------------------

  const JsonFence: string := "```json\n"
  const FenceClose: string := "\n```"

  /**
   * A match of `r"```json\n(.*?)\n```"` under DOTALL: the opening fence at `p`
   * and a closing `\n```` at `q`, no earlier than the end of the opening fence.
   */
  predicate FenceMatch(s: string, p: nat, q: nat) {
    OccursAt(s, JsonFence, p) && p + |JsonFence| <= q && OccursAt(s, FenceClose, q)
  }

  /**
   * `re.search` for the fenced block: the leftmost opening fence that has a
   * closing one after it, and (the group being lazy) the first closing fence
   * after it. Group 1 is `s[p + 8..q]`.
   */
  function FencedBlock(s: string): (r: Option<(nat, nat)>)
    ensures r.Some? ==> FenceMatch(s, r.value.0, r.value.1)
    ensures r.Some? ==> forall p: nat, q: nat :: p < r.value.0 ==> !FenceMatch(s, p, q)
    ensures r.Some? ==> forall q: nat :: q < r.value.1 ==> !FenceMatch(s, r.value.0, q)
    ensures r.None? ==> forall p: nat, q: nat :: !FenceMatch(s, p, q)
  {
    match FindFrom(s, JsonFence, 0)
    case None => None
    case Some(p) =>
      match FindFrom(s, FenceClose, p + |JsonFence|)
      case None => None
      case Some(q) => Some((p, q))
  }

  /**
   * The match `re.search` reports: the leftmost opening fence with a closing
   * one after it, and the first closing fence after that opening.
   */
  ghost predicate FirstFence(s: string, p: nat, q: nat) {
    && FenceMatch(s, p, q)
    && (forall p': nat, q': nat :: p' < p ==> !FenceMatch(s, p', q'))
    && (forall q': nat :: q' < q ==> !FenceMatch(s, p, q'))
  }

  /** `FencedBlock` finds the first fenced block, and there is only one first block. */
  lemma FirstFenceIsUnique(s: string, p: nat, q: nat)
    requires FencedBlock(s) == Some((p, q))
    ensures FirstFence(s, p, q)
    ensures forall p2: nat, q2: nat :: FirstFence(s, p2, q2) ==> p2 == p && q2 == q
  {
  }

  /** Step 1: the stripped inside of the first fenced block, or the whole reply when there is none. */
  function Unfenced(response: string): (r: string)
    ensures (forall p: nat, q: nat :: !FenceMatch(response, p, q)) ==> r == response
    ensures forall p: nat, q: nat :: FirstFence(response, p, q) ==> r == Strip(response[p + |JsonFence|..q])
    ensures (exists p: nat, q: nat :: FenceMatch(response, p, q)) ==>
      exists p: nat, q: nat :: FirstFence(response, p, q) && r == Strip(response[p + |JsonFence|..q])
    ensures r == response || Stripped(r)
  {
    match FencedBlock(response)
    case Some((p, q)) =>
      FirstFenceIsUnique(response, p, q);
      Strip(response[p + |JsonFence|..q])
    case None => response
  }

  /**
   * Only the first fenced block counts: text before it (with no opening
   * fence of its own) and anything after its closing fence never reach the
   * parser.
   */
  lemma FencedBlockOnly(prefix: string, inner: string, suffix: string)
    requires forall j: nat :: j < |prefix| ==> !OccursAt(prefix + JsonFence, JsonFence, j)
    requires forall j :: !OccursAt(inner, FenceClose, j)
    ensures Unfenced(prefix + JsonFence + inner + FenceClose + suffix) == Strip(inner)
  {
    var head, tail := prefix + JsonFence, inner + FenceClose + suffix;
    var s := head + tail;
    var p, q := |prefix|, |head| + |inner|;
    OpenFenceFirst(prefix, tail);
    CloseFenceFirst(head, inner, suffix);
    assert FirstFence(s, p, q);
    assert s[p + |JsonFence|..q] == inner;
    assert s == prefix + JsonFence + inner + FenceClose + suffix;
  }

  /** The opening fence right after `prefix` is the first one in `prefix + JsonFence + tail`. */
  lemma OpenFenceFirst(prefix: string, tail: string)
    requires forall j: nat :: j < |prefix| ==> !OccursAt(prefix + JsonFence, JsonFence, j)
    ensures OccursAt(prefix + JsonFence + tail, JsonFence, |prefix|)
    ensures forall j: nat :: j < |prefix| ==> !OccursAt(prefix + JsonFence + tail, JsonFence, j)
  {
    var head := prefix + JsonFence;
    assert head[|prefix|..|prefix| + |JsonFence|] == JsonFence;
    OccursInPrefix(head, tail, JsonFence, |prefix|);
    forall j: nat | j < |prefix| ensures !OccursAt(head + tail, JsonFence, j) {
      OccursInPrefix(head, tail, JsonFence, j);
    }
  }

  /** After `head`, the first closing fence is the one right after `inner`. */
  lemma CloseFenceFirst(head: string, inner: string, suffix: string)
    requires forall j :: !OccursAt(inner, FenceClose, j)
    ensures OccursAt(head + (inner + FenceClose + suffix), FenceClose, |head| + |inner|)
    ensures forall j: nat :: |head| <= j < |head| + |inner| ==>
      !OccursAt(head + (inner + FenceClose + suffix), FenceClose, j)
  {
    var tail := inner + FenceClose + suffix;
    CloseAfterInner(inner, suffix);
    OccursInSuffix(head, tail, FenceClose, |inner|);
    forall j: nat | |head| <= j < |head| + |inner| ensures !OccursAt(head + tail, FenceClose, j) {
      OccursInSuffix(head, tail, FenceClose, j - |head|);
    }
  }

  /** In `inner + FenceClose + suffix`, the first closing fence is the one right after `inner`. */
  lemma CloseAfterInner(inner: string, suffix: string)
    requires forall j :: !OccursAt(inner, FenceClose, j)
    ensures OccursAt(inner + FenceClose + suffix, FenceClose, |inner|)
    ensures forall j: nat :: j < |inner| ==> !OccursAt(inner + FenceClose + suffix, FenceClose, j)
  {
    var t := inner + FenceClose + suffix;
    assert t[|inner|..|inner| + |FenceClose|] == FenceClose;
    forall j: nat | j < |inner| ensures !OccursAt(t, FenceClose, j) {
      if j + |FenceClose| <= |inner| {
        assert t[j..j + |FenceClose|] == inner[j..j + |FenceClose|];
        assert !OccursAt(inner, FenceClose, j);
      } else {
        assert t[|inner|] == '\n';
        assert t[j..j + |FenceClose|][|inner| - j] == t[|inner|] != FenceClose[|inner| - j];
      }
    }
  }

  /** Python's `'\\n'`, `'\\r'` and `'\\t'`: a backslash followed by a letter. */
  const EscapedNewline: string := ['\\', 'n']
  const EscapedReturn: string := ['\\', 'r']
  const EscapedTab: string := ['\\', 't']

  ghost predicate HasNoPair(s: string, pair: string) {
    forall j :: !OccursAt(s, pair, j)
  }

  /** Step 2: every literal `\n`, `\r` and `\t` escape, in that order, becomes one space. */
  function DropEscapes(s: string): (r: string)
    ensures HasNoPair(r, EscapedNewline) && HasNoPair(r, EscapedReturn) && HasNoPair(r, EscapedTab)
    ensures |r| <= |s|
  {
    var s1 := Replace(s, EscapedNewline, " ");
    ReplacePairLeavesNoPair(s, EscapedNewline, ' ', EscapedNewline);
    var s2 := Replace(s1, EscapedReturn, " ");
    ReplacePairLeavesNoPair(s1, EscapedReturn, ' ', EscapedNewline);
    ReplacePairLeavesNoPair(s1, EscapedReturn, ' ', EscapedReturn);
    var s3 := Replace(s2, EscapedTab, " ");
    ReplacePairLeavesNoPair(s2, EscapedTab, ' ', EscapedNewline);
    ReplacePairLeavesNoPair(s2, EscapedTab, ' ', EscapedReturn);
    ReplacePairLeavesNoPair(s2, EscapedTab, ' ', EscapedTab);
    s3
  }

  /** A reply with no escape pair passes the cleanup unchanged. */
  lemma DropEscapesKeepsClean(s: string)
    requires HasNoPair(s, EscapedNewline) && HasNoPair(s, EscapedReturn) && HasNoPair(s, EscapedTab)
    ensures DropEscapes(s) == s
  {
    ReplaceAbsent(s, EscapedNewline, " ");
    ReplaceAbsent(s, EscapedReturn, " ");
    ReplaceAbsent(s, EscapedTab, " ");
  }

  /** `a\nb`, with a literal backslash, comes out as `a b`. */
  lemma DropEscapesExample()
    ensures DropEscapes(['a', '\\', 'n', 'b']) == "a b"
  {
    var s := ['a', '\\', 'n', 'b'];
    assert s[1..3] == EscapedNewline;
    assert !OccursAt(s, EscapedNewline, 0) by { assert s[0..2][0] == 'a' != EscapedNewline[0]; }
    ReplaceAtFirst(s, EscapedNewline, " ", 1);
    assert s[3..] == "b";
    ReplaceAbsent("b", EscapedNewline, " ");
    var t := "a b";
    assert Replace(s, EscapedNewline, " ") == t;
    forall j: nat ensures !OccursAt(t, EscapedReturn, j) && !OccursAt(t, EscapedTab, j) {
      if j + 2 <= 3 {
        assert t[j..j + 2][0] == t[j] != '\\';
      }
    }
    ReplaceAbsent(t, EscapedReturn, " ");
    ReplaceAbsent(t, EscapedTab, " ");
  }

  /** The text handed to the escape decoder: steps 1 and 2. */
  function CleanedReply(response: string): string {
    DropEscapes(Unfenced(response))
  }

  /**
   * `extract_valid_json`: `unescape` is `.encode('utf-8').decode('unicode_escape')`
   * and `loads` is `json.loads`, each `None` where it raises. A failure of
   * either gives `None` instead of an exception.
   */
  function ExtractValidJson<J>(response: string, unescape: string -> Option<string>, loads: string -> Option<J>): (r: Option<J>)
    ensures unescape(CleanedReply(response)).None? ==> r.None?
    ensures r.Some? ==> exists text :: unescape(CleanedReply(response)) == Some(text) && loads(text) == r
    ensures unescape(CleanedReply(response)).Some? && loads(unescape(CleanedReply(response)).value).Some? ==> r.Some?
  {
    match unescape(CleanedReply(response))
    case None => None
    case Some(text) => loads(text)
  }

  // ---------------------------------------------------------------------------
  // store_emails_data (store_emails.py:31-81)
  // ---------------------------------------------------------------------------

  /**
   * A value of the parsed JSON that ends up in a text block: a Python `str`,
   * or anything else together with the text `str()` gives for it (the f-string
   * shows it as such; `.replace` and `re.sub` raise on it).
   */
  datatype FieldValue = Text(text: string) | Other(shown: string)

  /** One element of the list: a dict from keys to values, or something that is not a dict. */
  datatype Entry = Dict(fields: map<string, FieldValue>) | NotDict

  /** What `store_emails_data` is called with. */
  datatype StoreInput = SingleDict(fields: map<string, FieldValue>) | EntryList(entries: seq<Entry>) | NeitherListNorDict

  /** Path to contents of every file under the working directory. */
  type Files = map<string, string>

  const OutputFolder: string := "parsed_emails"

  /** The decimal digits of `n`, as `str(n)` writes them. */
  function Decimal(n: nat): (r: string)
    ensures r != [] && (r[0] == '0' ==> r == "0")
    ensures forall k :: 0 <= k < |r| ==> '0' <= r[k] <= '9'
    decreases n
  {
    if n < 10 then [('0' as int + n) as char]
    else Decimal(n / 10) + [('0' as int + n % 10) as char]
  }

  /** The number a string of decimal digits denotes. */
  function DecimalValue(s: string): nat
    decreases |s|
  {
    if s == [] then 0
    else DecimalValue(s[..|s| - 1]) * 10 + (if '0' <= s[|s| - 1] <= '9' then s[|s| - 1] as int - '0' as int else 0)
  }

  /** `Decimal` loses nothing: reading its digits back gives the number. */
  lemma {:induction false} DecimalRoundTrip(n: nat)
    ensures DecimalValue(Decimal(n)) == n
    decreases n
  {
    if n >= 10 {
      DecimalRoundTrip(n / 10);
      var d := Decimal(n);
      assert d[..|d| - 1] == Decimal(n / 10);
    }
  }

  /** The stem used when the entry has no "subject" key: `f"No_Subject_{idx+1}"`. */
  function FallbackStem(idx: nat): string {
    "No_Subject_" + Decimal(idx + 1)
  }

  /** The fallback stem already has the sanitised form, so the file is `No_Subject_<idx+1>.txt`. */
  lemma FallbackStemIsClean(idx: nat)
    ensures SanitizeFilename(FallbackStem(idx)) == FallbackStem(idx)
  {
    var stem := FallbackStem(idx);
    var digits := Decimal(idx + 1);
    forall k | 0 <= k < |stem| ensures !IsReserved(stem[k]) {
      if k >= 11 {
        assert stem[k] == digits[k - 11];
      }
    }
    assert stem[|stem| - 1] == digits[|digits| - 1];
    SanitizeClean(stem);
  }

  /** `f"{value}"` for a value looked up in the entry. */
  function Shown(v: FieldValue): string {
    match v
    case Text(t) => t
    case Other(shown) => shown
  }

  /** `email_json.get(key, default)` as the f-string shows it. */
  function Lookup(fields: map<string, FieldValue>, key: string, default: string): string {
    if key in fields then Shown(fields[key]) else default
  }

  /** `'-' * n`. */
  function Dashes(n: nat): (r: string)
    ensures |r| == n
    ensures forall k :: 0 <= k < n ==> r[k] == '-'
  {
    if n == 0 then "" else Dashes(n - 1) + "-"
  }

  /** `'-' * 80`, the rule that closes every block. */
  const Rule: string := Dashes(80)

  /** `body.replace("\n", " ").replace("\r", " ")`. */
  function FlattenLineBreaks(body: string): (r: string)
    ensures |r| == |body|
    ensures forall k :: 0 <= k < |body| ==> r[k] == (if body[k] == '\n' || body[k] == '\r' then ' ' else body[k])
  {
    ReplaceCharPointwise(body, '\n', ' ');
    ReplaceCharPointwise(Replace(body, "\n", " "), '\r', ' ');
    Replace(Replace(body, "\n", " "), "\r", " ")
  }

  /** Replacing one character by another changes those positions and no other. */
  lemma {:induction false} ReplaceCharPointwise(s: string, a: char, b: char)
    ensures |Replace(s, [a], [b])| == |s|
    ensures forall k :: 0 <= k < |s| ==> Replace(s, [a], [b])[k] == (if s[k] == a then b else s[k])
    decreases |s|
  {
    if s != [] {
      ReplaceCharPointwise(s[1..], a, b);
      assert s[..1] == [s[0]];
    }
  }

  /** Each line followed by a line break. */
  function Unlines(lines: seq<string>): string
    decreases |lines|
  {
    if lines == [] then "" else lines[0] + "\n" + Unlines(lines[1..])
  }

  /** The lines of `s`, each without its line break, the text after the last break counting as a line when not empty. */
  function SplitLines(s: string): seq<string>
    decreases |s|
  {
    match FindFrom(s, "\n", 0)
    case None => if s == [] then [] else [s]
    case Some(k) => [s[..k]] + SplitLines(s[k + 1..])
  }

  /** `SplitLines` undoes `Unlines` as long as no line holds a line break of its own. */
  lemma {:induction false} SplitUnlines(lines: seq<string>)
    requires forall k :: 0 <= k < |lines| ==> '\n' !in lines[k]
    ensures SplitLines(Unlines(lines)) == lines
    decreases |lines|
  {
    if lines != [] {
      var first, rest := lines[0], lines[1..];
      var s := Unlines(lines);
      assert s == first + "\n" + Unlines(rest);
      forall j: nat | j < |first| ensures !OccursAt(s, "\n", j) {
        assert s[j] == first[j];
      }
      assert OccursAt(s, "\n", |first|);
      assert FindFrom(s, "\n", 0) == Some(|first|);
      assert s[..|first|] == first;
      assert s[|first| + 1..] == Unlines(rest);
      SplitUnlines(rest);
    }
  }

  /** The keys whose values appear on the header lines of a block. */
  const HeaderKeys: seq<string> := ["to", "from", "cc", "bcc", "subject", "tags"]

  /** A header line is one line when its title, its default and the stored value are. */
  lemma HeaderLine(title: string, fields: map<string, FieldValue>, key: string, default: string)
    requires '\n' !in title && '\n' !in default
    requires key in fields ==> '\n' !in Shown(fields[key])
    ensures '\n' !in title + Lookup(fields, key, default)
  {
  }

  /** The nine lines of `email_text` (store_emails.py:63-72), in order. */
  function BlockLines(fields: map<string, FieldValue>, bodyText: string): seq<string> {
    [ "To: " + Lookup(fields, "to", ""),
      "From: " + Lookup(fields, "from", ""),
      "CC: " + Lookup(fields, "cc", "N/A"),
      "BCC: " + Lookup(fields, "bcc", "N/A"),
      "Subject: " + Lookup(fields, "subject", ""),
      "Tags: " + Lookup(fields, "tags", ""),
      "Body:",
      bodyText,
      Rule ]
  }

  /** The text block written for one entry: every line of `BlockLines` ends in a line break. */
  function FormatBlock(fields: map<string, FieldValue>, bodyText: string): string {
    Unlines(BlockLines(fields, bodyText))
  }

  /**
   * Read back line by line, a block gives its nine lines in order: the
   * six headers with their defaults, `Body:`, the flattened body and the
   * rule. This needs the header values to be single lines; the body always
   * is one once flattened.
   */
  lemma BlockReadsBack(fields: map<string, FieldValue>, body: string)
    requires forall key :: key in fields && key in HeaderKeys ==> '\n' !in Shown(fields[key])
    ensures SplitLines(FormatBlock(fields, FlattenLineBreaks(body))) == BlockLines(fields, FlattenLineBreaks(body))
    ensures |BlockLines(fields, FlattenLineBreaks(body))| == 9
    ensures BlockLines(fields, FlattenLineBreaks(body))[8] == Rule && |Rule| == 80
  {
    var flat := FlattenLineBreaks(body);
    var lines := BlockLines(fields, flat);
    assert '\n' !in flat by {
      forall k | 0 <= k < |flat| ensures flat[k] != '\n' {}
    }
    HeaderLine("To: ", fields, "to", "");
    HeaderLine("From: ", fields, "from", "");
    HeaderLine("CC: ", fields, "cc", "N/A");
    HeaderLine("BCC: ", fields, "bcc", "N/A");
    HeaderLine("Subject: ", fields, "subject", "");
    HeaderLine("Tags: ", fields, "tags", "");
    assert '\n' !in Rule;
    SplitUnlines(lines);
  }

  /**
   * The body of the `try` for entry number `idx`: the path and block it
   * appends, or `None` when it raises (a non-dict entry, a subject that is
   * not a string, a body that is not a string) and the entry is skipped.
   */
  function EntryWrite(idx: nat, e: Entry): Option<(string, string)> {
    match e
    case NotDict => None
    case Dict(fields) =>
      var subject := if "subject" in fields then fields["subject"] else Text(FallbackStem(idx));
      if !subject.Text? then None
      else
        var path := OutputFolder + "/" + SanitizeFilename(subject.text) + ".txt";
        var body := if "body" in fields then fields["body"] else Text("");
        if !body.Text? then None
        else Some((path, FormatBlock(fields, FlattenLineBreaks(body.text))))
  }

  /**
   * An entry is skipped exactly when it is not a dict or its subject or body
   * is present but not a string. Otherwise its file is named after the
   * sanitised subject (`No_Subject_<idx+1>` when it has none) and the block
   * holds the body with its line breaks flattened.
   */
  lemma EntryWriteSpec(idx: nat, e: Entry)
    ensures EntryWrite(idx, e).Some? <==>
      e.Dict? && ("subject" !in e.fields || e.fields["subject"].Text?) && ("body" !in e.fields || e.fields["body"].Text?)
    ensures EntryWrite(idx, e).Some? && "subject" !in e.fields ==>
      EntryWrite(idx, e).value.0 == OutputFolder + "/" + FallbackStem(idx) + ".txt"
    ensures EntryWrite(idx, e).Some? && "subject" in e.fields ==>
      EntryWrite(idx, e).value.0 == OutputFolder + "/" + SanitizeFilename(e.fields["subject"].text) + ".txt"
    ensures EntryWrite(idx, e).Some? ==>
      EntryWrite(idx, e).value.1 == FormatBlock(e.fields, FlattenLineBreaks(if "body" in e.fields then e.fields["body"].text else ""))
  {
    FallbackStemIsClean(idx);
  }

  /** The contents of `path`, empty when the file does not exist yet. */
  function Existing(fs: Files, path: string): string {
    if path in fs then fs[path] else ""
  }

  /** Appending one block; mode "a" and mode "w" on a missing file leave the same contents. */
  function Apply(fs: Files, w: Option<(string, string)>): Files {
    match w
    case None => fs
    case Some(write) => fs[write.0 := Existing(fs, write.0) + write.1]
  }

  /** The write each entry makes, the index of each entry being its position in the list. */
  function Writes(entries: seq<Entry>): (ws: seq<Option<(string, string)>>)
    ensures |ws| == |entries|
    ensures forall k :: 0 <= k < |entries| ==> ws[k] == EntryWrite(k, entries[k])
  {
    seq(|entries|, k requires 0 <= k < |entries| => EntryWrite(k, entries[k]))
  }

  /** The files after the writes `ws`, in order. */
  function StoredAfter(fs: Files, ws: seq<Option<(string, string)>>): Files
    decreases |ws|
  {
    if ws == [] then fs else Apply(StoredAfter(fs, ws[..|ws| - 1]), ws[|ws| - 1])
  }

  /** The block, if any, that one write appends to `path`. */
  function BlocksOf(w: Option<(string, string)>, path: string): seq<string> {
    if w.Some? && w.value.0 == path then [w.value.1] else []
  }

  /** The blocks that `ws` append to `path`, in order. */
  function BlocksFor(ws: seq<Option<(string, string)>>, path: string): seq<string>
    decreases |ws|
  {
    if ws == [] then [] else BlocksFor(ws[..|ws| - 1], path) + BlocksOf(ws[|ws| - 1], path)
  }

  function Concat(blocks: seq<string>): string
    decreases |blocks|
  {
    if blocks == [] then "" else Concat(blocks[..|blocks| - 1]) + blocks[|blocks| - 1]
  }

  /** The files after one more write. */
  lemma StoredStep(fs: Files, ws: seq<Option<(string, string)>>, idx: nat)
    requires idx < |ws|
    ensures StoredAfter(fs, ws[..idx + 1]) == Apply(StoredAfter(fs, ws[..idx]), ws[idx])
  {
    assert ws[..idx + 1][..idx] == ws[..idx];
  }

  /** One write: `path` gains exactly the block that write appends to it, and no other file changes. */
  lemma ApplyStep(fs: Files, w: Option<(string, string)>, path: string)
    ensures path in Apply(fs, w) <==> path in fs || BlocksOf(w, path) != []
    ensures Existing(Apply(fs, w), path) == Existing(fs, path) + Concat(BlocksOf(w, path))
  {
    if w.Some? && w.value.0 == path {
      assert Concat([w.value.1]) == Concat([]) + w.value.1;
    }
  }

  /** `Concat` of a sequence grown by at most one block. */
  lemma ConcatSnoc(blocks: seq<string>, more: seq<string>)
    requires |more| <= 1
    ensures Concat(blocks + more) == Concat(blocks) + Concat(more)
  {
    if |more| == 1 {
      assert (blocks + more)[..|blocks|] == blocks;
      assert more[..0] == [];
    } else {
      assert blocks + more == blocks;
    }
  }

  /**
   * What the store leaves in each file: the earlier contents followed by the
   * blocks of the writes that go to it, in order. A file no write goes to is
   * exactly as it was (or still absent).
   */
  lemma {:induction false} StoredContents(fs: Files, ws: seq<Option<(string, string)>>, path: string)
    ensures path in StoredAfter(fs, ws) <==> path in fs || BlocksFor(ws, path) != []
    ensures Existing(StoredAfter(fs, ws), path) == Existing(fs, path) + Concat(BlocksFor(ws, path))
    decreases |ws|
  {
    if ws != [] {
      var n := |ws| - 1;
      var prev, before := StoredAfter(fs, ws[..n]), BlocksFor(ws[..n], path);
      assert StoredAfter(fs, ws) == Apply(prev, ws[n]);
      assert BlocksFor(ws, path) == before + BlocksOf(ws[n], path);
      StoredContents(fs, ws[..n], path);
      ApplyStep(prev, ws[n], path);
      ConcatSnoc(before, BlocksOf(ws[n], path));
    }
  }

  /** `isinstance` normalisation: a dict becomes a one-entry list, anything else but a list is refused. */
  function EntriesOf(data: StoreInput): Option<seq<Entry>> {
    match data
    case SingleDict(fields) => Some([Dict(fields)])
    case EntryList(entries) => Some(entries)
    case NeitherListNorDict => None
  }

  /**
   * The loop of `store_emails_data`: appends, entry by entry, each block to
   * its file; `fs` is the directory before the loop and `out` after it.
   */
  method StoreEntries(fs: Files, entries: seq<Entry>) returns (out: Files)
    ensures out == StoredAfter(fs, Writes(entries))
    ensures forall path :: Existing(out, path) == Existing(fs, path) + Concat(BlocksFor(Writes(entries), path))
    ensures forall path :: path in out <==> path in fs || BlocksFor(Writes(entries), path) != []
  {
    ghost var ws := Writes(entries);
    out := fs;
    for idx := 0 to |entries|
      invariant out == StoredAfter(fs, ws[..idx])
    {
      StoredStep(fs, ws, idx);
      var w := EntryWrite(idx, entries[idx]);
      if w.Some? {
        var path, block := w.value.0, w.value.1;
        out := out[path := Existing(out, path) + block];
      }
    }
    assert ws[..|entries|] == ws;
    forall path
      ensures Existing(out, path) == Existing(fs, path) + Concat(BlocksFor(ws, path))
      ensures path in out <==> path in fs || BlocksFor(ws, path) != []
    {
      StoredContents(fs, ws, path);
    }
  }

  /**
   * `store_emails_data`: a dict is stored as a one-entry list, a list entry by
   * entry, and anything else leaves the directory untouched.
   */
  method StoreEmailsData(fs: Files, data: StoreInput) returns (out: Files)
    ensures EntriesOf(data).None? ==> out == fs
    ensures EntriesOf(data).Some? ==> out == StoredAfter(fs, Writes(EntriesOf(data).value))
  {
    match data {
      case SingleDict(fields) =>
        out := StoreEntries(fs, [Dict(fields)]);
      case EntryList(entries) =>
        out := StoreEntries(fs, entries);
      case NeitherListNorDict =>
        out := fs;
    }
  }
}
