/**
 * The text posted for one email (src/index.ts): the address formatting of
 * `formatAddresses` and `formatSingleAddress`, the body selection of
 * `convertEmailToMarkdown`, and the header block plus body that
 * `sendDiscordNotification` trims into one message.
 */
module Render {
  import opened Wrappers
  import opened Text

  /** A mailbox as the MIME parser yields it; an absent display name is the empty string. */
  datatype Address = Address(name: string, address: string)

  /** The parts of a parsed email the notification uses. */
  datatype Email = Email(
    html: Option<string>,
    text: Option<string>,
    from: Option<Address>,
    to: Option<seq<Address>>,
    cc: Option<seq<Address>>,
    bcc: Option<seq<Address>>)

  /**
   * What the optional HTML-to-Markdown service does with the HTML body: it
   * is not configured, its call throws, or it returns results, each holding
   * a `data` text or none.
   */
  datatype AiOutcome = NoConverter | Throws | Returns(results: seq<Option<string>>)

  const NO_BODY: string := "(本文なし)"
  const NO_SUBJECT: string := "No Subject"
  const NOT_AVAILABLE: string := "N/A"
  const SUBJECT_LABEL: string := "件名: "
  const FROM_LABEL: string := "From: "
  const TO_LABEL: string := "To: "
  const CC_LABEL: string := "CC: "
  const BCC_LABEL: string := "BCC: "

  /** JavaScript truthiness of an optional string: present and not empty. */
  predicate Truthy(s: Option<string>) {
    s.Some? && s.value != ""
  }

  /** One entry of an address list: the name, a space, then the address in angle brackets. */
  function ListEntry(a: Address): (r: string)
    ensures |r| > 0 && r[|r| - 1] == '>'
  {
    a.name + " <" + a.address + ">"
  }

  function ListEntries(addresses: seq<Address>): (r: seq<string>)
    ensures |r| == |addresses|
    ensures forall k :: 0 <= k < |r| ==> r[k] == ListEntry(addresses[k])
  {
    seq(|addresses|, k requires 0 <= k < |addresses| => ListEntry(addresses[k]))
  }

  /**
   * `formatAddresses`: the entries joined by a comma and a space, or "N/A"
   * when the list is absent or empty; a present list never reads "N/A",
   * since it ends with an angle bracket.
   */
  function FormatAddresses(addresses: Option<seq<Address>>): (r: string)
    ensures r == NOT_AVAILABLE <==> addresses.None? || |addresses.value| == 0
    ensures |r| > 0 && !IsWhitespace(r[|r| - 1])
  {
    if addresses.None? || |addresses.value| == 0 then
      NotWhitespace('A');
      NOT_AVAILABLE
    else
      NotWhitespace('>');
      var entries := ListEntries(addresses.value);
      JoinEndsWithLast(entries, ", ");
      Join(entries, ", ")
  }

  /** A list of one or more addresses is its first entry, then the formatting of the rest. */
  lemma FormatAddressesCons(a: Address, rest: seq<Address>)
    ensures rest == [] ==> FormatAddresses(Some([a] + rest)) == ListEntry(a)
    ensures rest != [] ==> FormatAddresses(Some([a] + rest)) == ListEntry(a) + ", " + FormatAddresses(Some(rest))
  {
    assert ListEntries([a] + rest)[1..] == ListEntries(rest);
  }

  /**
   * `formatSingleAddress`: the address in angle brackets, preceded by the
   * name and a space when there is a name, or "N/A" when absent.
   */
  function FormatSingleAddress(address: Option<Address>): (r: string)
    ensures r == NOT_AVAILABLE <==> address.None?
    ensures address.Some? && address.value.name == "" ==> r == "<" + address.value.address + ">"
    ensures address.Some? && address.value.name != "" ==>
              r == address.value.name + " " + "<" + address.value.address + ">"
    ensures |r| > 0 && !IsWhitespace(r[|r| - 1])
  {
    if address.None? then
      NotWhitespace('A');
      NOT_AVAILABLE
    else
      NotWhitespace('>');
      var displayName := if address.value.name != "" then address.value.name + " " else "";
      var r := displayName + "<" + address.value.address + ">";
      assert r[|r| - 1] == '>' != NOT_AVAILABLE[2];
      r
  }

  /**
   * The sender and the recipient lists format one mailbox alike when it has
   * a name; without a name the list entry keeps a leading space the sender
   * line does not have.
   */
  lemma SingleAndListFormats(a: Address)
    ensures a.name != "" ==> FormatSingleAddress(Some(a)) == FormatAddresses(Some([a]))
    ensures a.name == "" ==> FormatAddresses(Some([a])) == " " + FormatSingleAddress(Some(a))
  {
    var entries := ListEntries([a]);
    assert entries == [ListEntry(a)];
    assert FormatAddresses(Some([a])) == ListEntry(a);
    if a.name == "" {
      assert ListEntry(a) == " " + ("<" + a.address + ">");
    }
  }

  /**
   * `results[0]?.data?.trim()`: there is converted text exactly when the
   * first result has data; that text has no whitespace at either end, and
   * it is empty (so not usable) exactly when the data is whitespace only.
   */
  function Converted(results: seq<Option<string>>): (r: Option<string>)
    ensures r.Some? <==> |results| > 0 && results[0].Some?
    ensures r.Some? ==> r.value == [] || (!IsWhitespace(r.value[0]) && !IsWhitespace(r.value[|r.value| - 1]))
    ensures r.Some? ==> (r.value == [] <==> AllWhitespace(results[0].value))
  {
    if |results| > 0 && results[0].Some? then
      TrimEmptyIff(results[0].value);
      Some(Trim(results[0].value))
    else None
  }

  /** The plain-text body when it is not empty, else the placeholder. */
  function TextOrPlaceholder(email: Email): (r: string)
    ensures r != ""
    ensures Truthy(email.text) ==> r == email.text.value
    ensures !Truthy(email.text) ==> r == NO_BODY
  {
    if Truthy(email.text) then email.text.value else NO_BODY
  }

  /**
   * `convertEmailToMarkdown`. The service is consulted only for a non-empty
   * HTML body. Its usable (non-empty after trimming) result is the body; a
   * throwing call gives the raw HTML; no service, or a result with no usable
   * text, falls through to the plain text and then to the placeholder.
   */
  function ConvertEmailToMarkdown(email: Email, ai: AiOutcome): (body: string)
    ensures body != ""
    ensures Truthy(email.html) && ai.Throws? ==> body == email.html.value
    ensures Truthy(email.html) && ai.Returns? && Truthy(Converted(ai.results)) ==>
              body == Trim(ai.results[0].value)
    ensures !(Truthy(email.html) && (ai.Throws? || (ai.Returns? && Truthy(Converted(ai.results))))) ==>
              body == TextOrPlaceholder(email)
  {
    if Truthy(email.html) && !ai.NoConverter? then
      match ai
      case Throws => email.html.value
      case Returns(results) =>
        var markdown := Converted(results);
        if Truthy(markdown) then markdown.value else TextOrPlaceholder(email)
    else TextOrPlaceholder(email)
  }

  /** Without a service the HTML body plays no part. */
  lemma NoConverterIgnoresHtml(email: Email)
    ensures ConvertEmailToMarkdown(email, NoConverter) == ConvertEmailToMarkdown(email.(html := None), NoConverter)
  {
  }

  /** A result without usable text is the same as having no service at all. */
  lemma UnusableResultIsNoConverter(email: Email, results: seq<Option<string>>)
    requires |results| == 0 || results[0].None? || AllWhitespace(results[0].value)
    ensures ConvertEmailToMarkdown(email, Returns(results)) == ConvertEmailToMarkdown(email, NoConverter)
  {
  }

  /** The converted body is never whitespace at either end. */
  lemma ConvertedBodyIsTrimmed(email: Email, results: seq<Option<string>>)
    requires Truthy(email.html) && Truthy(Converted(results))
    ensures var body := ConvertEmailToMarkdown(email, Returns(results));
            !IsWhitespace(body[0]) && !IsWhitespace(body[|body| - 1])
  {
    var t := Trim(results[0].value);
    assert ConvertEmailToMarkdown(email, Returns(results)) == t;
  }

  /**
   * `件名: ${subject || 'No Subject'}`: the subject label, then the subject
   * when it is not empty, else the placeholder.
   */
  function SubjectLine(subject: Option<string>): (r: string)
    ensures |r| > |SUBJECT_LABEL| && r[..|SUBJECT_LABEL|] == SUBJECT_LABEL && r[0] == '件'
    ensures Truthy(subject) ==> r[|SUBJECT_LABEL|..] == subject.value
    ensures !Truthy(subject) ==> r[|SUBJECT_LABEL|..] == NO_SUBJECT
  {
    SUBJECT_LABEL + (if Truthy(subject) then subject.value else NO_SUBJECT)
  }

  /**
   * The five header lines: subject, sender, and the To, CC and BCC lists,
   * each after its label and each ending in a character that is not
   * whitespace.
   */
  function HeaderLines(subject: Option<string>, email: Email): (lines: seq<string>)
    ensures |lines| == 5 && lines[0] == SubjectLine(subject)
    ensures LabelledLine(lines[1], FROM_LABEL) && LabelledLine(lines[2], TO_LABEL)
    ensures LabelledLine(lines[3], CC_LABEL) && LabelledLine(lines[4], BCC_LABEL)
  {
    var from, to, cc, bcc := FROM_LABEL + FormatSingleAddress(email.from), TO_LABEL + FormatAddresses(email.to),
                              CC_LABEL + FormatAddresses(email.cc), BCC_LABEL + FormatAddresses(email.bcc);
    Labelled(FROM_LABEL, FormatSingleAddress(email.from));
    Labelled(TO_LABEL, FormatAddresses(email.to));
    Labelled(CC_LABEL, FormatAddresses(email.cc));
    Labelled(BCC_LABEL, FormatAddresses(email.bcc));
    [SubjectLine(subject), from, to, cc, bcc]
  }

  /** A header line: its label, then a non-empty field that does not end in whitespace. */
  predicate LabelledLine(line: string, tag: string) {
    |line| > |tag| && line[..|tag|] == tag && !IsWhitespace(line[|line| - 1])
  }

  /** A label followed by a field starts with the label and ends as the field does. */
  lemma Labelled(tag: string, field: string)
    requires |field| > 0 && !IsWhitespace(field[|field| - 1])
    ensures LabelledLine(tag + field, tag)
  {
    var line := tag + field;
    assert line[..|tag|] == tag;
    assert line[|line| - 1] == field[|field| - 1];
  }

  /**
   * `headerLines.join('\n')` starts as the subject line does and ends in a
   * character that is not whitespace, for any lines shaped as the header
   * lines are.
   */
  lemma JoinedLines(lines: seq<string>)
    requires |lines| == 5 && |lines[0]| > 0 && LabelledLine(lines[4], BCC_LABEL)
    ensures var h := Join(lines, "\n");
            |h| > 0 && h[0] == lines[0][0] && !IsWhitespace(h[|h| - 1])
  {
    var h := Join(lines, "\n");
    JoinStartsWithFirst(lines, "\n");
    JoinEndsWithLast(lines, "\n");
    var last := lines[4];
    assert h[|h| - 1] == last[|last| - 1];
  }

  /** `fullMessage`: the header block, a blank line and the body, trimmed. */
  function FullMessage(subject: Option<string>, email: Email, ai: AiOutcome): string
  {
    Trim(Join(HeaderLines(subject, email), "\n") + "\n\n" + ConvertEmailToMarkdown(email, ai))
  }

  /**
   * The trim of the full message takes nothing off the header: the message
   * is the header, followed by a blank line and the body with its trailing
   * whitespace removed, unless the body is whitespace only. So the message
   * is never empty and starts with the subject label.
   */
  lemma FullMessageShape(subject: Option<string>, email: Email, ai: AiOutcome)
    ensures var h := Join(HeaderLines(subject, email), "\n");
            var b := TrimEnd(ConvertEmailToMarkdown(email, ai));
            FullMessage(subject, email, ai) == h + (if b == "" then "" else "\n\n" + b)
    ensures FullMessage(subject, email, ai) != [] && FullMessage(subject, email, ai)[0] == '件'
  {
    var lines := HeaderLines(subject, email);
    NotWhitespace('件');
    JoinedLines(lines);
    TrimAroundBlankLine(Join(lines, "\n"), ConvertEmailToMarkdown(email, ai));
  }

  /**
   * A text that starts and ends with no whitespace, a blank line and a body,
   * trimmed: the text stays whole and only the body's trailing whitespace
   * goes, with the blank line when nothing else of the body is left.
   */
  lemma TrimAroundBlankLine(h: string, body: string)
    requires h != [] && !IsWhitespace(h[0]) && !IsWhitespace(h[|h| - 1])
    ensures var b := TrimEnd(body);
            Trim(h + "\n\n" + body) == h + (if b == "" then "" else "\n\n" + b)
  {
    var b := TrimEnd(body);
    var blank: string := "\n\n";
    var s := h + blank + body;
    AppendAssoc(h, blank, body);
    assert s[0] == h[0];
    LineBreakIsWhitespace();
    assert AllWhitespace(blank);
    TrimStartNoOp(s);
    TrimEndConcat(h, blank + body);
    TrimEndConcat(blank, body);
    TrimEndUnique(blank, []);
    TrimEndUnique(h, h);
    var m := TrimEnd(s);
    assert m == h + (if b == "" then "" else blank + b);
    assert Trim(s) == m;
  }

}
