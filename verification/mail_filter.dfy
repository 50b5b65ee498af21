/**
 The per-message decision of the `mail` handler (index.js:57-70): choose the
 subject (`headers.body.subject || parsed.subject`), keep the message only
 when that subject contains the Netflix "update your household" phrase,
 choose the content to scan (`parsed.html || parsed.text`) and extract the
 approval link from it.
 */
module MailFilter {
  import opened Wrappers
  import opened Text
  import opened LinkExtraction

  /** The exact, case-sensitive phrase a relevant subject contains. */
  const SubjectPhrase: string := "Importante: C\U{00F3}mo actualizar tu Hogar con Netflix"

  /**
   What the mail parser returns for one message. A field the parser leaves
   `undefined` (or, for `html`, `false`) is `None`.
   */
  datatype ParsedMail = ParsedMail(subject: Option<string>, html: Option<string>, text: Option<string>)

  /** JavaScript truthiness of a string that may be absent: present and not empty. */
  predicate Truthy(v: Option<string>) {
    v.Some? && v.value != ""
  }

  /** `a || b` on two possibly absent strings. */
  function Or(a: Option<string>, b: Option<string>): Option<string> {
    if Truthy(a) then a else b
  }

  /**
   What the handler does with one message: ignore it (subject does not
   match), fail with the `TypeError` of calling `match` on `undefined`
   (neither `html` nor `text` is there), report that the content holds no
   approval link, or approve the link.
   */
  datatype Outcome = Ignored | ContentMissing | NoLink | Approve(link: string)

  /** `subject && subject.includes(SubjectPhrase)`. */
  predicate IsRelevant(subject: Option<string>) {
    Truthy(subject) && Includes(subject.value, SubjectPhrase)
  }

  /**
   The decision for one message with header subject `headerSubject` and
   parser output `parsed`. A message is acted on exactly when the chosen
   subject (the header's if it is a non-empty string, the parser's
   otherwise) contains the phrase; only then is content looked at. With
   content present (the HTML if it is non-empty, the text otherwise), the
   link is approved exactly when `extractNetflixLink` finds one, and the
   approved link is the one it finds.
   */
  function HandleMail(headerSubject: Option<string>, parsed: ParsedMail): (o: Outcome)
    ensures !o.Ignored? <==>
      if Truthy(headerSubject) then Contains(headerSubject.value, SubjectPhrase)
      else parsed.subject.Some? && Contains(parsed.subject.value, SubjectPhrase)
    ensures o.ContentMissing? <==> !o.Ignored? && !Truthy(parsed.html) && parsed.text.None?
    ensures o.Approve? ==> IsApprovalLink(o.link)
    ensures !o.Ignored? && !o.ContentMissing? ==>
      var content := if Truthy(parsed.html) then parsed.html.value else parsed.text.value;
      && (o.Approve? <==> ExtractNetflixLink(content).Some?)
      && (o.Approve? ==> ExtractNetflixLink(content) == Some(o.link))
      && (o.NoLink? <==> ExtractNetflixLink(content).None?)
  {
    var subject := Or(headerSubject, parsed.subject);
    PhraseOccurrenceIsNonEmpty(subject);
    if !IsRelevant(subject) then
      Ignored
    else
      match Or(parsed.html, parsed.text)
      case None => ContentMissing
      case Some(content) =>
        match ExtractNetflixLink(content)
        case Some(link) => Approve(link)
        case None => NoLink
  }

  /** A string containing the (non-empty) phrase is not empty, so truthiness adds nothing to the test. */
  lemma PhraseOccurrenceIsNonEmpty(subject: Option<string>)
    ensures subject.Some? && Contains(subject.value, SubjectPhrase) ==> Truthy(subject)
  {
    if subject.Some? && Contains(subject.value, SubjectPhrase) {
      var i: nat :| OccursAt(subject.value, SubjectPhrase, i);
      assert |subject.value| >= |SubjectPhrase| > 0;
    }
  }

  /** A subject without the exact phrase means nothing else about the message matters. */
  lemma IrrelevantMailIgnored(headerSubject: Option<string>, parsed: ParsedMail)
    requires !IsRelevant(Or(headerSubject, parsed.subject))
    ensures HandleMail(headerSubject, parsed) == Ignored
  {
  }

  /** A non-empty header subject wins: the parser's subject is never consulted. */
  lemma HeaderSubjectTakesPrecedence(headerSubject: Option<string>, parsed: ParsedMail, other: Option<string>)
    requires Truthy(headerSubject)
    ensures HandleMail(headerSubject, parsed) == HandleMail(headerSubject, parsed.(subject := other))
  {
  }

  /** Non-empty HTML wins: the text part is never scanned. */
  lemma HtmlTakesPrecedence(headerSubject: Option<string>, parsed: ParsedMail, other: Option<string>)
    requires Truthy(parsed.html)
    ensures HandleMail(headerSubject, parsed) == HandleMail(headerSubject, parsed.(text := other))
  {
  }

  /**
   The end-to-end case: a message whose chosen subject contains the phrase
   and whose chosen content holds an approval link leads to approving
   exactly the link `extractNetflixLink` returns.
   */
  lemma ApprovalMailIsApproved(headerSubject: Option<string>, parsed: ParsedMail, content: string, link: string)
    requires IsRelevant(Or(headerSubject, parsed.subject))
    requires Or(parsed.html, parsed.text) == Some(content)
    requires ExtractNetflixLink(content) == Some(link)
    ensures HandleMail(headerSubject, parsed) == Approve(link)
  {
    var o := HandleMail(headerSubject, parsed);
    PhraseOccurrenceIsNonEmpty(Or(headerSubject, parsed.subject));
    assert !o.Ignored? && !o.ContentMissing?;
  }
}
