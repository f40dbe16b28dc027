/** `validateForm` (main.js): the submit-time check of the configuration form,
    and the date check of the separate backtest form. The URL constructor is
    not modelled; it is passed in as an oracle that yields the parsed URL's
    `protocol` (such as "https:") or None when parsing throws. */
module FormValidation {
  import opened Wrappers
  import opened JsText
  import opened EmailRegex
  import RowLists

  /** Why a submission is refused, in the order the checks run. */
  datatype Reason =
    | MissingTerm
    | TooManyTerms
    | TooManyEmails
    | InvalidEmail(email: string)
    | WebhookNotHttps
    | WebhookInvalid

  datatype Verdict = Accept | Reject(reason: Reason)

  /** The values of the form's inputs at submit time: every `term` input, every
      `mail_to` input, and the `#teams_webhook` input when present. */
  datatype Form = Form(terms: seq<string>, emails: seq<string>, webhook: Option<string>)

  /** The alert shown for each refusal; an invalid e-mail is named at the end. */
  function Message(reason: Reason): (m: string)
    ensures reason.InvalidEmail? ==>
              |reason.email| <= |m| && m[|m| - |reason.email|..] == reason.email
  {
    match reason
    case MissingTerm => "É necessário adicionar pelo menos um termo de busca."
    case TooManyTerms => "Máximo de 5 termos permitidos."
    case TooManyEmails => "Máximo de 5 emails permitidos."
    case InvalidEmail(e) => "Email inválido: " + e
    case WebhookNotHttps => "O webhook do Teams deve ser uma URL HTTPS."
    case WebhookInvalid => "URL do webhook do Teams inválida."
  }

  // ---------- the rules ----------

  /** Some term input holds a non-blank value. */
  predicate HasValidTerm(terms: seq<string>) {
    exists k :: 0 <= k < |terms| && Trim(terms[k]) != []
  }

  /** `emails.map(e => e.value.trim()).filter(e => e)`. */
  function NonBlankTrimmed(emails: seq<string>): (r: seq<string>)
    ensures |r| <= |emails|
    ensures forall k :: 0 <= k < |r| ==> r[k] != []
  {
    if emails == [] then []
    else
      var rest := NonBlankTrimmed(emails[..|emails| - 1]);
      var t := Trim(emails[|emails| - 1]);
      if t != [] then rest + [t] else rest
  }

  /** The position of the first value the e-mail expression rejects. */
  function FirstInvalid(values: seq<string>): (r: Option<nat>)
    ensures r.Some? ==> r.value < |values| && !Matches(values[r.value])
    ensures r.Some? ==> forall k :: 0 <= k < r.value ==> Matches(values[k])
    ensures r.None? <==> forall k :: 0 <= k < |values| ==> Matches(values[k])
  {
    if values == [] then None
    else if !Matches(values[0]) then Some(0)
    else match FirstInvalid(values[1..])
      case None => None
      case Some(p) => Some(p + 1)
  }

  /** The webhook rule: a blank or missing field passes; otherwise the untrimmed
      value must parse and its protocol must be `https:`. */
  function CheckWebhook(webhook: Option<string>, parseUrl: string -> Option<string>): Verdict {
    if webhook.None? || Trim(webhook.value) == [] then Accept
    else match parseUrl(webhook.value)
      case None => Reject(WebhookInvalid)
      case Some(protocol) => if protocol != "https:" then Reject(WebhookNotHttps) else Accept
  }

  /** `validateForm`: the rules in source order, stopping at the first that
      fails. A page without the form accepts. */
  function Validate(form: Option<Form>, parseUrl: string -> Option<string>): Verdict {
    if form.None? then Accept
    else
      var f := form.value;
      if !HasValidTerm(f.terms) then Reject(MissingTerm)
      else if |f.terms| > RowLists.MaxTerms then Reject(TooManyTerms)
      else
        var values := NonBlankTrimmed(f.emails);
        if |values| > RowLists.MaxEmails then Reject(TooManyEmails)
        else match FirstInvalid(values)
          case Some(p) => Reject(InvalidEmail(values[p]))
          case None => CheckWebhook(f.webhook, parseUrl)
  }

  /** `validateForm` as the browser runs it: the rules in order, each loop
      below standing for one pass of the source, returning at the first
      failure. */
  method ValidateForm(form: Option<Form>, parseUrl: string -> Option<string>) returns (v: Verdict)
    ensures v == Validate(form, parseUrl)
  {
    if form.None? {
      return Accept;
    }
    var f := form.value;
    var hasValidTerm := AnyTermNonBlank(f.terms);
    if !hasValidTerm {
      return Reject(MissingTerm);
    }
    if |f.terms| > RowLists.MaxTerms {
      return Reject(TooManyTerms);
    }
    var emailValues := TrimmedNonBlank(f.emails);
    if |emailValues| > RowLists.MaxEmails {
      return Reject(TooManyEmails);
    }
    var bad := FindInvalidEmail(emailValues);
    if bad.Some? {
      return Reject(InvalidEmail(emailValues[bad.value]));
    }
    v := CheckWebhook(f.webhook, parseUrl);
  }

  /** The `forEach` pass that sets `hasValidTerm` when some trimmed term is
      non-empty. */
  method AnyTermNonBlank(terms: seq<string>) returns (hasValidTerm: bool)
    ensures hasValidTerm == HasValidTerm(terms)
  {
    hasValidTerm := false;
    var i := 0;
    while i < |terms|
      invariant 0 <= i <= |terms|
      invariant hasValidTerm <==> exists k :: 0 <= k < i && Trim(terms[k]) != []
    {
      if Trim(terms[i]) != [] {
        hasValidTerm := true;
      }
      i := i + 1;
    }
  }

  /** The `map(trim)`/`filter` pass over the e-mail inputs. */
  method TrimmedNonBlank(emails: seq<string>) returns (emailValues: seq<string>)
    ensures emailValues == NonBlankTrimmed(emails)
  {
    emailValues := [];
    var i := 0;
    while i < |emails|
      invariant 0 <= i <= |emails|
      invariant emailValues == NonBlankTrimmed(emails[..i])
    {
      assert emails[..i + 1][..i] == emails[..i];
      var t := Trim(emails[i]);
      if t != [] {
        emailValues := emailValues + [t];
      }
      i := i + 1;
    }
    assert emails[..|emails|] == emails;
  }

  /** The `for...of` loop that stops at the first value the e-mail expression
      rejects. */
  method FindInvalidEmail(values: seq<string>) returns (bad: Option<nat>)
    ensures bad == FirstInvalid(values)
  {
    var i := 0;
    while i < |values|
      invariant 0 <= i <= |values|
      invariant forall k :: 0 <= k < i ==> Matches(values[k])
    {
      if !Matches(values[i]) {
        return Some(i);
      }
      i := i + 1;
    }
    return None;
  }

  // ---------- what the rules mean ----------

  /** The e-mail list the rules look at holds exactly the trimmed values of the
      non-blank e-mail inputs. */
  lemma {:induction false} NonBlankTrimmedMembers(emails: seq<string>, x: string)
    ensures x in NonBlankTrimmed(emails) <==>
              exists k :: 0 <= k < |emails| && HasVisible(emails[k]) && Trim(emails[k]) == x
  {
    if emails != [] {
      var init := emails[..|emails| - 1];
      var last := emails[|emails| - 1];
      NonBlankTrimmedMembers(init, x);
      TrimEmptyIff(last);
      if exists k :: 0 <= k < |emails| && HasVisible(emails[k]) && Trim(emails[k]) == x {
        var k :| 0 <= k < |emails| && HasVisible(emails[k]) && Trim(emails[k]) == x;
        if k < |init| {
          assert init[k] == emails[k];
        }
      }
      if exists k :: 0 <= k < |init| && HasVisible(init[k]) && Trim(init[k]) == x {
        var k :| 0 <= k < |init| && HasVisible(init[k]) && Trim(init[k]) == x;
        assert emails[k] == init[k];
      }
    }
  }

  /** Some term is non-blank exactly when some term input holds a character
      other than white space. */
  lemma HasValidTermIff(terms: seq<string>)
    ensures HasValidTerm(terms) <==> exists k :: 0 <= k < |terms| && HasVisible(terms[k])
  {
    forall k | 0 <= k < |terms| ensures Trim(terms[k]) != [] <==> HasVisible(terms[k]) {
      TrimEmptyIff(terms[k]);
    }
  }

  /** Every non-blank e-mail input, trimmed, has the e-mail shape. */
  ghost predicate AllEmailsShaped(emails: seq<string>) {
    forall k :: 0 <= k < |emails| && HasVisible(emails[k]) ==> EmailShape(Trim(emails[k]))
  }

  /** The webhook field is missing, blank, or parses with protocol `https:`. */
  ghost predicate WebhookAcceptable(webhook: Option<string>, parseUrl: string -> Option<string>) {
    webhook.Some? && HasVisible(webhook.value) ==> parseUrl(webhook.value) == Some("https:")
  }

  lemma FirstInvalidNoneIff(emails: seq<string>)
    ensures FirstInvalid(NonBlankTrimmed(emails)).None? <==> AllEmailsShaped(emails)
  {
    var values := NonBlankTrimmed(emails);
    if FirstInvalid(values).None? {
      forall k | 0 <= k < |emails| && HasVisible(emails[k]) ensures EmailShape(Trim(emails[k])) {
        NonBlankTrimmedMembers(emails, Trim(emails[k]));
        var p :| 0 <= p < |values| && values[p] == Trim(emails[k]);
        MatchesIff(values[p]);
      }
    } else {
      var p := FirstInvalid(values).value;
      NonBlankTrimmedMembers(emails, values[p]);
      var k :| 0 <= k < |emails| && HasVisible(emails[k]) && Trim(emails[k]) == values[p];
      MatchesIff(values[p]);
    }
  }

  lemma CheckWebhookAcceptIff(webhook: Option<string>, parseUrl: string -> Option<string>)
    ensures CheckWebhook(webhook, parseUrl) == Accept <==> WebhookAcceptable(webhook, parseUrl)
  {
    if webhook.Some? {
      TrimEmptyIff(webhook.value);
    }
  }

  /** A present form is accepted exactly when every rule holds: a non-blank
      term, at most five term inputs (blank ones count), at most five non-blank
      e-mails, each of the e-mail shape, and an acceptable webhook. */
  lemma ValidateAcceptIff(f: Form, parseUrl: string -> Option<string>)
    ensures Validate(Some(f), parseUrl) == Accept <==>
              && (exists k :: 0 <= k < |f.terms| && HasVisible(f.terms[k]))
              && |f.terms| <= RowLists.MaxTerms
              && |NonBlankTrimmed(f.emails)| <= RowLists.MaxEmails
              && AllEmailsShaped(f.emails)
              && WebhookAcceptable(f.webhook, parseUrl)
  {
    HasValidTermIff(f.terms);
    FirstInvalidNoneIff(f.emails);
    CheckWebhookAcceptIff(f.webhook, parseUrl);
  }

  /** Each refusal names the first rule that fails: every earlier rule holds
      and the named one does not. An e-mail refusal names the first of the
      trimmed non-blank e-mails that lacks the e-mail shape; the webhook is
      only parsed once everything else has passed. */
  lemma ValidateRejectsAtFirstFailure(f: Form, parseUrl: string -> Option<string>)
    ensures Validate(Some(f), parseUrl) == Reject(MissingTerm) <==>
              !exists k :: 0 <= k < |f.terms| && HasVisible(f.terms[k])
    ensures Validate(Some(f), parseUrl) == Reject(TooManyTerms) <==>
              && (exists k :: 0 <= k < |f.terms| && HasVisible(f.terms[k]))
              && |f.terms| > RowLists.MaxTerms
    ensures Validate(Some(f), parseUrl) == Reject(TooManyEmails) <==>
              && (exists k :: 0 <= k < |f.terms| && HasVisible(f.terms[k]))
              && |f.terms| <= RowLists.MaxTerms
              && |NonBlankTrimmed(f.emails)| > RowLists.MaxEmails
    ensures forall e :: Validate(Some(f), parseUrl) == Reject(InvalidEmail(e)) ==>
              && (exists k :: 0 <= k < |f.terms| && HasVisible(f.terms[k]))
              && |f.terms| <= RowLists.MaxTerms
              && |NonBlankTrimmed(f.emails)| <= RowLists.MaxEmails
              && exists p :: 0 <= p < |NonBlankTrimmed(f.emails)|
                   && NonBlankTrimmed(f.emails)[p] == e && !EmailShape(e)
                   && forall q :: 0 <= q < p ==> EmailShape(NonBlankTrimmed(f.emails)[q])
    ensures Validate(Some(f), parseUrl) in {Reject(WebhookInvalid), Reject(WebhookNotHttps)} ==>
              && (exists k :: 0 <= k < |f.terms| && HasVisible(f.terms[k]))
              && |f.terms| <= RowLists.MaxTerms
              && |NonBlankTrimmed(f.emails)| <= RowLists.MaxEmails
              && AllEmailsShaped(f.emails)
              && f.webhook.Some? && HasVisible(f.webhook.value)
    ensures Validate(Some(f), parseUrl) == Reject(WebhookInvalid) ==>
              parseUrl(f.webhook.value).None?
    ensures Validate(Some(f), parseUrl) == Reject(WebhookNotHttps) ==>
              parseUrl(f.webhook.value).Some? && parseUrl(f.webhook.value).value != "https:"
  {
    HasValidTermIff(f.terms);
    FirstInvalidNoneIff(f.emails);
    var values := NonBlankTrimmed(f.emails);
    var first := FirstInvalid(values);
    if first.Some? {
      var p := first.value;
      MatchesIff(values[p]);
      forall q | 0 <= q < p ensures EmailShape(values[q]) {
        MatchesIff(values[q]);
      }
    }
    if f.webhook.Some? {
      TrimEmptyIff(f.webhook.value);
    }
  }

  // ---------- validation scenarios ----------

  lemma FooIsValidTerm()
    ensures Trim("foo") == "foo" && HasValidTerm(["foo"])
  {
    assert !IsSpace('f') && !IsSpace('o');
    assert Trim(["foo"][0]) != [];
  }

  /** No term, one e-mail: refused for the missing term. */
  lemma ScenarioNoTerm(parseUrl: string -> Option<string>)
    ensures Validate(Some(Form([], ["a@b.com"], None)), parseUrl) == Reject(MissingTerm)
  {
  }

  /** One term, nothing else: accepted. */
  lemma ScenarioOneTerm(parseUrl: string -> Option<string>)
    ensures Validate(Some(Form(["foo"], [], None)), parseUrl) == Accept
  {
    FooIsValidTerm();
  }

  /** A malformed e-mail is refused and named. */
  lemma ScenarioBadEmail(parseUrl: string -> Option<string>)
    ensures Validate(Some(Form(["foo"], ["not-an-email"], None)), parseUrl)
              == Reject(InvalidEmail("not-an-email"))
  {
    FooIsValidTerm();
    MatchesExamples();
    assert Trim("not-an-email") == "not-an-email" by {
      assert !IsSpace('n') && !IsSpace('l');
    }
    assert NonBlankTrimmed(["not-an-email"]) == ["not-an-email"] by {
      assert ["not-an-email"][..0] == [];
    }
  }

  /** A webhook whose protocol is `http:` is refused; one with `https:` passes. */
  lemma ScenarioWebhook(parseUrl: string -> Option<string>)
    requires parseUrl("http://example.com/hook") == Some("http:")
    requires parseUrl("https://example.com/hook") == Some("https:")
    ensures Validate(Some(Form(["foo"], [], Some("http://example.com/hook"))), parseUrl)
              == Reject(WebhookNotHttps)
    ensures Validate(Some(Form(["foo"], [], Some("https://example.com/hook"))), parseUrl)
              == Accept
  {
    FooIsValidTerm();
    assert HasVisible("http://example.com/hook") by { assert !IsSpace("http://example.com/hook"[0]); }
    assert HasVisible("https://example.com/hook") by { assert !IsSpace("https://example.com/hook"[0]); }
    TrimEmptyIff("http://example.com/hook");
    TrimEmptyIff("https://example.com/hook");
  }

  /** Six non-blank e-mails are refused for their number, before any of them
      is checked for shape. */
  lemma ValidateTooManyEmails(parseUrl: string -> Option<string>, emails: seq<string>)
    requires |emails| == 6 && forall k :: 0 <= k < |emails| ==> HasVisible(emails[k])
    ensures Validate(Some(Form(["foo"], emails, None)), parseUrl) == Reject(TooManyEmails)
  {
    FooIsValidTerm();
    NonBlankTrimmedAllVisible(emails);
  }

  lemma {:induction false} NonBlankTrimmedAllVisible(emails: seq<string>)
    requires forall k :: 0 <= k < |emails| ==> HasVisible(emails[k])
    ensures |NonBlankTrimmed(emails)| == |emails|
  {
    if emails != [] {
      NonBlankTrimmedAllVisible(emails[..|emails| - 1]);
      TrimEmptyIff(emails[|emails| - 1]);
    }
  }

  // ---------- the backtest form ----------

  /** The backtest form's submit handler lets the submission through only when
      the `date` input exists and its value is not the empty string. */
  function BacktestDateAccepted(dateInput: Option<string>): (ok: bool)
    ensures ok <==> dateInput.Some? && |dateInput.value| > 0
  {
    !(dateInput.None? || dateInput.value == "")
  }

  /** Unlike `validateForm`, the date check does not trim. */
  lemma BacktestDateNotTrimmed()
    ensures BacktestDateAccepted(Some(" "))
    ensures !BacktestDateAccepted(Some("")) && !BacktestDateAccepted(None)
  {
  }
}
