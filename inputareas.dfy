/** The decisions of `findUserInputAreas` (gosearch/gosearch.go:90-157): which
    forms, inputs, buttons and links of a fetched page are reported, and how a
    POST form's content type is classified. Fetching and parsing the page are
    inputs; the console output is the returned sequence of events. */
module InputAreas {
  import opened Outcomes
  import opened Text

  /** An `input`, `textarea` or `select` element of a form, by its `name`
      attribute. */
  datatype Field = Field(name: Option<string>)

  /** A `form` element: its `action`, `method` (here `httpMethod`) and `enctype` attributes, its
      fields and the text of its buttons, in document order. */
  datatype Form = Form(
    action: Option<string>,
    httpMethod: Option<string>,
    enctype: Option<string>,
    fields: seq<Field>,
    buttons: seq<string>)

  /** An `a` element, by its `href` attribute. */
  datatype Link = Link(href: Option<string>)

  /** The forms and links of a parsed page, in document order. */
  datatype Document = Document(forms: seq<Form>, links: seq<Link>)

  /** What fetching and parsing the page gave. */
  datatype PageFetch = GetFailed(err: string) | ParseFailed(err: string) | Parsed(doc: Document)

  /** How a POST form submits its data. */
  datatype Submission = Json | Multipart | UrlEncoded | PlainText | Unknown(contentType: string)

  /** One line of the report. */
  datatype Event =
    | PageError(err: string)
    | DocumentError(err: string)
    | FormFound(action: string)
    | Submits(kind: Submission)
    | InputFound(name: string)
    | ButtonFound(text: string)
    | QueryLinkFound(href: string)

  /** A form is reported when it has an `action` that starts with the base
      URL, a literal prefix test. */
  predicate ReportsForm(base: string, form: Form)
    ensures ReportsForm(base, form) <==>
      form.action.Some? && |base| <= |form.action.value| && form.action.value[..|base|] == base
  {
    form.action.Some? && base <= form.action.value
  }

  /** A link is reported when its `href` starts with the base URL and holds
      a query (a `?`). */
  predicate ReportsLink(base: string, link: Link)
    ensures ReportsLink(base, link) <==>
      && link.href.Some? && |base| <= |link.href.value| && link.href.value[..|base|] == base
      && exists i :: 0 <= i < |link.href.value| && link.href.value[i] == '?'
  {
    link.href.Some? && base <= link.href.value && '?' in link.href.value
  }

  /** The form posts: its method, `GET` when absent, upper-cased, is `POST`. */
  predicate IsPost(httpMethod: Option<string>)
    ensures IsPost(httpMethod) ==> httpMethod.Some? && |httpMethod.value| == 4
  {
    ToUpper(httpMethod.GetOr("GET")) == "POST"
  }

  /** The media type that selects each known submission kind. */
  function MediaType(kind: Submission): (mediaType: string)
    requires !kind.Unknown?
    ensures mediaType != ""
    ensures forall i :: 0 <= i < |mediaType| ==> !('A' <= mediaType[i] <= 'Z')
  {
    match kind
    case Json => "application/json"
    case Multipart => "multipart/form-data"
    case UrlEncoded => "application/x-www-form-urlencoded"
    case PlainText => "text/plain"
  }

  /** The submission kind of a content type, compared lower-cased; any other
      type is unknown and keeps the text as written. */
  function Classify(contentType: string): (kind: Submission)
    ensures kind.Unknown? ==> kind == Unknown(contentType)
    ensures !kind.Unknown? ==> ToLower(contentType) == MediaType(kind)
  {
    var lower := ToLower(contentType);
    if lower == "application/json" then Json
    else if lower == "multipart/form-data" then Multipart
    else if lower == "application/x-www-form-urlencoded" then UrlEncoded
    else if lower == "text/plain" then PlainText
    else Unknown(contentType)
  }

  /** The name shown for a field. */
  function FieldName(field: Field): (name: string)
    ensures field.name.Some? ==> name == field.name.value
    ensures field.name.None? ==> name == "Unnamed"
  {
    field.name.GetOr("Unnamed")
  }

  /** One event per field, in order. */
  function FieldEvents(fields: seq<Field>): (r: seq<Event>)
    ensures |r| == |fields|
    ensures forall i :: 0 <= i < |fields| ==> r[i] == InputFound(FieldName(fields[i]))
  {
    if fields == [] then [] else [InputFound(FieldName(fields[0]))] + FieldEvents(fields[1..])
  }

  /** One event per button, in order. */
  function ButtonEvents(buttons: seq<string>): (r: seq<Event>)
    ensures |r| == |buttons|
    ensures forall i :: 0 <= i < |buttons| ==> r[i] == ButtonFound(buttons[i])
  {
    if buttons == [] then [] else [ButtonFound(buttons[0])] + ButtonEvents(buttons[1..])
  }

  /** The report on one form: nothing unless it is reported; then its
      action, its content type when it posts, its fields and its buttons. */
  function FormEvents(base: string, form: Form): (r: seq<Event>)
    ensures r != [] <==> ReportsForm(base, form)
    ensures r != [] ==> r[0] == FormFound(form.action.value)
    ensures forall e :: e in r ==> !e.PageError? && !e.DocumentError? && !e.QueryLinkFound?
  {
    if !ReportsForm(base, form) then []
    else
      [FormFound(form.action.value)]
      + (if IsPost(form.httpMethod) then [Submits(Classify(form.enctype.GetOr("")))] else [])
      + FieldEvents(form.fields)
      + ButtonEvents(form.buttons)
  }

  /** The report on one link. */
  function LinkEvents(base: string, link: Link): (r: seq<Event>)
    ensures |r| <= 1
    ensures r != [] <==> ReportsLink(base, link)
    ensures r != [] ==> r[0] == QueryLinkFound(link.href.value)
    ensures forall e :: e in r ==> e.QueryLinkFound?
  {
    if ReportsLink(base, link) then [QueryLinkFound(link.href.value)] else []
  }

  /** The reports on all forms, in document order. */
  function FormsEvents(base: string, forms: seq<Form>): (r: seq<Event>)
    ensures forall e :: e in r ==> !e.PageError? && !e.DocumentError? && !e.QueryLinkFound?
  {
    if forms == [] then [] else FormEvents(base, forms[0]) + FormsEvents(base, forms[1..])
  }

  /** The reports on all links, in document order. */
  function LinksEvents(base: string, links: seq<Link>): (r: seq<Event>)
    ensures |r| <= |links|
    ensures forall e :: e in r ==> e.QueryLinkFound?
  {
    if links == [] then [] else LinkEvents(base, links[0]) + LinksEvents(base, links[1..])
  }

  /** `findUserInputAreas`: a page that cannot be fetched or parsed yields
      only its error; otherwise the forms are reported, then the links. */
  function ScanPage(base: string, page: PageFetch): (r: seq<Event>)
    ensures page.Parsed? <==> forall e :: e in r ==> !e.PageError? && !e.DocumentError?
    ensures !page.Parsed? ==> |r| == 1
  {
    match page
    case GetFailed(err) => assert [PageError(err)][0] == PageError(err); [PageError(err)]
    case ParseFailed(err) => assert [DocumentError(err)][0] == DocumentError(err); [DocumentError(err)]
    case Parsed(doc) => FormsEvents(base, doc.forms) + LinksEvents(base, doc.links)
  }

  /** A page that cannot be fetched, or cannot be parsed, reports its error
      and nothing else. */
  lemma UnreadablePageReportsOnlyItsError(base: string, page: PageFetch)
    requires !page.Parsed?
    ensures |ScanPage(base, page)| == 1
    ensures ScanPage(base, page)[0] == (if page.GetFailed? then PageError(page.err) else DocumentError(page.err))
  {
  }

  /** A form without an `action`, or with one outside the base URL, yields
      no event at all; a reported form's report opens with its action. */
  lemma FormReportedIff(base: string, form: Form)
    ensures FormEvents(base, form) != [] <==> form.action.Some? && base <= form.action.value
    ensures FormEvents(base, form) != [] ==> FormEvents(base, form)[0] == FormFound(form.action.value)
  {
  }

  /** What the report on one form holds: for a reported form exactly its
      action, its content type when it posts, the names of its fields and
      the texts of its buttons; for any other form nothing. */
  lemma FormEventsExactly(base: string, form: Form, e: Event)
    ensures e in FormEvents(base, form) <==> (ReportsForm(base, form) && (
      || e == FormFound(form.action.value)
      || (IsPost(form.httpMethod) && e == Submits(Classify(form.enctype.GetOr(""))))
      || (exists field :: field in form.fields && e == InputFound(FieldName(field)))
      || (exists button :: button in form.buttons && e == ButtonFound(button))))
  {
    if ReportsForm(base, form) {
      var fields, buttons := FieldEvents(form.fields), ButtonEvents(form.buttons);
      if e in fields {
        var i :| 0 <= i < |fields| && fields[i] == e;
        assert form.fields[i] in form.fields;
      }
      if e in buttons {
        var i :| 0 <= i < |buttons| && buttons[i] == e;
        assert form.buttons[i] in form.buttons;
      }
      if field :| field in form.fields && e == InputFound(FieldName(field)) {
        var i :| 0 <= i < |form.fields| && form.fields[i] == field;
        assert fields[i] == e;
      }
      if button :| button in form.buttons && e == ButtonFound(button) {
        var i :| 0 <= i < |form.buttons| && form.buttons[i] == button;
        assert buttons[i] == e;
      }
    }
  }

  /** A content type is reported only for a reported form that posts; a
      form without a method is a GET form and never gets one. */
  lemma ContentTypeOnlyWhenPosting(base: string, form: Form)
    ensures (exists kind :: Submits(kind) in FormEvents(base, form)) <==>
      ReportsForm(base, form) && IsPost(form.httpMethod)
    ensures form.httpMethod.None? ==> forall kind :: Submits(kind) !in FormEvents(base, form)
  {
    forall kind ensures Submits(kind) in FormEvents(base, form) ==> ReportsForm(base, form) && IsPost(form.httpMethod) {
      FormEventsExactly(base, form, Submits(kind));
    }
    if ReportsForm(base, form) && IsPost(form.httpMethod) {
      FormEventsExactly(base, form, Submits(Classify(form.enctype.GetOr(""))));
    }
  }

  /** The method test ignores letter case: a method posts exactly when it
      spells "post" in any mix of upper and lower case, and a missing method
      (taken as "GET") never does. */
  lemma IsPostSpelling(httpMethod: Option<string>)
    ensures IsPost(httpMethod) <==>
      && httpMethod.Some?
      && |httpMethod.value| == 4
      && httpMethod.value[0] in "pP" && httpMethod.value[1] in "oO"
      && httpMethod.value[2] in "sS" && httpMethod.value[3] in "tT"
  {
    var m := httpMethod.GetOr("GET");
    var upper := ToUpper(m);
    if httpMethod.None? {
      assert upper[0] == 'G';
    } else if |m| == 4 {
      assert upper == "POST" <==> upper[0] == 'P' && upper[1] == 'O' && upper[2] == 'S' && upper[3] == 'T';
    }
  }

  /** Each known media type is classified as its own kind. */
  lemma ClassifyMediaType(kind: Submission)
    requires !kind.Unknown?
    ensures Classify(MediaType(kind)) == kind
  {
    ClassifiesAs(MediaType(kind), kind);
  }

  /** `ClassifyMediaType` for a media type given as a variable. */
  lemma ClassifiesAs(mediaType: string, kind: Submission)
    requires !kind.Unknown? && mediaType == MediaType(kind)
    ensures Classify(mediaType) == kind
  {
    LowerCaseUnchanged(mediaType);
    match kind
    case Json => assert |mediaType| == 16;
    case Multipart => assert |mediaType| == 19;
    case UrlEncoded => assert |mediaType| == 33;
    case PlainText => assert |mediaType| == 10;
  }

  /** Classification ignores letter case: a content type gets a known kind
      exactly when it equals that kind's media type up to case. */
  lemma ClassifyIgnoresCase(contentType: string, kind: Submission)
    requires !kind.Unknown?
    ensures Classify(contentType) == kind <==> EqualFold(contentType, MediaType(kind))
  {
    ClassifyByLowerCase(contentType, kind);
    ClassifyMediaType(kind);
    ToLowerFold(contentType, MediaType(kind));
  }

  /** Any other content type is unknown and is reported as written, not
      lower-cased; a missing `enctype` (taken as "") is unknown too. */
  lemma UnknownKeepsText(contentType: string)
    ensures Classify(contentType).Unknown? <==>
      forall kind: Submission :: !kind.Unknown? ==> !EqualFold(contentType, MediaType(kind))
    ensures Classify(contentType).Unknown? ==> Classify(contentType).contentType == contentType
    ensures Classify("") == Unknown("")
  {
    forall kind: Submission | !kind.Unknown?
      ensures Classify(contentType) == kind <==> EqualFold(contentType, MediaType(kind))
    {
      ClassifyIgnoresCase(contentType, kind);
    }
    var k := Classify(contentType);
    if !k.Unknown? {
      assert EqualFold(contentType, MediaType(k));
    }
  }

  /** A content type gets a known kind exactly when its lower case is that
      kind's media type. */
  lemma ClassifyByLowerCase(contentType: string, kind: Submission)
    requires !kind.Unknown?
    ensures Classify(contentType) == kind <==> ToLower(contentType) == MediaType(kind)
  {
    var lower := ToLower(contentType);
    match kind
    case Json =>
    case Multipart =>
      if lower == MediaType(kind) { assert |lower| == 19; }
    case UrlEncoded =>
      if lower == MediaType(kind) { assert |lower| == 33; }
    case PlainText =>
      if lower == MediaType(kind) { assert |lower| == 10; }
  }

  /** Text without upper-case letters is its own lower case. */
  lemma LowerCaseUnchanged(s: string)
    requires forall i :: 0 <= i < |s| ==> !('A' <= s[i] <= 'Z')
    ensures ToLower(s) == s
  {
  }

  /** An event is in the report on a list of forms exactly when it is in the
      report on one of them. */
  lemma {:induction false} FormsEventsExactly(base: string, forms: seq<Form>, e: Event)
    ensures e in FormsEvents(base, forms) <==> exists form :: form in forms && e in FormEvents(base, form)
  {
    if forms != [] {
      FormsEventsExactly(base, forms[1..], e);
      assert forall form :: form in forms <==> form == forms[0] || form in forms[1..];
    }
  }

  /** An event is in the report on a list of links exactly when it names the
      `href` of one of them that is reported. */
  lemma {:induction false} LinksEventsExactly(base: string, links: seq<Link>, e: Event)
    ensures e in LinksEvents(base, links) <==>
      exists link :: link in links && ReportsLink(base, link) && e == QueryLinkFound(link.href.value)
  {
    if links != [] {
      LinksEventsExactly(base, links[1..], e);
      assert forall link :: link in links <==> link == links[0] || link in links[1..];
    }
  }

  /** A parsed page reports the action of exactly the forms whose action
      starts with the base URL. */
  lemma ReportedActions(base: string, doc: Document, action: string)
    ensures FormFound(action) in ScanPage(base, Parsed(doc)) <==>
      exists form :: form in doc.forms && form.action == Some(action) && base <= action
  {
    var e := FormFound(action);
    FormsEventsExactly(base, doc.forms, e);
    LinksEventsExactly(base, doc.links, e);
    if form :| form in doc.forms && form.action == Some(action) && base <= action {
      FormEventsExactly(base, form, e);
    }
    if e in FormsEvents(base, doc.forms) {
      var form :| form in doc.forms && e in FormEvents(base, form);
      FormEventsExactly(base, form, e);
    }
  }

  /** A parsed page reports a submission kind exactly when a reported form
      posts with a content type of that kind. */
  lemma ReportedContentTypes(base: string, doc: Document, kind: Submission)
    ensures Submits(kind) in ScanPage(base, Parsed(doc)) <==>
      exists form :: form in doc.forms && ReportsForm(base, form) && IsPost(form.httpMethod)
        && Classify(form.enctype.GetOr("")) == kind
  {
    var e := Submits(kind);
    FormsEventsExactly(base, doc.forms, e);
    LinksEventsExactly(base, doc.links, e);
    if form :| (form in doc.forms && ReportsForm(base, form) && IsPost(form.httpMethod)
               && Classify(form.enctype.GetOr("")) == kind) {
      FormEventsExactly(base, form, e);
    }
    if e in FormsEvents(base, doc.forms) {
      var form :| form in doc.forms && e in FormEvents(base, form);
      FormEventsExactly(base, form, e);
    }
  }

  /** A parsed page reports a field name exactly when a field of a reported
      form has that name, "Unnamed" standing for a missing one: fields of
      forms that are not reported never appear. */
  lemma ReportedInputs(base: string, doc: Document, name: string)
    ensures InputFound(name) in ScanPage(base, Parsed(doc)) <==>
      exists form, field :: form in doc.forms && ReportsForm(base, form) && field in form.fields
        && FieldName(field) == name
  {
    var e := InputFound(name);
    FormsEventsExactly(base, doc.forms, e);
    LinksEventsExactly(base, doc.links, e);
    if form, field :| (form in doc.forms && ReportsForm(base, form) && field in form.fields
                      && FieldName(field) == name) {
      FormEventsExactly(base, form, e);
    }
    if e in FormsEvents(base, doc.forms) {
      var form :| form in doc.forms && e in FormEvents(base, form);
      FormEventsExactly(base, form, e);
    }
  }

  /** A parsed page reports a button text exactly when a button of a
      reported form has that text. */
  lemma ReportedButtons(base: string, doc: Document, text: string)
    ensures ButtonFound(text) in ScanPage(base, Parsed(doc)) <==>
      exists form :: form in doc.forms && ReportsForm(base, form) && text in form.buttons
  {
    var e := ButtonFound(text);
    FormsEventsExactly(base, doc.forms, e);
    LinksEventsExactly(base, doc.links, e);
    if form :| form in doc.forms && ReportsForm(base, form) && text in form.buttons {
      FormEventsExactly(base, form, e);
    }
    if e in FormsEvents(base, doc.forms) {
      var form :| form in doc.forms && e in FormEvents(base, form);
      FormEventsExactly(base, form, e);
    }
  }

  /** A parsed page reports exactly the links whose `href` starts with the
      base URL and holds a `?`. */
  lemma ReportedLinks(base: string, doc: Document, href: string)
    ensures QueryLinkFound(href) in ScanPage(base, Parsed(doc)) <==>
      exists link :: link in doc.links && link.href == Some(href) && base <= href && '?' in href
  {
    var e := QueryLinkFound(href);
    FormsEventsExactly(base, doc.forms, e);
    LinksEventsExactly(base, doc.links, e);
  }
}
