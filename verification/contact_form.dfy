/** The contact form: four text fields, per-field validation on submit, and
    a hand-off to WhatsApp through a `wa.me` link whose `text` parameter is
    the percent-encoded message.

    Opening the link (`window.open`) is outside the model: a submission
    returns the link it would open, or nothing. */
module ContactForm {
  import opened Wrappers
  import opened JsString
  import opened EmailPattern
  import opened UriEncoding

  const WhatsAppNumber: string := "584142994143"

  /** Everything of the link before the encoded message. */
  const WhatsAppBase: string := "https://wa.me/" + WhatsAppNumber + "?text="

  /** The idea box refuses edits longer than this many UTF-16 code units. */
  const IdeaMaxLength: nat := 1000

  datatype Field = Nombre | Apellido | Email | Idea

  datatype FormData = FormData(nombre: string, apellido: string, email: string, idea: string)

  /** The current value of one field. */
  function Value(d: FormData, f: Field): string {
    match f
    case Nombre => d.nombre
    case Apellido => d.apellido
    case Email => d.email
    case Idea => d.idea
  }

  /** The five messages the form can show under a field. */
  datatype FieldError = NombreRequired | ApellidoRequired | EmailRequired | EmailInvalid | IdeaRequired

  /** The field under which an error is shown. */
  function FieldOf(e: FieldError): Field {
    match e
    case NombreRequired => Nombre
    case ApellidoRequired => Apellido
    case EmailRequired => Email
    case EmailInvalid => Email
    case IdeaRequired => Idea
  }

  function ErrorText(e: FieldError): string {
    match e
    case NombreRequired => "El nombre es requerido"
    case ApellidoRequired => "El apellido es requerido"
    case EmailRequired => "El correo es requerido"
    case EmailInvalid => "Ingresa un correo v\U{E1}lido"
    case IdeaRequired => "Cu\U{E9}ntanos tu idea"
  }

  /** Every message is non-empty, so the paragraph under a field renders
      whenever the field has an error, and no two errors share a message, so
      the text shown tells which check failed. */
  lemma ErrorTextsShownAndDistinct(e: FieldError, e': FieldError)
    ensures ErrorText(e) != ""
    ensures ErrorText(e) == ErrorText(e') <==> e == e'
  {
  }

  type Errors = map<Field, FieldError>

  /** The component's state: the field values and the errors last produced
      by validation. */
  datatype FormState = FormState(data: FormData, errors: Errors)

  const InitialData: FormData := FormData("", "", "", "")

  const Initial: FormState := FormState(InitialData, map[])

  /** What the form is meant to accept: every text field has a non-blank
      value and the e-mail, as typed, is in the pattern's language. */
  ghost predicate IsAcceptable(d: FormData) {
    && !AllWhitespace(d.nombre)
    && !AllWhitespace(d.apellido)
    && !AllWhitespace(d.email) && MatchesPattern(d.email)
    && !AllWhitespace(d.idea)
  }

  /** `validate`: the errors for the current values. Each blank text field
      gets its own "required" error whatever the others hold; the e-mail gets
      at most one error, "required" when blank after trimming and otherwise
      "invalid" when the untrimmed value fails the pattern. There are no
      errors exactly when the form is acceptable. */
  function Validate(d: FormData): (errors: Errors)
    ensures forall f :: f in errors ==> FieldOf(errors[f]) == f
    ensures Nombre in errors <==> AllWhitespace(d.nombre)
    ensures Apellido in errors <==> AllWhitespace(d.apellido)
    ensures Idea in errors <==> AllWhitespace(d.idea)
    ensures Email in errors <==> AllWhitespace(d.email) || !MatchesPattern(d.email)
    ensures Email in errors ==> (errors[Email] == EmailRequired <==> AllWhitespace(d.email))
    ensures errors == map[] <==> IsAcceptable(d)
  {
    ValidateEmailMatchesPattern(d.email);
    CollectErrors(IsBlank(d.nombre), IsBlank(d.apellido), IsBlank(d.email), ValidateEmail(d.email), IsBlank(d.idea))
  }

  /** The body of `validate`, given the outcome of each check: start from no
      errors and add one entry per failed check, the e-mail's "invalid" only
      when it is not blank. */
  function CollectErrors(nombreBlank: bool, apellidoBlank: bool, emailBlank: bool, emailMatches: bool,
                         ideaBlank: bool): (errors: Errors)
    ensures forall f :: f in errors ==> FieldOf(errors[f]) == f
    ensures Nombre in errors <==> nombreBlank
    ensures Apellido in errors <==> apellidoBlank
    ensures Idea in errors <==> ideaBlank
    ensures Email in errors <==> emailBlank || !emailMatches
    ensures Email in errors ==> (errors[Email] == EmailRequired <==> emailBlank)
    ensures errors == map[] <==> !nombreBlank && !apellidoBlank && !emailBlank && emailMatches && !ideaBlank
  {
    var e0: Errors := map[];
    var e1 := if nombreBlank then e0[Nombre := NombreRequired] else e0;
    var e2 := if apellidoBlank then e1[Apellido := ApellidoRequired] else e1;
    var e3 :=
      if emailBlank then e2[Email := EmailRequired]
      else if !emailMatches then e2[Email := EmailInvalid]
      else e2;
    var e4 := if ideaBlank then e3[Idea := IdeaRequired] else e3;
    assert e4 == map[] <==> e4.Keys == {};
    e4
  }

  const Greeting: string := "\U{A1}Hola! Soy *"
  const SurnameLead: string := " "
  const EmailLead: string := "*.\n\nCorreo: "
  const IdeaLead: string := "\n\nMi idea:\n"

  /** The message text of `buildWhatsAppMessage`, before encoding. */
  function Message(d: FormData): string {
    Greeting + d.nombre + SurnameLead + d.apellido + EmailLead + d.email + IdeaLead + d.idea
  }

  /** The message holds the four values verbatim, in the order name, last
      name, e-mail, idea, each at a position fixed by the template and the
      lengths of the values before it. */
  lemma MessageCarriesFields(d: FormData)
    ensures var o1 := |Greeting|;
            var o2 := o1 + |d.nombre| + |SurnameLead|;
            var o3 := o2 + |d.apellido| + |EmailLead|;
            var o4 := o3 + |d.email| + |IdeaLead|;
            && |Message(d)| == o4 + |d.idea|
            && Message(d)[..o1] == Greeting
            && Message(d)[o1..o1 + |d.nombre|] == d.nombre
            && Message(d)[o2..o2 + |d.apellido|] == d.apellido
            && Message(d)[o3..o3 + |d.email|] == d.email
            && Message(d)[o4..] == d.idea
  {
    var m := Message(d);
    var o1 := |Greeting|;
    var o2 := o1 + |d.nombre| + |SurnameLead|;
    var o3 := o2 + |d.apellido| + |EmailLead|;
    var o4 := o3 + |d.email| + |IdeaLead|;
    var p1 := Greeting + d.nombre;
    var p2 := p1 + SurnameLead + d.apellido;
    var p3 := p2 + EmailLead + d.email;
    var p4 := p3 + IdeaLead;
    assert m == p4 + d.idea;
    assert m[..|p3|] == p3 && m[..|p2|] == p2 && m[..|p1|] == p1;
    assert p1[o1..] == d.nombre;
    assert p2[o2..] == d.apellido;
    assert p3[o3..] == d.email;
  }

  /** The link of `handleSubmitWhatsApp`: the fixed `wa.me` prefix and the
      encoded message. The `text` value decodes back to the message and
      cannot carry a query or fragment delimiter, so whatever the user typed
      stays inside that single parameter. */
  function WhatsAppLink(d: FormData): (url: string)
    ensures |url| >= |WhatsAppBase| && url[..|WhatsAppBase|] == WhatsAppBase
    ensures url[|WhatsAppBase|..] == EncodeUriComponent(Message(d))
    ensures DecodeUriComponent(url[|WhatsAppBase|..]) == Some(Message(d))
    ensures IsPercentEncoded(url[|WhatsAppBase|..])
    ensures var q := url[|WhatsAppBase|..];
            '&' !in q && '#' !in q && '=' !in q && '?' !in q && ' ' !in q
  {
    var q := EncodeUriComponent(Message(d));
    DecodeEncode(Message(d));
    EncodedHasNoDelimiters(q);
    var url := WhatsAppBase + q;
    assert url[|WhatsAppBase|..] == q;
    url
  }

  /** `handleSubmitWhatsApp`: validation runs and its errors replace the old
      ones; a link is produced exactly when there are no errors. The values
      are untouched. */
  function Submit(st: FormState): (r: (FormState, Option<string>))
    ensures r.0.data == st.data
    ensures r.0.errors == Validate(st.data)
    ensures r.1.Some? <==> IsAcceptable(st.data)
    ensures r.1.Some? ==> r.1.value == WhatsAppLink(st.data)
  {
    var errors := Validate(st.data);
    var st' := st.(errors := errors);
    if errors == map[] then (st', Some(WhatsAppLink(st.data))) else (st', None)
  }

  /** The `onChange` handler of one field. The idea box drops an edit whose
      length exceeds the cap, leaving the state as it was; every other edit
      replaces its own field's value. No edit touches the errors or any
      other field. */
  function Edit(st: FormState, field: Field, value: string): (st': FormState)
    ensures st'.errors == st.errors
    ensures forall g :: g != field ==> Value(st'.data, g) == Value(st.data, g)
    ensures field == Idea && Utf16Length(value) > IdeaMaxLength ==> st' == st
    ensures field != Idea || Utf16Length(value) <= IdeaMaxLength ==> Value(st'.data, field) == value
  {
    match field
    case Nombre => st.(data := st.data.(nombre := value))
    case Apellido => st.(data := st.data.(apellido := value))
    case Email => st.(data := st.data.(email := value))
    case Idea =>
      if Utf16Length(value) <= IdeaMaxLength then st.(data := st.data.(idea := value)) else st
  }

  /** What the user can do: type into a field, or press the send button. */
  datatype Event = Change(field: Field, value: string) | Send

  function Step(st: FormState, ev: Event): (FormState, Option<string>) {
    match ev
    case Change(f, v) => (Edit(st, f, v), None)
    case Send => Submit(st)
  }

  /** The state after a sequence of events, and the links opened on the way. */
  function Run(st: FormState, evs: seq<Event>): (FormState, seq<string>)
    decreases |evs|
  {
    if |evs| == 0 then (st, [])
    else
      var (st1, link) := Step(st, evs[0]);
      var (st2, links) := Run(st1, evs[1..]);
      (st2, (if link.Some? then [link.value] else []) + links)
  }

  predicate IdeaWithinCap(st: FormState) {
    Utf16Length(st.data.idea) <= IdeaMaxLength
  }

  /** No sequence of events takes the idea past the cap once it is within it. */
  lemma {:induction false} RunKeepsIdeaWithinCap(st: FormState, evs: seq<Event>)
    requires IdeaWithinCap(st)
    ensures IdeaWithinCap(Run(st, evs).0)
    decreases |evs|
  {
    if |evs| > 0 {
      var st1 := Step(st, evs[0]).0;
      assert IdeaWithinCap(st1) by {
        match evs[0]
        case Change(f, v) =>
          if f != Idea { assert Value(st1.data, Idea) == Value(st.data, Idea); }
        case Send =>
      }
      RunKeepsIdeaWithinCap(st1, evs[1..]);
    }
  }

  /** From the empty form, the idea never holds more than 1000 UTF-16 code
      units, and so never more than 1000 characters. */
  lemma IdeaCapFromInitial(evs: seq<Event>)
    ensures Utf16Length(Run(Initial, evs).0.data.idea) <= IdeaMaxLength
    ensures |Run(Initial, evs).0.data.idea| <= IdeaMaxLength
  {
    RunKeepsIdeaWithinCap(Initial, evs);
  }

  /** `l` is a `wa.me` link to the form's number whose `text` value decodes. */
  predicate IsWhatsAppLink(l: string) {
    |l| >= |WhatsAppBase| && l[..|WhatsAppBase|] == WhatsAppBase
    && DecodeUriComponent(l[|WhatsAppBase|..]).Some?
  }

  /** The link a single event opens, if any, is a `wa.me` link. */
  lemma StepLinkIsWhatsApp(st: FormState, ev: Event)
    ensures var link := Step(st, ev).1; link.Some? ==> IsWhatsAppLink(link.value)
  {
    if ev.Send? && IsAcceptable(st.data) {
      var l := WhatsAppLink(st.data);
      assert l[|WhatsAppBase|..] == EncodeUriComponent(Message(st.data));
    }
  }

  /** Every link a run opens is a `wa.me` link whose `text` value decodes. */
  lemma {:induction false} RunLinksAreWhatsApp(st: FormState, evs: seq<Event>)
    ensures forall l :: l in Run(st, evs).1 ==> IsWhatsAppLink(l)
    decreases |evs|
  {
    if |evs| > 0 {
      var (st1, link) := Step(st, evs[0]);
      StepLinkIsWhatsApp(st, evs[0]);
      RunLinksAreWhatsApp(st1, evs[1..]);
      var here: seq<string> := if link.Some? then [link.value] else [];
      assert Run(st, evs).1 == here + Run(st1, evs[1..]).1;
    }
  }

  /** Only sending opens a link: a run of edits alone opens none. */
  lemma {:induction false} EditsOpenNoLink(st: FormState, evs: seq<Event>)
    requires forall i :: 0 <= i < |evs| ==> evs[i].Change?
    ensures Run(st, evs).1 == []
    decreases |evs|
  {
    if |evs| > 0 {
      EditsOpenNoLink(Step(st, evs[0]).0, evs[1..]);
    }
  }

  /** Sending an untouched form opens nothing and shows the four "required"
      errors. */
  lemma SendingEmptyFormFails()
    ensures Submit(Initial).1 == None
    ensures Submit(Initial).0.errors == map[Nombre := NombreRequired, Apellido := ApellidoRequired,
                                            Email := EmailRequired, Idea := IdeaRequired]
  {
  }
}
