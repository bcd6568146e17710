/** The server side of the inquiry form (app.py, lines 33-89): reading the posted fields, composing
    the notification mail, and answering the browser. */
module MailServer {
  import opened TextOps
  import opened Wrappers

  /** The posted form: for each posted key, the first value posted for it, which is what
      `request.form.get` returns. */
  type Form = map<string, string>

  /** `request.form.get(key, '')`. */
  function Get(form: Form, key: string): string {
    if key in form then form[key] else ""
  }

  /** `str.strip()`. */
  function Strip(s: string): string {
    Trim(Python, s)
  }

  /** `request.form.get(key, '').strip()`: empty when the key is missing or holds only
      whitespace, otherwise the posted value less its surrounding whitespace. */
  function Field(form: Form, key: string): (r: string)
    ensures IsTrimmed(Python, r)
    ensures key !in form ==> r == ""
    ensures r == "" <==> key !in form || AllSpace(Python, form[key])
    ensures key in form ==> exists i :: CutFrom(Python, form[key], i, r)
  {
    Strip(Get(form, key))
  }

  /** The fields passed to the mail thread, in its argument order. */
  datatype Inquiry = Inquiry(nombre: string, email: string, organizacion: string, tipo: string, mensaje: string)

  /** The sender's name: the stripped full name when it is not empty, else the stripped join of
      the stripped first and last names around one space. */
  function ComposeName(form: Form): (r: string)
    ensures IsTrimmed(Python, r)
  {
    var fullName := Field(form, "fullName");
    if fullName != "" then fullName
    else Strip(Field(form, "firstName") + " " + Field(form, "lastName"))
  }

  /** What `send` reads from the form before it starts the mail thread: the composed name and
      the stripped email, organization, inquiry type and message. */
  function ReadInquiry(form: Form): (i: Inquiry)
    ensures i.nombre == ComposeName(form) && i.email == Field(form, "email")
    ensures i.organizacion == Field(form, "organization") && i.tipo == Field(form, "inquiryType")
    ensures i.mensaje == Field(form, "message")
  {
    Inquiry(ComposeName(form), Field(form, "email"), Field(form, "organization"),
      Field(form, "inquiryType"), Field(form, "message"))
  }

  /** No extracted field has whitespace at either end. */
  lemma ReadInquiryTrimmed(form: Form)
    ensures var i := ReadInquiry(form);
      IsTrimmed(Python, i.nombre) && IsTrimmed(Python, i.email) && IsTrimmed(Python, i.organizacion)
      && IsTrimmed(Python, i.tipo) && IsTrimmed(Python, i.mensaje)
  {
    var i := ReadInquiry(form);
    assert IsTrimmed(Python, i.nombre) && IsTrimmed(Python, i.email);
  }

  /** A missing key reads as "". */
  lemma ReadInquiryDefaults(form: Form)
    ensures var i := ReadInquiry(form);
      ("email" !in form ==> i.email == "") && ("organization" !in form ==> i.organizacion == "")
      && ("inquiryType" !in form ==> i.tipo == "") && ("message" !in form ==> i.mensaje == "")
  {
  }

  /** The name reads as "" when none of the three name keys is posted. */
  lemma ReadInquiryNoName(form: Form)
    requires "fullName" !in form && "firstName" !in form && "lastName" !in form
    ensures ReadInquiry(form).nombre == ""
  {
    NameFromParts(form);
  }

  /** A full name with something besides whitespace wins over the first and last names. */
  lemma FullNameTakesPrecedence(form: Form)
    requires "fullName" in form && !AllSpace(Python, form["fullName"])
    ensures ComposeName(form) == Field(form, "fullName") != ""
  {
  }

  /** Without a full name, the name is the first and last names joined by one space, with no
      stray space when one of them is missing, and empty when both are. */
  lemma {:induction false} NameFromParts(form: Form)
    requires "fullName" !in form || AllSpace(Python, form["fullName"])
    ensures var first, last := Field(form, "firstName"), Field(form, "lastName");
      ComposeName(form) ==
        if first != "" && last != "" then first + " " + last
        else if first != "" then first
        else last
  {
    var first, last := Field(form, "firstName"), Field(form, "lastName");
    JoinedName(first, last);
  }

  lemma JoinedName(first: string, last: string)
    requires IsTrimmed(Python, first) && IsTrimmed(Python, last)
    ensures Strip(first + " " + last) ==
      if first != "" && last != "" then first + " " + last
      else if first != "" then first
      else last
  {
    assert IsSpace(Python, ' ');
    if first != "" && last != "" {
      var m := first + " " + last;
      assert m[0] == first[0] && m[|m| - 1] == last[|last| - 1];
      assert [] + m + [] == m;
      TrimUnique(Python, [], m, []);
    } else if first != "" {
      assert [] + first + " " == first + " " + last;
      TrimUnique(Python, [], first, " ");
    } else if last != "" {
      assert " " + last + [] == first + " " + last;
      TrimUnique(Python, " ", last, []);
    } else {
      assert AllSpace(Python, first + " " + last);
    }
  }

  const Subject: string := "New Inquiry from Adamus Capital"
  /** The footer line, one line in the template; written as two literals so that proving it
      holds no newline stays cheap. */
  const Footer: string := "This is an automated message." + " Please do not reply to this email."

  /** The lines of the body's triple-quoted template before the message. */
  function BodyHead(i: Inquiry): seq<string> {
    ["New contact form submission:", "", "Name: " + i.nombre, "Email: " + i.email,
     "Organization: " + i.organizacion, "Inquiry Type: " + i.tipo, "Message:"]
  }

  /** The lines of the template after the message; the last one is empty because the template
      ends with a newline. */
  function BodyTail(): seq<string> {
    ["", "---", Footer, ""]
  }

  /** The body of the notification mail: the template's lines joined by newlines. The message
      sits, as given, between the fixed lines before it and those after it. */
  function Body(i: Inquiry): (r: string)
    ensures r == Unlines(BodyHead(i)) + "\n" + i.mensaje + "\n" + Unlines(BodyTail())
  {
    UnlinesAppend(BodyHead(i) + [i.mensaje], BodyTail());
    UnlinesAppend(BodyHead(i), [i.mensaje]);
    Unlines(BodyHead(i) + [i.mensaje] + BodyTail())
  }

  /** The header lines of the message and the blank line that ends them. */
  function MailHead(destino: string, user: string): seq<string> {
    ["Subject: " + Subject, "To: " + destino, "From: " + user, ""]
  }

  /** The text handed to the mail server: the headers, a blank line, the body. The body is the
      whole rest of the text after the header block. */
  function MailText(destino: string, user: string, i: Inquiry): (r: string)
    ensures r == Unlines(MailHead(destino, user)) + "\n" + Body(i)
  {
    UnlinesAppend(MailHead(destino, user), [Body(i)]);
    Unlines(MailHead(destino, user) + [Body(i)])
  }

  /** For any field values, newlines included, the mail is the header lines, the template's
      lines before the message, the message, and the template's lines after it, joined by
      newlines, in that order. */
  lemma MailTextLayout(destino: string, user: string, i: Inquiry)
    ensures MailText(destino, user, i)
      == Unlines(MailHead(destino, user) + BodyHead(i) + [i.mensaje] + BodyTail())
  {
    var h, bh, bt := MailHead(destino, user), BodyHead(i), BodyTail();
    UnlinesAppend(h, bh + [i.mensaje] + bt);
    assert h + (bh + [i.mensaje] + bt) == h + bh + [i.mensaje] + bt;
  }

  predicate OneLine(s: string) {
    '\n' !in s
  }

  lemma BodyHeadOneLine(i: Inquiry)
    requires OneLine(i.nombre) && OneLine(i.email) && OneLine(i.organizacion) && OneLine(i.tipo)
    ensures forall k | 0 <= k < |BodyHead(i)| :: OneLine(BodyHead(i)[k])
  {
    assert OneLine("New contact form submission:");
  }

  lemma BodyTailOneLine()
    ensures forall k | 0 <= k < |BodyTail()| :: OneLine(BodyTail()[k])
  {
    assert OneLine("This is an automated message.");
    assert OneLine(" Please do not reply to this email.");
  }

  lemma MailHeadOneLine(destino: string, user: string)
    requires OneLine(destino) && OneLine(user)
    ensures forall k | 0 <= k < |MailHead(destino, user)| :: OneLine(MailHead(destino, user)[k])
  {
    assert OneLine(Subject);
  }

  /** Read line by line, the body is the greeting, a blank line, the Name, Email, Organization
      and Inquiry Type lines, the Message line, the lines of the message, a blank line, the
      separator, the footer, and the empty rest after the final newline. */
  lemma BodyLines(i: Inquiry)
    requires OneLine(i.nombre) && OneLine(i.email) && OneLine(i.organizacion) && OneLine(i.tipo)
    ensures Lines(Body(i)) == BodyHead(i) + Lines(i.mensaje) + BodyTail()
  {
    var bh, bt := BodyHead(i), BodyTail();
    BodyHeadOneLine(i);
    BodyTailOneLine();
    LinesUnlines(bh);
    LinesUnlines(bt);
    UnlinesAppend(bh + [i.mensaje], bt);
    UnlinesAppend(bh, [i.mensaje]);
    LinesAppend(Unlines(bh), i.mensaje);
    LinesAppend(Unlines(bh) + "\n" + i.mensaje, Unlines(bt));
  }

  /** Read line by line, the mail is the Subject, To and From lines, a blank line, and then the
      lines of the body. */
  lemma MailLines(destino: string, user: string, i: Inquiry)
    requires OneLine(destino) && OneLine(user)
    requires OneLine(i.nombre) && OneLine(i.email) && OneLine(i.organizacion) && OneLine(i.tipo)
    ensures Lines(MailText(destino, user, i)) ==
      MailHead(destino, user) + BodyHead(i) + Lines(i.mensaje) + BodyTail()
  {
    var h := MailHead(destino, user);
    MailHeadOneLine(destino, user);
    LinesUnlines(h);
    UnlinesAppend(h, [Body(i)]);
    LinesAppend(Unlines(h), Body(i));
    BodyLines(i);
    assert h + (BodyHead(i) + Lines(i.mensaje) + BodyTail())
      == h + BodyHead(i) + Lines(i.mensaje) + BodyTail();
  }

  /** The message the mail carries can be read back from it: it is what lies between the
      Message line and the blank line before the separator. */
  lemma MessageRecoverable(destino: string, user: string, i: Inquiry)
    requires OneLine(destino) && OneLine(user)
    requires OneLine(i.nombre) && OneLine(i.email) && OneLine(i.organizacion) && OneLine(i.tipo)
    ensures var ls := Lines(MailText(destino, user, i));
      |ls| >= 16 && Unlines(ls[11..|ls| - 4]) == i.mensaje
  {
    var ls := Lines(MailText(destino, user, i));
    MailLines(destino, user, i);
    assert ls[11..|ls| - 4] == Lines(i.mensaje);
    UnlinesLines(i.mensaje);
  }

  /** What the browser gets back from `/send`. */
  datatype Response = Redirect(location: string)

  /** A mail the server hands to the mail relay. */
  datatype Mail = Mail(sender: string, recipient: string, text: string)

  /** `send_email_async`: the mail it builds reaches the relay when the relay session succeeds;
      any failure is swallowed. */
  function SendEmail(destino: string, user: string, i: Inquiry, relayOk: bool): (sent: Option<Mail>)
    ensures sent.Some? <==> relayOk
    ensures sent.Some? ==>
      sent.value.sender == user && sent.value.recipient == destino && sent.value.text == MailText(destino, user, i)
  {
    if relayOk then Some(Mail(user, destino, MailText(destino, user, i))) else None
  }

  /** `send`: read the form, hand the inquiry to the mail thread, answer with a redirect to the
      home page without waiting for it. */
  function Send(form: Form, destino: string, user: string, relayOk: bool): (r: (Response, Option<Mail>))
    ensures r.0 == Redirect("/")
    ensures r.1.Some? <==> relayOk
    ensures r.1.Some? ==> r.1.value.text == MailText(destino, user, ReadInquiry(form))
  {
    (Redirect("/"), SendEmail(destino, user, ReadInquiry(form), relayOk))
  }
}
