/**
 * The submit handler of the contact form: the presence check on the
 * required fields, the e-mail pattern `^[^\s@]+@[^\s@]+\.[^\s@]+$`, and the
 * template parameters handed to the mail service.
 */
module ContactForm {
  import opened Wrappers
  import opened Text

  /** The form's fields as `Object.fromEntries(new FormData(form))` gives them; `None` for a field the form lacks. */
  datatype FormData = FormData(
    nombre: Option<string>,
    email: Option<string>,
    telefono: Option<string>,
    empresa: Option<string>,
    servicio: Option<string>,
    mensaje: Option<string>)

  /** The two notifications that reject a submission. */
  datatype FormError = MissingRequired | InvalidEmail

  /** The parameters of the e-mail template. */
  datatype TemplateParams = TemplateParams(
    fromName: string,
    fromEmail: string,
    fromTelefono: string,
    fromEmpresa: string,
    servicioInteres: string,
    message: string,
    toEmail: string,
    replyTo: string)

  const Destination: string := "ricardoandresbonilla@gmail.com"
  const NoPhone: string := "No proporcionado"
  const NoCompany: string := "No proporcionada"
  const NoService: string := "No especificado"

  /** A field JavaScript treats as true: present and not the empty string. White space counts as present. */
  predicate Present(v: Option<string>) {
    v.Some? && v.value != ""
  }

  /** `v || placeholder`. */
  function OrElse(v: Option<string>, placeholder: string): string {
    if Present(v) then v.value else placeholder
  }

  // ----- the e-mail pattern ---------------------------------------------------------

  /** A character of the class `[^\s@]`. */
  predicate PlainChar(c: char) {
    !IsSpace(c) && c != '@'
  }

  /** A string matched by `[^\s@]+`. */
  predicate PlainRun(s: string) {
    |s| > 0 && forall k :: 0 <= k < |s| ==> PlainChar(s[k])
  }

  /** `s` matches the pattern with its literal `@` at index `i` and its literal `.` at index `j`. */
  ghost predicate MatchesAt(s: string, i: int, j: int) {
    && 0 <= i < j < |s|
    && s[i] == '@' && s[j] == '.'
    && PlainRun(s[..i]) && PlainRun(s[i + 1..j]) && PlainRun(s[j + 1..])
  }

  /** What the regular expression accepts: the whole string is L@A.B with L, A, B non-empty runs of `[^\s@]`. */
  ghost predicate RegexEmail(s: string) {
    exists i, j :: MatchesAt(s, i, j)
  }

  /** The index of the first occurrence of `c` in `s`. */
  function FirstIndex(s: string, c: char): (r: Option<nat>)
    ensures r.None? <==> c !in s
    ensures r.Some? ==> r.value < |s| && s[r.value] == c && c !in s[..r.value]
    decreases |s|
  {
    if |s| == 0 then None
    else if s[0] == c then Some(0)
    else
      match FirstIndex(s[1..], c)
      case None => None
      case Some(k) =>
        assert s[..k + 1] == [s[0]] + s[1..][..k];
        Some(k + 1)
  }

  /** The part after the `@`: `[^\s@]+\.[^\s@]+`, decided by looking for a dot that is neither first nor last. */
  predicate DomainOk(d: string) {
    && (forall k :: 0 <= k < |d| ==> PlainChar(d[k]))
    && |d| >= 3 && '.' in d[1..|d| - 1]
  }

  /** The pattern decided by splitting at the first `@`: a plain run before it and a dotted domain after it. */
  predicate SplitAtFirstAt(s: string) {
    match FirstIndex(s, '@')
    case None => false
    case Some(at) => PlainRun(s[..at]) && DomainOk(s[at + 1..])
  }

  /** Splitting at the first `@` accepts exactly the strings the regular expression matches. */
  lemma EmailPattern(s: string)
    ensures SplitAtFirstAt(s) <==> RegexEmail(s)
  {
    if SplitAtFirstAt(s) {
      ValidEmailMatches(s);
    }
    if RegexEmail(s) {
      var i, j :| MatchesAt(s, i, j);
      MatchesAtValid(s, i, j);
    }
  }

  /** The test `emailRegex.test(s)`: it holds exactly when the regular expression matches `s`. */
  function ValidEmail(s: string): (b: bool)
    ensures b <==> RegexEmail(s)
  {
    EmailPattern(s);
    SplitAtFirstAt(s)
  }

  lemma ValidEmailMatches(s: string)
    requires SplitAtFirstAt(s)
    ensures RegexEmail(s)
  {
    var at := FirstIndex(s, '@').value;
    var d := s[at + 1..];
    var m' :| 0 <= m' < |d[1..|d| - 1]| && d[1..|d| - 1][m'] == '.';
    var m := m' + 1;
    var j := at + 1 + m;
    assert s[at + 1..j] == d[..m];
    assert s[j + 1..] == d[m + 1..];
    assert MatchesAt(s, at, j);
  }

  lemma MatchesAtValid(s: string, i: int, j: int)
    requires MatchesAt(s, i, j)
    ensures SplitAtFirstAt(s)
  {
    FirstAtOfMatch(s, i, j);
    DomainOfMatch(s, i, j);
  }

  lemma FirstAtOfMatch(s: string, i: int, j: int)
    requires MatchesAt(s, i, j)
    ensures FirstIndex(s, '@') == Some(i)
  {
    assert s[i] == '@';
    assert '@' !in s[..i] by {
      assert forall k :: 0 <= k < i ==> PlainChar(s[..i][k]);
    }
  }

  lemma DomainOfMatch(s: string, i: int, j: int)
    requires MatchesAt(s, i, j)
    ensures DomainOk(s[i + 1..])
  {
    var d := s[i + 1..];
    var m := j - i - 1;
    forall k | 0 <= k < |d| ensures PlainChar(d[k]) {
      if k < m {
        assert d[k] == s[i + 1..j][k];
      } else if k > m {
        assert d[k] == s[j + 1..][k - m - 1];
      }
    }
    assert d[1..|d| - 1][m - 1] == '.';
  }

  /** An accepted address has exactly one `@`, no white space, and a dot after the `@` that is neither first nor last there. */
  lemma ValidEmailShape(s: string)
    requires ValidEmail(s)
    ensures forall k :: 0 <= k < |s| ==> !IsSpace(s[k])
    ensures exists at :: 0 < at < |s| && s[at] == '@' && (forall k :: 0 <= k < |s| && s[k] == '@' ==> k == at)
    ensures exists at, dot :: 0 < at && at + 1 < dot < |s| - 1 && s[at] == '@' && s[dot] == '.'
  {
    var i, j :| MatchesAt(s, i, j);
    forall k | 0 <= k < |s| ensures !IsSpace(s[k]) && (s[k] == '@' ==> k == i) {
      if k < i {
        assert s[k] == s[..i][k];
      } else if i < k < j {
        assert s[k] == s[i + 1..j][k - i - 1];
      } else if k > j {
        assert s[k] == s[j + 1..][k - j - 1];
      }
    }
  }

  // ----- the submit handler ------------------------------------------------------------

  /**
   * The decision of the submit handler: the presence check first, then the
   * e-mail pattern, then the template parameters with placeholders for the
   * optional fields.
   */
  function Submit(f: FormData): (r: Result<TemplateParams, FormError>)
    ensures r == Failure(MissingRequired) <==> !Present(f.nombre) || !Present(f.email) || !Present(f.mensaje)
    ensures r == Failure(InvalidEmail) <==>
      Present(f.nombre) && Present(f.email) && Present(f.mensaje) && !RegexEmail(f.email.value)
    ensures r.Success? ==> RegexEmail(f.email.value)
    ensures r.Success? ==> r.value.fromEmail == r.value.replyTo == f.email.value
    ensures r.Success? ==> r.value.fromName == f.nombre.value && r.value.message == f.mensaje.value
    ensures r.Success? ==> r.value.toEmail == Destination
    ensures r.Success? && Present(f.telefono) ==> r.value.fromTelefono == f.telefono.value
    ensures r.Success? && !Present(f.telefono) ==> r.value.fromTelefono == NoPhone
    ensures r.Success? && Present(f.empresa) ==> r.value.fromEmpresa == f.empresa.value
    ensures r.Success? && !Present(f.empresa) ==> r.value.fromEmpresa == NoCompany
    ensures r.Success? && Present(f.servicio) ==> r.value.servicioInteres == f.servicio.value
    ensures r.Success? && !Present(f.servicio) ==> r.value.servicioInteres == NoService
  {
    if !Present(f.nombre) || !Present(f.email) || !Present(f.mensaje) then
      Failure(MissingRequired)
    else
      if !ValidEmail(f.email.value) then Failure(InvalidEmail)
      else
        Success(TemplateParams(
          fromName := f.nombre.value,
          fromEmail := f.email.value,
          fromTelefono := OrElse(f.telefono, NoPhone),
          fromEmpresa := OrElse(f.empresa, NoCompany),
          servicioInteres := OrElse(f.servicio, NoService),
          message := f.mensaje.value,
          toEmail := Destination,
          replyTo := f.email.value))
  }

  /** Every parameter of an accepted submission is non-empty, and the sender's address is one the pattern accepts. */
  lemma SubmitParamsNonEmpty(f: FormData)
    requires Submit(f).Success?
    ensures var t := Submit(f).value;
      t.fromName != "" && t.fromEmail != "" && t.fromTelefono != "" && t.fromEmpresa != ""
      && t.servicioInteres != "" && t.message != "" && t.toEmail != "" && t.replyTo != ""
    ensures forall k :: 0 <= k < |Submit(f).value.fromEmail| ==> !IsSpace(Submit(f).value.fromEmail[k])
  {
    ValidEmailShape(f.email.value);
  }

  /**
   * The presence check is not trimmed: whatever the optional fields hold, the
   * required-fields error comes exactly when one of the three required values
   * is `""`, so a name and message of spaces pass it; with an address the
   * pattern accepts the form is then sent with them as they are.
   */
  lemma SpacesCountAsPresent(n: string, e: string, m: string, t: Option<string>, c: Option<string>, sv: Option<string>)
    ensures Submit(FormData(Some(n), Some(e), t, c, sv, Some(m))) == Failure(MissingRequired) <==> n == "" || e == "" || m == ""
    ensures n != "" && m != "" && RegexEmail(e) ==>
      var r := Submit(FormData(Some(n), Some(e), t, c, sv, Some(m)));
      r.Success? && r.value.fromName == n && r.value.message == m
  {
  }
}
