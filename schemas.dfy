/**
  The zod schemas the admin forms, the login and register forms and the
  contact page validate with.  Each schema is given as the set of fields it
  reports; zod runs every field's checks, so a form passes exactly when that
  set is empty.  `.min(n)` and `.max(n)` count UTF-16 code units.  zod's
  e-mail and URL checks are parameters of the schemas that use them.
 */
module Schemas {
  import opened Wrappers
  import opened Text
  import opened Calendar
  import opened Validation
  import opened EventTime
  import opened ClientDates

  /** A form's image: `undefined`, `null`, or a picked `File`. */
  datatype FormImage = Unset | Cleared | Picked(file: Upload)

  /** `z.string().min(n)` */
  predicate AtLeast(s: string, n: nat) { JsLength(s) >= n }

  /** `z.instanceof(File).optional()`: undefined or a File; null is refused. */
  predicate FileOrUnset(image: FormImage) { !image.Cleared? }

  // ---------------------------------------------------------------------
  // Events

  datatype EventForm = EventForm(title: string, date: string, month: string, time: string, location: string, image: FormImage)

  /** `eventSchema`: the image is `z.custom().optional()`, which accepts anything. */
  function EventSchemaErrors(f: EventForm): (errs: set<string>)
    ensures errs == {} <==>
      AtLeast(f.title, 3) && ClientDay(f.date) && MonthName(f.month) && ClientTime(f.time) && AtLeast(f.location, 3)
    ensures "image" !in errs
  {
    Failing("title", AtLeast(f.title, 3)) + Failing("date", ClientDay(f.date))
    + Failing("month", MonthName(f.month)) + Failing("time", ClientTime(f.time))
    + Failing("location", AtLeast(f.location, 3))
  }

  /**
    The schema counts code units and the server counts characters after
    trimming: every title the server's `required|string|min:3` accepts passes
    the schema, and a title of three spaces passes the schema only.
   */
  lemma EventTitleGap(s: string)
    ensures Required(Some(s)) && |s| >= 3 ==> AtLeast(s, 3)
    ensures AtLeast("   ", 3) && !Required(Some("   "))
  {
    assert IsPhpSpace(' ');
  }

  /**
    The month the schema accepts, the server accepts; the server also takes
    the name followed by one final newline.
   */
  lemma EventMonthAgrees(s: string)
    ensures MonthName(s) ==> MonthRule(s)
    ensures MonthRule(s) && !EndsInNewline(s) ==> MonthName(s)
  {
  }

  // ---------------------------------------------------------------------
  // Posts and news

  datatype PostForm = PostForm(title: string, category: string, date: string, author: string, description: string, image: FormImage)

  function PostSchemaErrors(f: PostForm): (errs: set<string>)
    ensures errs == {} <==>
      AtLeast(f.title, 3) && AtLeast(f.category, 3) && SlashDate(f.date)
      && AtLeast(f.author, 4) && AtLeast(f.description, 10) && FileOrUnset(f.image)
  {
    Failing("title", AtLeast(f.title, 3)) + Failing("category", AtLeast(f.category, 3))
    + Failing("date", SlashDate(f.date)) + Failing("author", AtLeast(f.author, 4))
    + Failing("description", AtLeast(f.description, 10)) + Failing("image", FileOrUnset(f.image))
  }

  datatype NewsForm = NewsForm(title: string, category: string, date: string, description: string, image: FormImage)

  function NewsSchemaErrors(f: NewsForm): (errs: set<string>)
    ensures errs == {} <==>
      AtLeast(f.title, 3) && AtLeast(f.category, 3) && SlashDate(f.date)
      && AtLeast(f.description, 4) && FileOrUnset(f.image)
  {
    Failing("title", AtLeast(f.title, 3)) + Failing("category", AtLeast(f.category, 3))
    + Failing("date", SlashDate(f.date)) + Failing("description", AtLeast(f.description, 4))
    + Failing("image", FileOrUnset(f.image))
  }

  /** The date pattern checks the shape only: "13/45/2024" passes although no such day exists. */
  lemma SlashDateIsShapeOnly()
    ensures SlashDate("13/45/2024")
    ensures !ValidDate(DecimalValue("2024"), DecimalValue("13"), DecimalValue("45"))
  {
    var s := "13/45/2024";
    assert s[..2] == "13" && s[3..5] == "45" && s[6..] == "2024";
    assert DecimalValue("13") == 13 by {
      assert "13"[..1] == "1";
      assert DecimalValue("1") == 1 by { assert "1"[..0] == []; }
    }
  }

  // ---------------------------------------------------------------------
  // Ministries and the live stream

  datatype MinistryForm = MinistryForm(title: string, description: string, image: FormImage)

  function MinistrySchemaErrors(f: MinistryForm): (errs: set<string>)
    ensures errs == {} <==> AtLeast(f.title, 3) && AtLeast(f.description, 10) && FileOrUnset(f.image)
  {
    Failing("title", AtLeast(f.title, 3)) + Failing("description", AtLeast(f.description, 10))
    + Failing("image", FileOrUnset(f.image))
  }

  /** The schema lets a ministry through without an image. */
  lemma MinistryImageOptional(title: string, description: string)
    requires AtLeast(title, 3) && AtLeast(description, 10)
    ensures MinistrySchemaErrors(MinistryForm(title, description, Unset)) == {}
  {
  }

  datatype StreamForm = StreamForm(isLive: bool, title: string, videoUrl: string)

  /** `liveStreamSchema`; the form's switch always holds a boolean, so `isLive` never fails. */
  function StreamSchemaErrors(f: StreamForm, isUrl: string -> bool): (errs: set<string>)
    ensures errs == {} <==> AtLeast(f.title, 3) && isUrl(f.videoUrl) && AtLeast(f.videoUrl, 5)
    ensures "isLive" !in errs
  {
    Failing("title", AtLeast(f.title, 3)) + Failing("videoUrl", isUrl(f.videoUrl) && AtLeast(f.videoUrl, 5))
  }

  // ---------------------------------------------------------------------
  // Login and registration

  datatype LoginForm = LoginForm(email: string, password: string)

  function LoginSchemaErrors(f: LoginForm, isEmail: string -> bool): (errs: set<string>)
    ensures errs == {} <==> isEmail(f.email) && AtLeast(f.password, 6)
  {
    Failing("email", isEmail(f.email)) + Failing("password", AtLeast(f.password, 6))
  }

  datatype RegisterForm = RegisterForm(name: string, email: string, password: string, password_confirmation: string)

  /**
    `registerSchema`: the field checks, then the refinement that the two
    passwords are equal, reported on `password_confirmation`.  The field
    checks fail without aborting, so the refinement runs on every form.
   */
  function RegisterSchemaErrors(f: RegisterForm, isEmail: string -> bool): (errs: set<string>)
    ensures errs == {} <==>
      AtLeast(f.name, 2) && isEmail(f.email) && AtLeast(f.password, 6) && f.password == f.password_confirmation
    ensures "password_confirmation" in errs <==> f.password != f.password_confirmation
  {
    Failing("name", AtLeast(f.name, 2)) + Failing("email", isEmail(f.email))
    + Failing("password", AtLeast(f.password, 6))
    + Failing("password_confirmation", f.password == f.password_confirmation)
  }

  /** A registration passes exactly when its login part passes, the name is long enough and the passwords match. */
  lemma RegisterExtendsLogin(f: RegisterForm, isEmail: string -> bool)
    ensures RegisterSchemaErrors(f, isEmail) == {} <==>
      LoginSchemaErrors(LoginForm(f.email, f.password), isEmail) == {}
      && AtLeast(f.name, 2) && f.password == f.password_confirmation
  {
  }

  // ---------------------------------------------------------------------
  // Contact page

  datatype ContactForm = ContactForm(name: string, email: string, phone: string, message: string)

  /** `z.string().trim().min(lo).max(hi)`: the bounds apply to the trimmed value. */
  predicate TrimmedWithin(s: string, lo: nat, hi: nat) {
    lo <= JsLength(JsTrim(s)) <= hi
  }

  /** The values `contactFormSchema` hands to `onSubmit`: each field trimmed. */
  function ContactParsed(f: ContactForm): (p: ContactForm)
    ensures p.name == JsTrim(f.name) && p.email == JsTrim(f.email)
    ensures p.phone == JsTrim(f.phone) && p.message == JsTrim(f.message)
  {
    ContactForm(JsTrim(f.name), JsTrim(f.email), JsTrim(f.phone), JsTrim(f.message))
  }

  function ContactSchemaErrors(f: ContactForm, isEmail: string -> bool): (errs: set<string>)
    ensures errs == {} <==>
      TrimmedWithin(f.name, 1, 100) && isEmail(JsTrim(f.email)) && JsLength(JsTrim(f.email)) <= 255
      && TrimmedWithin(f.phone, 1, 20) && TrimmedWithin(f.message, 1, 1000)
  {
    Failing("name", TrimmedWithin(f.name, 1, 100))
    + Failing("email", isEmail(JsTrim(f.email)) && JsLength(JsTrim(f.email)) <= 255)
    + Failing("phone", TrimmedWithin(f.phone, 1, 20)) + Failing("message", TrimmedWithin(f.message, 1, 1000))
  }

  /** Trimming reaches a fixed point: a value with no leading or trailing whitespace trims to itself. */
  lemma {:induction false} TrimStartKeeps(s: string)
    requires s == [] || !IsJsSpace(s[0])
    ensures TrimStart(s) == s
  {
  }

  lemma {:induction false} TrimEndKeeps(s: string)
    requires s == [] || !IsJsSpace(s[|s| - 1])
    ensures TrimEnd(s) == s
  {
  }

  /** The contact schema's trim is idempotent, so parsing a parsed form changes nothing. */
  lemma JsTrimIdempotent(s: string)
    ensures JsTrim(JsTrim(s)) == JsTrim(s)
  {
    var t := JsTrim(s);
    var a := TrimStart(s);
    if t != [] {
      assert t == a[..|t|];
      assert !IsJsSpace(t[0]) by { assert a != [] && t[0] == a[0]; }
    }
    TrimStartKeeps(t);
    TrimEndKeeps(t);
  }

  /** A field of whitespace only is refused, whatever its length. */
  lemma BlankFieldRefused(s: string)
    requires forall i :: 0 <= i < |s| ==> IsJsSpace(s[i])
    ensures !TrimmedWithin(s, 1, 100)
  {
    BlankTrimsToEmpty(s);
  }

  lemma {:induction false} BlankTrimsToEmpty(s: string)
    requires forall i :: 0 <= i < |s| ==> IsJsSpace(s[i])
    ensures JsTrim(s) == []
    decreases |s|
  {
    if s != [] {
      assert TrimStart(s) == TrimStart(s[1..]);
      BlankTrimsToEmpty(s[1..]);
    }
  }

  /** What a submit leaves behind: the form's fields, and the values handed to `onSubmit` if it ran. */
  datatype ContactOutcome = ContactOutcome(form: ContactForm, submitted: Option<ContactForm>)

  /** The values handed to `onSubmit` are already trimmed, and pass the schema again. */
  lemma ContactParsedPasses(f: ContactForm, isEmail: string -> bool)
    requires ContactSchemaErrors(f, isEmail) == {}
    ensures ContactParsed(ContactParsed(f)) == ContactParsed(f)
    ensures ContactSchemaErrors(ContactParsed(f), isEmail) == {}
  {
    JsTrimIdempotent(f.name);
    JsTrimIdempotent(f.email);
    JsTrimIdempotent(f.phone);
    JsTrimIdempotent(f.message);
    var p := ContactParsed(f);
    assert TrimmedWithin(p.name, 1, 100) && TrimmedWithin(p.phone, 1, 20) && TrimmedWithin(p.message, 1, 1000);
    assert isEmail(JsTrim(p.email)) && JsLength(JsTrim(p.email)) <= 255;
  }

  /**
    Submitting the contact form: a refused form stays as typed and nothing
    is submitted; an accepted one hands over the trimmed values and the
    fields are reset to empty.
   */
  function ContactSubmit(f: ContactForm, isEmail: string -> bool): (r: ContactOutcome)
    ensures ContactSchemaErrors(f, isEmail) != {} ==> r.form == f && r.submitted.None?
    ensures ContactSchemaErrors(f, isEmail) == {} ==>
      r.form == ContactForm("", "", "", "") && r.submitted == Some(ContactParsed(f))
  {
    if ContactSchemaErrors(f, isEmail) != {} then ContactOutcome(f, None)
    else ContactOutcome(ContactForm("", "", "", ""), Some(ContactParsed(f)))
  }
}
