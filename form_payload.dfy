/**
  The multipart bodies the admin client sends (`buildFormData` in the posts,
  news, events and ministries libraries), the `_method=PUT` override the
  update calls add, and what the Laravel side reads back out of them.
 */
module FormPayload {
  import opened Wrappers
  import opened Text
  import opened Calendar
  import opened Validation
  import opened ClientDates
  import opened Schemas
  import EventApi
  import PostApi
  import NewsApi
  import MinistryApi

  /** A multipart part: a text value or a file. */
  datatype Part = TextPart(text: string) | FilePart(file: Upload)

  type Entry = (string, Part)

  /** The browser's `FormData`: an ordered list of named parts. */
  class FormData {
    var entries: seq<Entry>

    constructor ()
      ensures entries == []
    {
      entries := [];
    }

    /** `fd.append(name, value)` */
    method Append(name: string, value: Part)
      modifies this
      ensures entries == old(entries) + [(name, value)]
    {
      entries := entries + [(name, value)];
    }
  }

  // ---------------------------------------------------------------------
  // What the server reads

  /** `$request->input(name)`: the last text part with that name. */
  function FieldOf(body: seq<Entry>, name: string): (v: Option<string>)
    ensures v.Some? ==> (name, TextPart(v.value)) in body
    ensures v.None? ==> forall i :: 0 <= i < |body| ==> !(body[i].0 == name && body[i].1.TextPart?)
  {
    if body == [] then None
    else if body[|body| - 1].0 == name && body[|body| - 1].1.TextPart? then Some(body[|body| - 1].1.text)
    else FieldOf(body[..|body| - 1], name)
  }

  /** `$request->file('image')`: the last file part named "image", or none. */
  function ImageOf(body: seq<Entry>): (f: ImageField)
    ensures f.FileImage? ==> ("image", FilePart(f.file)) in body
    ensures f.NullImage? ==> false
    ensures f.NoImage? ==> forall i :: 0 <= i < |body| ==> !(body[i].0 == "image" && body[i].1.FilePart?)
  {
    if body == [] then NoImage
    else if body[|body| - 1].0 == "image" && body[|body| - 1].1.FilePart? then FileImage(body[|body| - 1].1.file)
    else ImageOf(body[..|body| - 1])
  }

  /** The method Laravel routes by: `_method` when the body has one, otherwise the POST it was sent with. */
  function EffectiveMethod(body: seq<Entry>): (m: string)
    ensures FieldOf(body, "_method").None? ==> m == "POST"
  {
    FieldOf(body, "_method").GetOr("POST")
  }

  lemma {:induction false} FieldOfAppend(a: seq<Entry>, b: seq<Entry>, name: string)
    ensures FieldOf(a + b, name) == if FieldOf(b, name).Some? then FieldOf(b, name) else FieldOf(a, name)
    decreases |b|
  {
    if b == [] {
      assert a + b == a;
    } else {
      assert (a + b)[..|a + b| - 1] == a + b[..|b| - 1];
      FieldOfAppend(a, b[..|b| - 1], name);
    }
  }

  lemma {:induction false} ImageOfAppend(a: seq<Entry>, b: seq<Entry>)
    ensures ImageOf(a + b) == if ImageOf(b).FileImage? then ImageOf(b) else ImageOf(a)
    decreases |b|
  {
    if b == [] {
      assert a + b == a;
    } else {
      assert (a + b)[..|a + b| - 1] == a + b[..|b| - 1];
      ImageOfAppend(a, b[..|b| - 1]);
    }
  }

  /** A name that occurs once, as a text part, is read back as that part's value. */
  lemma {:induction false} FieldOfUnique(body: seq<Entry>, i: nat, name: string)
    requires i < |body| && body[i].0 == name && body[i].1.TextPart?
    requires forall j :: 0 <= j < |body| && j != i ==> body[j].0 != name
    ensures FieldOf(body, name) == Some(body[i].1.text)
    decreases |body|
  {
    if i != |body| - 1 {
      FieldOfUnique(body[..|body| - 1], i, name);
    }
  }

  // ---------------------------------------------------------------------
  // The bodies

  /** The image part: only a picked `File` is appended. */
  function ImageParts(image: FormImage): (parts: seq<Entry>)
    ensures ImageOf(parts) == (if image.Picked? then FileImage(image.file) else NoImage)
    ensures FieldOf(parts, "_method").None?
  {
    if image.Picked? then [("image", FilePart(image.file))] else []
  }

  /** What the server receives as `image` for a form's image. */
  function Received(image: FormImage): (f: ImageField)
    ensures f.FileImage? <==> image.Picked?
    ensures !f.NullImage?
  {
    if image.Picked? then FileImage(image.file) else NoImage
  }

  const PutOverride: Entry := ("_method", TextPart("PUT"))

  function PostTexts(f: PostForm, isoDate: string): seq<Entry> {
    [("title", TextPart(f.title)), ("category", TextPart(f.category)), ("date", TextPart(isoDate)),
     ("author", TextPart(f.author)), ("description", TextPart(f.description))]
  }

  function PostPairs(f: PostForm, isoDate: string): seq<Entry> {
    PostTexts(f, isoDate) + ImageParts(f.image)
  }

  function NewsTexts(f: NewsForm, isoDate: string): seq<Entry> {
    [("title", TextPart(f.title)), ("category", TextPart(f.category)), ("date", TextPart(isoDate)),
     ("description", TextPart(f.description))]
  }

  function NewsPairs(f: NewsForm, isoDate: string): seq<Entry> {
    NewsTexts(f, isoDate) + ImageParts(f.image)
  }

  function EventTexts(f: EventForm): seq<Entry> {
    [("title", TextPart(f.title)), ("date", TextPart(f.date)), ("month", TextPart(f.month)),
     ("time", TextPart(f.time)), ("location", TextPart(f.location))]
  }

  function EventPairs(f: EventForm): seq<Entry> {
    EventTexts(f) + ImageParts(f.image)
  }

  function MinistryTexts(f: MinistryForm): seq<Entry> {
    [("title", TextPart(f.title)), ("description", TextPart(f.description))]
  }

  function MinistryPairs(f: MinistryForm): seq<Entry> {
    MinistryTexts(f) + ImageParts(f.image)
  }

  /** posts `buildFormData`: the date goes through `toISODate` first, which throws for a date without a second part. */
  method BuildPostForm(f: PostForm) returns (fd: Option<FormData>)
    ensures fd.None? <==> ToIsoDate(f.date).None?
    ensures fd.Some? ==> fresh(fd.value) && fd.value.entries == PostPairs(f, ToIsoDate(f.date).value)
  {
    var iso := ToIsoDate(f.date);
    if iso.None? {
      return None;
    }
    var data := new FormData();
    data.Append("title", TextPart(f.title));
    data.Append("category", TextPart(f.category));
    data.Append("date", TextPart(iso.value));
    data.Append("author", TextPart(f.author));
    data.Append("description", TextPart(f.description));
    if f.image.Picked? {
      data.Append("image", FilePart(f.image.file));
    }
    fd := Some(data);
  }

  /** news `buildFormData`: title and category are appended before `toISODate` can throw. */
  method BuildNewsForm(f: NewsForm) returns (fd: Option<FormData>)
    ensures fd.None? <==> ToIsoDate(f.date).None?
    ensures fd.Some? ==> fresh(fd.value) && fd.value.entries == NewsPairs(f, ToIsoDate(f.date).value)
  {
    var data := new FormData();
    data.Append("title", TextPart(f.title));
    data.Append("category", TextPart(f.category));
    var iso := ToIsoDate(f.date);
    if iso.None? {
      return None;
    }
    data.Append("date", TextPart(iso.value));
    data.Append("description", TextPart(f.description));
    if f.image.Picked? {
      data.Append("image", FilePart(f.image.file));
    }
    fd := Some(data);
  }

  /** events `buildFormData`: the five fields verbatim, and the image when it is truthy. */
  method BuildEventForm(f: EventForm) returns (fd: FormData)
    ensures fresh(fd) && fd.entries == EventPairs(f)
  {
    fd := new FormData();
    fd.Append("title", TextPart(f.title));
    fd.Append("date", TextPart(f.date));
    fd.Append("month", TextPart(f.month));
    fd.Append("time", TextPart(f.time));
    fd.Append("location", TextPart(f.location));
    if f.image.Picked? {
      fd.Append("image", FilePart(f.image.file));
    }
  }

  /** ministries `buildFormData` */
  method BuildMinistryForm(f: MinistryForm) returns (fd: FormData)
    ensures fresh(fd) && fd.entries == MinistryPairs(f)
  {
    fd := new FormData();
    fd.Append("title", TextPart(f.title));
    fd.Append("description", TextPart(f.description));
    if f.image.Picked? {
      fd.Append("image", FilePart(f.image.file));
    }
  }

  // ---------------------------------------------------------------------
  // The requests

  /** A POST to `path` with a multipart body. */
  datatype Request = Request(path: string, body: seq<Entry>)

  method CreatePost(f: PostForm) returns (req: Option<Request>)
    ensures req.None? <==> ToIsoDate(f.date).None?
    ensures req.Some? ==> req.value == Request("/posts", PostPairs(f, ToIsoDate(f.date).value))
  {
    var fd := BuildPostForm(f);
    if fd.None? {
      return None;
    }
    req := Some(Request("/posts", fd.value.entries));
  }

  method UpdatePost(id: string, f: PostForm) returns (req: Option<Request>)
    ensures req.None? <==> ToIsoDate(f.date).None?
    ensures req.Some? ==> req.value == Request("/posts/" + id, PostPairs(f, ToIsoDate(f.date).value) + [PutOverride])
  {
    var fd := BuildPostForm(f);
    if fd.None? {
      return None;
    }
    fd.value.Append("_method", TextPart("PUT"));
    req := Some(Request("/posts/" + id, fd.value.entries));
  }

  method CreateNews(f: NewsForm) returns (req: Option<Request>)
    ensures req.None? <==> ToIsoDate(f.date).None?
    ensures req.Some? ==> req.value == Request("/news", NewsPairs(f, ToIsoDate(f.date).value))
  {
    var fd := BuildNewsForm(f);
    if fd.None? {
      return None;
    }
    req := Some(Request("/news", fd.value.entries));
  }

  method UpdateNews(id: string, f: NewsForm) returns (req: Option<Request>)
    ensures req.None? <==> ToIsoDate(f.date).None?
    ensures req.Some? ==> req.value == Request("/news/" + id, NewsPairs(f, ToIsoDate(f.date).value) + [PutOverride])
  {
    var fd := BuildNewsForm(f);
    if fd.None? {
      return None;
    }
    fd.value.Append("_method", TextPart("PUT"));
    req := Some(Request("/news/" + id, fd.value.entries));
  }

  method CreateEvent(f: EventForm) returns (req: Request)
    ensures req == Request("/events", EventPairs(f))
  {
    var fd := BuildEventForm(f);
    req := Request("/events", fd.entries);
  }

  method UpdateEvent(id: string, f: EventForm) returns (req: Request)
    ensures req == Request("/events/" + id, EventPairs(f) + [PutOverride])
  {
    var fd := BuildEventForm(f);
    fd.Append("_method", TextPart("PUT"));
    req := Request("/events/" + id, fd.entries);
  }

  method CreateMinistry(f: MinistryForm) returns (req: Request)
    ensures req == Request("/ministries", MinistryPairs(f))
  {
    var fd := BuildMinistryForm(f);
    req := Request("/ministries", fd.entries);
  }

  method UpdateMinistry(id: string, f: MinistryForm) returns (req: Request)
    ensures req == Request("/ministries/" + id, MinistryPairs(f) + [PutOverride])
  {
    var fd := BuildMinistryForm(f);
    fd.Append("_method", TextPart("PUT"));
    req := Request("/ministries/" + id, fd.entries);
  }

  // ---------------------------------------------------------------------
  // What the server makes of them

  function PostInputOf(body: seq<Entry>): PostApi.PostInput {
    PostApi.PostInput(FieldOf(body, "title"), FieldOf(body, "category"), FieldOf(body, "date"),
                      FieldOf(body, "author"), FieldOf(body, "description"), ImageOf(body))
  }

  function NewsInputOf(body: seq<Entry>): NewsApi.NewsInput {
    NewsApi.NewsInput(FieldOf(body, "title"), FieldOf(body, "category"), FieldOf(body, "date"),
                      FieldOf(body, "description"), ImageOf(body))
  }

  function EventInputOf(body: seq<Entry>): EventApi.EventInput {
    EventApi.EventInput(FieldOf(body, "title"), FieldOf(body, "date"), FieldOf(body, "month"),
                        FieldOf(body, "time"), FieldOf(body, "location"), ImageOf(body))
  }

  function MinistryInputOf(body: seq<Entry>): MinistryApi.MinistryInput {
    MinistryApi.MinistryInput(FieldOf(body, "title"), FieldOf(body, "description"), ImageOf(body))
  }

  /** Appending the override changes no field the controllers read, and makes the request a PUT. */
  lemma Override(body: seq<Entry>, name: string)
    requires name != "_method"
    ensures FieldOf(body + [PutOverride], name) == FieldOf(body, name)
    ensures ImageOf(body + [PutOverride]) == ImageOf(body)
    ensures EffectiveMethod(body + [PutOverride]) == "PUT"
  {
    FieldOfAppend(body, [PutOverride], name);
    FieldOfAppend(body, [PutOverride], "_method");
    ImageOfAppend(body, [PutOverride]);
  }

  /** No two parts share a name, and none is called "_method". */
  predicate DistinctNames(texts: seq<Entry>) {
    && (forall j, k :: 0 <= j < k < |texts| ==> texts[j].0 != texts[k].0)
    && (forall j :: 0 <= j < |texts| ==> texts[j].0 != "_method")
  }

  /**
    Distinct text parts followed by the image parts: the server reads each
    text part's value, no method override, and the picked file.
   */
  lemma ReadBack(texts: seq<Entry>, image: FormImage, i: nat)
    requires DistinctNames(texts) && i < |texts| && texts[i].1.TextPart?
    ensures FieldOf(texts + ImageParts(image), texts[i].0) == Some(texts[i].1.text)
    ensures FieldOf(texts + ImageParts(image), "_method").None?
    ensures ImageOf(texts + ImageParts(image)) == (if image.Picked? then FileImage(image.file) else ImageOf(texts))
  {
    FieldOfAppend(texts, ImageParts(image), texts[i].0);
    FieldOfAppend(texts, ImageParts(image), "_method");
    ImageOfAppend(texts, ImageParts(image));
    FieldOfUnique(texts, i, texts[i].0);
  }

  /** Text parts alone carry no file. */
  lemma NoFileInTexts(texts: seq<Entry>)
    requires forall j :: 0 <= j < |texts| ==> texts[j].1.TextPart?
    ensures ImageOf(texts) == NoImage
  {
  }

  /**
    A post create sends every field, so the server sees each one as sent;
    the image is a file exactly when one was picked, and there is no
    override, so the request is routed to `store`.
   */
  lemma PostTextsDistinct(f: PostForm, iso: string)
    ensures DistinctNames(PostTexts(f, iso))
  {
  }

  lemma PostCreateDecodes(f: PostForm, iso: string)
    ensures PostInputOf(PostPairs(f, iso)) ==
      PostApi.PostInput(Some(f.title), Some(f.category), Some(iso), Some(f.author), Some(f.description), Received(f.image))
    ensures EffectiveMethod(PostPairs(f, iso)) == "POST"
  {
    var texts := PostTexts(f, iso);
    PostTextsDistinct(f, iso);
    ReadBack(texts, f.image, 0);
    ReadBack(texts, f.image, 1);
    ReadBack(texts, f.image, 2);
    ReadBack(texts, f.image, 3);
    ReadBack(texts, f.image, 4);
    NoFileInTexts(texts);
  }

  /**
    A post update is routed to `update` and carries the same input as a
    create; with no file picked the server keeps the stored image.
   */
  lemma PostUpdateDecodes(f: PostForm, iso: string)
    ensures EffectiveMethod(PostPairs(f, iso) + [PutOverride]) == "PUT"
    ensures PostInputOf(PostPairs(f, iso) + [PutOverride]) == PostInputOf(PostPairs(f, iso))
    ensures !f.image.Picked? ==> PostInputOf(PostPairs(f, iso) + [PutOverride]).image == NoImage
  {
    var body := PostPairs(f, iso);
    Override(body, "title");
    Override(body, "category");
    Override(body, "date");
    Override(body, "author");
    Override(body, "description");
    PostCreateDecodes(f, iso);
  }

  lemma NewsTextsDistinct(f: NewsForm, iso: string)
    ensures DistinctNames(NewsTexts(f, iso))
  {
  }

  lemma NewsCreateDecodes(f: NewsForm, iso: string)
    ensures NewsInputOf(NewsPairs(f, iso)) ==
      NewsApi.NewsInput(Some(f.title), Some(f.category), Some(iso), Some(f.description), Received(f.image))
    ensures EffectiveMethod(NewsPairs(f, iso)) == "POST"
  {
    var texts := NewsTexts(f, iso);
    NewsTextsDistinct(f, iso);
    ReadBack(texts, f.image, 0);
    ReadBack(texts, f.image, 1);
    ReadBack(texts, f.image, 2);
    ReadBack(texts, f.image, 3);
    NoFileInTexts(texts);
  }

  lemma NewsUpdateDecodes(f: NewsForm, iso: string)
    ensures EffectiveMethod(NewsPairs(f, iso) + [PutOverride]) == "PUT"
    ensures NewsInputOf(NewsPairs(f, iso) + [PutOverride]) == NewsInputOf(NewsPairs(f, iso))
  {
    var body := NewsPairs(f, iso);
    Override(body, "title");
    Override(body, "category");
    Override(body, "date");
    Override(body, "description");
  }

  lemma EventTextsDistinct(f: EventForm)
    ensures DistinctNames(EventTexts(f))
  {
  }

  lemma EventCreateDecodes(f: EventForm)
    ensures EventInputOf(EventPairs(f)) ==
      EventApi.EventInput(Some(f.title), Some(f.date), Some(f.month), Some(f.time), Some(f.location), Received(f.image))
    ensures EffectiveMethod(EventPairs(f)) == "POST"
  {
    var texts := EventTexts(f);
    EventTextsDistinct(f);
    ReadBack(texts, f.image, 0);
    ReadBack(texts, f.image, 1);
    ReadBack(texts, f.image, 2);
    ReadBack(texts, f.image, 3);
    ReadBack(texts, f.image, 4);
    NoFileInTexts(texts);
  }

  /** An event update never sends a null image, so the server never clears one: it keeps it or replaces it. */
  lemma EventUpdateDecodes(f: EventForm)
    ensures EffectiveMethod(EventPairs(f) + [PutOverride]) == "PUT"
    ensures EventInputOf(EventPairs(f) + [PutOverride]) == EventInputOf(EventPairs(f))
    ensures !EventInputOf(EventPairs(f) + [PutOverride]).image.NullImage?
  {
    var body := EventPairs(f);
    Override(body, "title");
    Override(body, "date");
    Override(body, "month");
    Override(body, "time");
    Override(body, "location");
  }

  lemma MinistryTextsDistinct(f: MinistryForm)
    ensures DistinctNames(MinistryTexts(f))
  {
  }

  lemma MinistryCreateDecodes(f: MinistryForm)
    ensures MinistryInputOf(MinistryPairs(f)) ==
      MinistryApi.MinistryInput(Some(f.title), Some(f.description), Received(f.image))
    ensures EffectiveMethod(MinistryPairs(f)) == "POST"
  {
    var texts := MinistryTexts(f);
    MinistryTextsDistinct(f);
    ReadBack(texts, f.image, 0);
    ReadBack(texts, f.image, 1);
    NoFileInTexts(texts);
  }

  lemma MinistryUpdateDecodes(f: MinistryForm)
    ensures EffectiveMethod(MinistryPairs(f) + [PutOverride]) == "PUT"
    ensures MinistryInputOf(MinistryPairs(f) + [PutOverride]) == MinistryInputOf(MinistryPairs(f))
  {
    var body := MinistryPairs(f);
    Override(body, "title");
    Override(body, "description");
  }

  /**
    The ministry schema lets a create through without a file, but the body
    then has no image part and the server's `required` image rule refuses it.
   */
  lemma MinistryCreateWithoutFile(f: MinistryForm)
    requires MinistrySchemaErrors(f) == {} && !f.image.Picked?
    ensures "image" in MinistryApi.StoreErrors(MinistryInputOf(MinistryPairs(f)))
  {
    MinistryCreateDecodes(f);
  }

  /**
    A post date that passes the schema reaches the server as `y-mm-dd`, and
    the server's `date_format:Y-m-d` accepts it exactly when it is a
    calendar day.
   */
  lemma PostDateReachesServer(f: PostForm)
    requires PostSchemaErrors(f) == {}
    ensures ToIsoDate(f.date).Some?
    ensures PostApi.DateOk(PostInputOf(PostPairs(f, ToIsoDate(f.date).value)).date) <==>
      ValidDate(DecimalValue(f.date[6..]), DecimalValue(f.date[..2]), DecimalValue(f.date[3..5]))
  {
    assert SlashDate(f.date);
    ConvertedDateOk(f.date);
    PostCreateDecodes(f, ToIsoDate(f.date).value);
  }

  /** The converted date is never blank, so only `date_format` decides. */
  lemma ConvertedDateOk(s: string)
    requires SlashDate(s)
    ensures ToIsoDate(s).Some?
    ensures PostApi.DateOk(Some(ToIsoDate(s).value)) <==>
      ValidDate(DecimalValue(s[6..]), DecimalValue(s[..2]), DecimalValue(s[3..5]))
  {
    SlashDateToIso(s);
    var iso := ToIsoDate(s).value;
    assert !PhpBlank(iso) by { assert !IsPhpSpace(iso[4]); }
  }
}
