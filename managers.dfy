/**
  The admin managers' component state and handlers: the list on screen, the
  entry being edited, the form and whether the dialog is open.  A server call
  is a parameter: `reply` is the server's answer, `None` when the call
  failed (the handler then shows an error toast and changes nothing).
  An id of 0 stands for a missing id.
 */
module Managers {
  import opened Wrappers
  import opened Text
  import opened Validation
  import opened ClientDates
  import opened EventTime
  import opened Schemas
  import opened FormPayload
  import opened ListSync

  datatype PostItem = PostItem(id: nat, title: string, category: string, date: string, author: string, description: string)
  datatype NewsItem = NewsItem(id: nat, title: string, category: string, date: string, description: string)
  datatype EventItem = EventItem(id: nat, title: string, date: string, month: string, time: string, location: string)
  datatype MinistryItem = MinistryItem(id: nat, title: string, description: string)

  function PostId(p: PostItem): nat { p.id }
  function NewsId(n: NewsItem): nat { n.id }
  function EventId(e: EventItem): nat { e.id }
  function MinistryId(m: MinistryItem): nat { m.id }

  const BlankPostForm: PostForm := PostForm("", "", "", "ADMIN", "", Unset)
  const BlankNewsForm: NewsForm := NewsForm("", "", "", "", Unset)
  const BlankEventForm: EventForm := EventForm("", "", "", "", "EVENT LOCATION", Unset)
  const BlankMinistryForm: MinistryForm := MinistryForm("", "", Unset)

  // ---------------------------------------------------------------------
  // PostsManager

  class PostsManager {
    var posts: seq<PostItem>
    var editing: Option<PostItem>
    var form: PostForm
    var open: bool

    constructor ()
      ensures posts == [] && editing == None && form == BlankPostForm && !open
    {
      posts := [];
      editing := None;
      form := BlankPostForm;
      open := false;
    }

    /** `loadPosts`: the fetched list, or no change when the fetch fails. */
    method Load(fetched: Option<seq<PostItem>>)
      modifies this
      ensures posts == (if fetched.Some? then fetched.value else old(posts))
      ensures editing == old(editing) && form == old(form) && open == old(open)
    {
      if fetched.Some? {
        posts := fetched.value;
      }
    }

    /** `resetForm`: the blank form, author "ADMIN", nothing being edited. */
    method ResetForm()
      modifies this
      ensures form == BlankPostForm && editing == None
      ensures posts == old(posts) && open == old(open)
    {
      form := BlankPostForm;
      editing := None;
    }

    /** The date input: digits only, at most eight, with slashes after the month and the day. */
    method OnDateInput(raw: string)
      modifies this
      ensures form == old(form).(date := DateMask(raw))
      ensures posts == old(posts) && editing == old(editing) && open == old(open)
    {
      form := form.(date := DateMask(raw));
    }

    /** `handleEdit`: the entry's fields, its date shown as MM/DD/YYYY, and no image picked. */
    method HandleEdit(p: PostItem)
      requires PostsDisplayDate(p.date).Shown?
      modifies this
      ensures editing == Some(p) && open && posts == old(posts)
      ensures form == PostForm(p.title, p.category, PostsDisplayDate(p.date).text, p.author, p.description, Unset)
    {
      editing := Some(p);
      form := PostForm(p.title, p.category, PostsDisplayDate(p.date).text, p.author, p.description, Unset);
      open := true;
    }

    /**
      `handleSubmit`: a form the schema refuses sends nothing and changes
      nothing.  Otherwise an update (when editing) or a create is sent; on
      success the edited entry is replaced, or the created one put first when
      it has an id and the list reloaded when it has none; then the dialog
      closes and the form is reset.
     */
    method HandleSubmit(reply: Option<PostItem>, reloaded: Option<seq<PostItem>>) returns (sent: Option<Request>)
      modifies this
      ensures PostSchemaErrors(old(form)) != {} ==>
        sent.None? && posts == old(posts) && form == old(form) && editing == old(editing) && open == old(open)
      ensures PostSchemaErrors(old(form)) == {} ==> sent.Some? && ToIsoDate(old(form).date).Some?
      ensures PostSchemaErrors(old(form)) == {} && old(editing).Some? ==>
        sent.value == Request("/posts/" + Decimal(old(editing).value.id), PostPairs(old(form), ToIsoDate(old(form).date).value) + [PutOverride])
      ensures PostSchemaErrors(old(form)) == {} && old(editing).None? ==>
        sent.value == Request("/posts", PostPairs(old(form), ToIsoDate(old(form).date).value))
      ensures PostSchemaErrors(old(form)) == {} && reply.None? ==>
        posts == old(posts) && form == old(form) && editing == old(editing) && open == old(open)
      ensures PostSchemaErrors(old(form)) == {} && reply.Some? ==>
        && form == BlankPostForm && editing == None && !open
        && posts == (if old(editing).Some? then ReplaceById(old(posts), PostId, old(editing).value.id, reply.value)
                     else if reply.value.id != 0 then Prepend(reply.value, old(posts))
                     else if reloaded.Some? then reloaded.value else old(posts))
    {
      if PostSchemaErrors(form) != {} {
        return None;
      }
      SlashDateToIso(form.date);
      if editing.Some? {
        sent := UpdatePost(Decimal(editing.value.id), form);
      } else {
        sent := CreatePost(form);
      }
      if reply.None? {
        return;
      }
      if editing.Some? {
        posts := ReplaceById(posts, PostId, editing.value.id, reply.value);
      } else if reply.value.id != 0 {
        posts := Prepend(reply.value, posts);
      } else if reloaded.Some? {
        posts := reloaded.value;
      }
      open := false;
      form := BlankPostForm;
      editing := None;
    }

    /** `handleDelete`: nothing without confirmation; on success every entry with the id goes. */
    method HandleDelete(id: nat, confirmed: bool, ok: bool) returns (called: bool)
      modifies this
      ensures called == confirmed
      ensures posts == (if confirmed && ok then RemoveById(old(posts), PostId, id) else old(posts))
      ensures editing == old(editing) && form == old(form) && open == old(open)
    {
      called := confirmed;
      if confirmed && ok {
        posts := RemoveById(posts, PostId, id);
      }
    }

    /**
      Editing an entry and saving without picking a file sends an update with
      no image part, so the server keeps the stored image.
     */
    method EditAndSave(p: PostItem, reply: Option<PostItem>) returns (sent: Option<Request>)
      requires PostsDisplayDate(p.date).Shown?
      modifies this
      ensures sent.Some? ==> EffectiveMethod(sent.value.body) == "PUT"
      ensures sent.Some? ==> PostInputOf(sent.value.body).image == NoImage
    {
      HandleEdit(p);
      sent := HandleSubmit(reply, None);
      if sent.Some? {
        PostUpdateDecodes(BlankPostForm.(title := p.title, category := p.category, date := PostsDisplayDate(p.date).text,
                                         author := p.author, description := p.description),
                          ToIsoDate(PostsDisplayDate(p.date).text).value);
      }
    }
  }

  // ---------------------------------------------------------------------
  // NewsManager

  class NewsManager {
    var news: seq<NewsItem>
    var editing: Option<NewsItem>
    var form: NewsForm
    var open: bool

    constructor ()
      ensures news == [] && editing == None && form == BlankNewsForm && !open
    {
      news := [];
      editing := None;
      form := BlankNewsForm;
      open := false;
    }

    method Load(fetched: Option<seq<NewsItem>>)
      modifies this
      ensures news == (if fetched.Some? then fetched.value else old(news))
      ensures editing == old(editing) && form == old(form) && open == old(open)
    {
      if fetched.Some? {
        news := fetched.value;
      }
    }

    method ResetForm()
      modifies this
      ensures form == BlankNewsForm && editing == None
      ensures news == old(news) && open == old(open)
    {
      form := BlankNewsForm;
      editing := None;
    }

    method OnDateInput(raw: string)
      modifies this
      ensures form == old(form).(date := DateMask(raw))
      ensures news == old(news) && editing == old(editing) && open == old(open)
    {
      form := form.(date := DateMask(raw));
    }

    /** `handleEdit`: the stored date is cleaned and shown as MM/DD/YYYY in the browser's time zone. */
    method HandleEdit(n: NewsItem, offsetMinutes: int)
      requires NewsDisplayDate(n.date, offsetMinutes).Shown?
      modifies this
      ensures editing == Some(n) && open && news == old(news)
      ensures form == NewsForm(n.title, n.category, NewsDisplayDate(n.date, offsetMinutes).text, n.description, Unset)
    {
      editing := Some(n);
      form := NewsForm(n.title, n.category, NewsDisplayDate(n.date, offsetMinutes).text, n.description, Unset);
      open := true;
    }

    method HandleSubmit(reply: Option<NewsItem>, reloaded: Option<seq<NewsItem>>) returns (sent: Option<Request>)
      modifies this
      ensures NewsSchemaErrors(old(form)) != {} ==>
        sent.None? && news == old(news) && form == old(form) && editing == old(editing) && open == old(open)
      ensures NewsSchemaErrors(old(form)) == {} ==> sent.Some? && ToIsoDate(old(form).date).Some?
      ensures NewsSchemaErrors(old(form)) == {} && old(editing).Some? ==>
        sent.value == Request("/news/" + Decimal(old(editing).value.id), NewsPairs(old(form), ToIsoDate(old(form).date).value) + [PutOverride])
      ensures NewsSchemaErrors(old(form)) == {} && old(editing).None? ==>
        sent.value == Request("/news", NewsPairs(old(form), ToIsoDate(old(form).date).value))
      ensures NewsSchemaErrors(old(form)) == {} && reply.None? ==>
        news == old(news) && form == old(form) && editing == old(editing) && open == old(open)
      ensures NewsSchemaErrors(old(form)) == {} && reply.Some? ==>
        && form == BlankNewsForm && editing == None && !open
        && news == (if old(editing).Some? then ReplaceById(old(news), NewsId, old(editing).value.id, reply.value)
                    else if reply.value.id != 0 then Prepend(reply.value, old(news))
                    else if reloaded.Some? then reloaded.value else old(news))
    {
      if NewsSchemaErrors(form) != {} {
        return None;
      }
      SlashDateToIso(form.date);
      if editing.Some? {
        sent := UpdateNews(Decimal(editing.value.id), form);
      } else {
        sent := CreateNews(form);
      }
      if reply.None? {
        return;
      }
      if editing.Some? {
        news := ReplaceById(news, NewsId, editing.value.id, reply.value);
      } else if reply.value.id != 0 {
        news := Prepend(reply.value, news);
      } else if reloaded.Some? {
        news := reloaded.value;
      }
      open := false;
      form := BlankNewsForm;
      editing := None;
    }

    method HandleDelete(id: nat, confirmed: bool, ok: bool) returns (called: bool)
      modifies this
      ensures called == confirmed
      ensures news == (if confirmed && ok then RemoveById(old(news), NewsId, id) else old(news))
      ensures editing == old(editing) && form == old(form) && open == old(open)
    {
      called := confirmed;
      if confirmed && ok {
        news := RemoveById(news, NewsId, id);
      }
    }
  }

  // ---------------------------------------------------------------------
  // EventsManager

  class EventsManager {
    var events: seq<EventItem>
    var editing: Option<EventItem>
    var form: EventForm
    var open: bool

    constructor ()
      ensures events == [] && editing == None && form == BlankEventForm && !open
    {
      events := [];
      editing := None;
      form := BlankEventForm;
      open := false;
    }

    method Load(fetched: Option<seq<EventItem>>)
      modifies this
      ensures events == (if fetched.Some? then fetched.value else old(events))
      ensures editing == old(editing) && form == old(form) && open == old(open)
    {
      if fetched.Some? {
        events := fetched.value;
      }
    }

    /** `resetForm`: the blank form with the location "EVENT LOCATION". */
    method ResetForm()
      modifies this
      ensures form == BlankEventForm && editing == None
      ensures events == old(events) && open == old(open)
    {
      form := BlankEventForm;
      editing := None;
    }

    /** The day input keeps digits only. */
    method OnDateInput(raw: string)
      modifies this
      ensures form == old(form).(date := DigitsOf(raw)) && AllDigits(form.date)
      ensures events == old(events) && editing == old(editing) && open == old(open)
    {
      form := form.(date := DigitsOf(raw));
    }

    /** The time input is normalised on every keystroke. */
    method OnTimeInput(raw: string)
      modifies this
      ensures form == old(form).(time := NormaliseTime(raw))
      ensures events == old(events) && editing == old(editing) && open == old(open)
    {
      form := form.(time := NormaliseTime(raw));
    }

    /** `handleEdit`: the entry's fields verbatim and no image picked. */
    method HandleEdit(e: EventItem)
      modifies this
      ensures editing == Some(e) && open && events == old(events)
      ensures form == EventForm(e.title, e.date, e.month, e.time, e.location, Unset)
    {
      editing := Some(e);
      form := EventForm(e.title, e.date, e.month, e.time, e.location, Unset);
      open := true;
    }

    /** `handleSubmit`: as for posts, except that a created event is always put first. */
    method HandleSubmit(reply: Option<EventItem>) returns (sent: Option<Request>)
      modifies this
      ensures EventSchemaErrors(old(form)) != {} ==>
        sent.None? && events == old(events) && form == old(form) && editing == old(editing) && open == old(open)
      ensures EventSchemaErrors(old(form)) == {} && old(editing).Some? ==>
        sent == Some(Request("/events/" + Decimal(old(editing).value.id), EventPairs(old(form)) + [PutOverride]))
      ensures EventSchemaErrors(old(form)) == {} && old(editing).None? ==>
        sent == Some(Request("/events", EventPairs(old(form))))
      ensures EventSchemaErrors(old(form)) == {} && reply.None? ==>
        events == old(events) && form == old(form) && editing == old(editing) && open == old(open)
      ensures EventSchemaErrors(old(form)) == {} && reply.Some? ==>
        && form == BlankEventForm && editing == None && !open
        && events == (if old(editing).Some? then ReplaceById(old(events), EventId, old(editing).value.id, reply.value)
                      else Prepend(reply.value, old(events)))
    {
      if EventSchemaErrors(form) != {} {
        return None;
      }
      var req: Request;
      if editing.Some? {
        req := UpdateEvent(Decimal(editing.value.id), form);
      } else {
        req := CreateEvent(form);
      }
      sent := Some(req);
      if reply.None? {
        return;
      }
      if editing.Some? {
        events := ReplaceById(events, EventId, editing.value.id, reply.value);
      } else {
        events := Prepend(reply.value, events);
      }
      open := false;
      form := BlankEventForm;
      editing := None;
    }

    method HandleDelete(id: nat, confirmed: bool, ok: bool) returns (called: bool)
      modifies this
      ensures called == confirmed
      ensures events == (if confirmed && ok then RemoveById(old(events), EventId, id) else old(events))
      ensures editing == old(editing) && form == old(form) && open == old(open)
    {
      called := confirmed;
      if confirmed && ok {
        events := RemoveById(events, EventId, id);
      }
    }

    /** Editing an event and saving without picking a file sends no image part: the server keeps its image. */
    method EditAndSave(e: EventItem, reply: Option<EventItem>) returns (sent: Option<Request>)
      modifies this
      ensures sent.Some? ==> EffectiveMethod(sent.value.body) == "PUT"
      ensures sent.Some? ==> EventInputOf(sent.value.body).image == NoImage
    {
      HandleEdit(e);
      sent := HandleSubmit(reply);
      if sent.Some? {
        var f := EventForm(e.title, e.date, e.month, e.time, e.location, Unset);
        EventUpdateDecodes(f);
        EventCreateDecodes(f);
      }
    }
  }

  // ---------------------------------------------------------------------
  // MinistriesManager

  class MinistriesManager {
    var ministries: seq<MinistryItem>
    var editing: Option<MinistryItem>
    var form: MinistryForm
    var open: bool

    constructor ()
      ensures ministries == [] && editing == None && form == BlankMinistryForm && !open
    {
      ministries := [];
      editing := None;
      form := BlankMinistryForm;
      open := false;
    }

    method Load(fetched: Option<seq<MinistryItem>>)
      modifies this
      ensures ministries == (if fetched.Some? then fetched.value else old(ministries))
      ensures editing == old(editing) && form == old(form) && open == old(open)
    {
      if fetched.Some? {
        ministries := fetched.value;
      }
    }

    /** `resetForm`: title, description and image cleared, nothing being edited. */
    method ResetForm()
      modifies this
      ensures form == BlankMinistryForm && editing == None
      ensures ministries == old(ministries) && open == old(open)
    {
      form := BlankMinistryForm;
      editing := None;
    }

    /** `handleEdit`: title and description copied, no image picked. */
    method HandleEdit(m: MinistryItem)
      modifies this
      ensures editing == Some(m) && open && ministries == old(ministries)
      ensures form == MinistryForm(m.title, m.description, Unset)
    {
      editing := Some(m);
      form := MinistryForm(m.title, m.description, Unset);
      open := true;
    }

    method HandleSubmit(reply: Option<MinistryItem>) returns (sent: Option<Request>)
      modifies this
      ensures MinistrySchemaErrors(old(form)) != {} ==>
        sent.None? && ministries == old(ministries) && form == old(form) && editing == old(editing) && open == old(open)
      ensures MinistrySchemaErrors(old(form)) == {} && old(editing).Some? ==>
        sent == Some(Request("/ministries/" + Decimal(old(editing).value.id), MinistryPairs(old(form)) + [PutOverride]))
      ensures MinistrySchemaErrors(old(form)) == {} && old(editing).None? ==>
        sent == Some(Request("/ministries", MinistryPairs(old(form))))
      ensures MinistrySchemaErrors(old(form)) == {} && reply.None? ==>
        ministries == old(ministries) && form == old(form) && editing == old(editing) && open == old(open)
      ensures MinistrySchemaErrors(old(form)) == {} && reply.Some? ==>
        && form == BlankMinistryForm && editing == None && !open
        && ministries == (if old(editing).Some? then ReplaceById(old(ministries), MinistryId, old(editing).value.id, reply.value)
                          else Prepend(reply.value, old(ministries)))
    {
      if MinistrySchemaErrors(form) != {} {
        return None;
      }
      var req: Request;
      if editing.Some? {
        req := UpdateMinistry(Decimal(editing.value.id), form);
      } else {
        req := CreateMinistry(form);
      }
      sent := Some(req);
      if reply.None? {
        return;
      }
      if editing.Some? {
        ministries := ReplaceById(ministries, MinistryId, editing.value.id, reply.value);
      } else {
        ministries := Prepend(reply.value, ministries);
      }
      open := false;
      form := BlankMinistryForm;
      editing := None;
    }

    method HandleDelete(id: nat, confirmed: bool, ok: bool) returns (called: bool)
      modifies this
      ensures called == confirmed
      ensures ministries == (if confirmed && ok then RemoveById(old(ministries), MinistryId, id) else old(ministries))
      ensures editing == old(editing) && form == old(form) && open == old(open)
    {
      called := confirmed;
      if confirmed && ok {
        ministries := RemoveById(ministries, MinistryId, id);
      }
    }
  }
}
