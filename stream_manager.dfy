/**
  The admin page for the live stream: the settings on screen, the settings
  dialog and its form, and how a save travels to the server's `update`.
 */
module StreamManager {
  import opened Wrappers
  import opened Text
  import opened Schemas
  import opened LiveStreamApi
  import opened YouTube

  /** `updateStreamSettings` sends the schema's output as a JSON body. */
  function RequestOf(f: StreamForm): (r: StreamRequest)
    ensures r.isLive == Some(JBool(f.isLive))
    ensures r.title == Some(JString(f.title)) && r.videoUrl == Some(JString(f.videoUrl))
  {
    StreamRequest(Some(JBool(f.isLive)), Some(JString(f.title)), Some(JString(f.videoUrl)))
  }

  /**
    What the server makes of a form the client sends: the switch's value
    survives the coercion, and only a blank or overlong title or URL is
    refused.
   */
  lemma ServerReadsForm(f: StreamForm)
    ensures PrepareForValidation(RequestOf(f)).isLive == Some(JBool(f.isLive))
    ensures RuleErrors(PrepareForValidation(RequestOf(f))) == {} <==>
      !PhpBlank(f.title) && |f.title| <= 255 && !PhpBlank(f.videoUrl) && |f.videoUrl| <= 255
  {
    CoercedIsLivePasses(RequestOf(f));
  }

  /**
    The client's schema passes a title of three spaces, which the server's
    `required` refuses: a save can pass the dialog and still be rejected.
   */
  lemma BlankTitlePassesClientOnly(url: string, isUrl: string -> bool)
    requires isUrl(url) && |url| >= 5 && |url| <= 255 && !PhpBlank(url)
    ensures StreamSchemaErrors(StreamForm(true, "   ", url), isUrl) == {}
    ensures RuleErrors(PrepareForValidation(RequestOf(StreamForm(true, "   ", url)))) == {"title"}
  {
    assert JsLength("   ") == 3;
    assert JsLength(url) >= 5;
    assert PhpBlank("   ");
    ServerReadsForm(StreamForm(true, "   ", url));
  }

  class LiveStreamManager {
    /** The settings shown on the status card. */
    var liveStream: StreamJson
    var dialogOpen: bool
    var form: StreamForm

    constructor ()
      ensures liveStream == StreamJson(0, false, "", "") && !dialogOpen && form == StreamForm(false, "", "")
    {
      liveStream := StreamJson(0, false, "", "");
      dialogOpen := false;
      form := StreamForm(false, "", "");
    }

    /** `loadSettings`: the fetched settings, copied into the form too; no change when the fetch fails. */
    method LoadSettings(fetched: Option<StreamJson>)
      modifies this
      ensures fetched.Some? ==>
        liveStream == fetched.value && form == StreamForm(fetched.value.isLive, fetched.value.title, fetched.value.videoUrl)
      ensures fetched.None? ==> liveStream == old(liveStream) && form == old(form)
      ensures dialogOpen == old(dialogOpen)
    {
      if fetched.Some? {
        liveStream := fetched.value;
        form := StreamForm(fetched.value.isLive, fetched.value.title, fetched.value.videoUrl);
      }
    }

    /** `handleDialogOpen`: opening the dialog refills the form from the settings on screen. */
    method HandleDialogOpen(open: bool)
      modifies this
      ensures dialogOpen == open && liveStream == old(liveStream)
      ensures form == (if open then StreamForm(liveStream.isLive, liveStream.title, liveStream.videoUrl) else old(form))
    {
      dialogOpen := open;
      if open {
        form := StreamForm(liveStream.isLive, liveStream.title, liveStream.videoUrl);
      }
    }

    /**
      `handleSave`: a form the schema refuses sends nothing; otherwise the
      form goes out as JSON, and a successful reply becomes the settings on
      screen and closes the dialog.  The form itself is left as it is.
     */
    method HandleSave(isUrl: string -> bool, reply: Option<StreamJson>) returns (sent: Option<StreamRequest>)
      modifies this
      ensures StreamSchemaErrors(old(form), isUrl) != {} ==>
        sent.None? && liveStream == old(liveStream) && dialogOpen == old(dialogOpen)
      ensures StreamSchemaErrors(old(form), isUrl) == {} ==> sent == Some(RequestOf(old(form)))
      ensures StreamSchemaErrors(old(form), isUrl) == {} && reply.Some? ==> liveStream == reply.value && !dialogOpen
      ensures reply.None? ==> liveStream == old(liveStream) && dialogOpen == old(dialogOpen)
      ensures form == old(form)
    {
      if StreamSchemaErrors(form, isUrl) != {} {
        return None;
      }
      sent := Some(RequestOf(form));
      if reply.Some? {
        liveStream := reply.value;
        dialogOpen := false;
      }
    }

    /**
      A save answered by the controller itself: a 422 reaches the client as a
      failed call.  When the server accepts, the card shows the stored row,
      with the switch's value, and both pages then embed the same player.
     */
    method SaveThrough(server: LiveStreamController, isUrl: string -> bool) returns (resp: Option<UpdateResponse>)
      modifies this, server
      ensures StreamSchemaErrors(old(form), isUrl) != {} ==> resp.None? && server.row == old(server.row)
      ensures resp.Some? && resp.value.Updated? ==>
        && server.row.Some? && liveStream == ToJson(server.row.value)
        && liveStream.isLive == old(form).isLive && liveStream.title == old(form).title
        && liveStream.videoUrl == old(form).videoUrl
        && !dialogOpen
        && SectionPlayer(Some(liveStream)) == AdminEmbed(liveStream)
      ensures resp.Some? && resp.value.Rejected? ==> liveStream == old(liveStream) && dialogOpen == old(dialogOpen)
    {
      if StreamSchemaErrors(form, isUrl) != {} {
        return None;
      }
      var f := form;
      var r := server.Update(RequestOf(f));
      resp := Some(r);
      var reply := if r.Updated? then Some(r.body) else None;
      var sent := HandleSave(isUrl, reply);
      PagesAgree(liveStream);
    }
  }
}
