/**
 * The popup's logic without its page: trimming of the site field, the submit
 * guard and the duration it sends, when a reply makes it clear the form and
 * refresh the list, and how the list is drawn.
 */
module Popup {
  import opened Wrappers
  import opened Sites
  import opened Background

  /** The characters String.prototype.trim removes that this model knows
      about: ASCII white space and line terminators, the no-break space, the
      line and paragraph separators and the byte-order mark. */
  predicate IsWhitespace(c: char) {
    c == ' ' || c == '\t' || c == '\n' || c == '\r' || c == '\U{B}' || c == '\U{C}' ||
    c == '\U{A0}' || c == '\U{2028}' || c == '\U{2029}' || c == '\U{FEFF}'
  }

  /** The length of the run of white space that starts `s`. */
  function LeadingSpace(s: string): (n: nat)
    ensures n <= |s|
    ensures forall j :: 0 <= j < n ==> IsWhitespace(s[j])
    ensures n < |s| ==> !IsWhitespace(s[n])
  {
    if s != [] && IsWhitespace(s[0]) then 1 + LeadingSpace(s[1..]) else 0
  }

  /** The length of the run of white space that ends `s`. */
  function TrailingSpace(s: string): (n: nat)
    ensures n <= |s|
    ensures forall j :: |s| - n <= j < |s| ==> IsWhitespace(s[j])
    ensures n < |s| ==> !IsWhitespace(s[|s| - 1 - n])
  {
    if s != [] && IsWhitespace(s[|s| - 1]) then 1 + TrailingSpace(s[..|s| - 1]) else 0
  }

  /** `s` without its leading and trailing white space. */
  function Trim(s: string): string {
    var t := s[LeadingSpace(s)..];
    t[..|t| - TrailingSpace(t)]
  }

  /** Trim removes only white space, from the two ends, and leaves a string
      that neither starts nor ends with white space. */
  lemma TrimSpec(s: string)
    ensures exists i, j :: 0 <= i <= j <= |s| && Trim(s) == s[i..j] &&
              (forall k :: 0 <= k < i ==> IsWhitespace(s[k])) &&
              (forall k :: j <= k < |s| ==> IsWhitespace(s[k]))
    ensures Trim(s) != [] ==> !IsWhitespace(Trim(s)[0]) && !IsWhitespace(Trim(s)[|Trim(s)| - 1])
  {
    var i := LeadingSpace(s);
    var t := s[i..];
    var j := i + |t| - TrailingSpace(t);
    assert Trim(s) == s[i..j];
    forall k | j <= k < |s|
      ensures IsWhitespace(s[k])
    {
      assert s[k] == t[k - i];
    }
  }

  /** The trimmed site is empty exactly when the field holds only white space. */
  lemma TrimEmpty(s: string)
    ensures Trim(s) == [] <==> forall k :: 0 <= k < |s| ==> IsWhitespace(s[k])
  {
    var i := LeadingSpace(s);
    var t := s[i..];
    if i < |s| {
      assert t[0] == s[i];
      assert TrailingSpace(t) < |t|;
    }
  }

  /** The add-block form as submitted: the site field's text and the parsed
      hours and minutes fields, None for a blank field. */
  datatype Form = Form(website: string, hours: Option<int>, minutes: Option<int>)

  /** The value a number field contributes: a blank field counts as 0. */
  function FieldValue(field: Option<int>): int {
    field.GetOr(0)
  }

  /** What submitting the form does: reject it, or send a block request. */
  datatype SubmitOutcome = Rejected | Send(request: Message)

  /** The submit handler: rejects a form whose trimmed site is empty or whose
      hours and minutes are both 0; otherwise sends a block request for the
      trimmed site with the duration in minutes. */
  function Submit(form: Form): (o: SubmitOutcome)
    ensures o.Rejected? <==>
              (forall k :: 0 <= k < |form.website| ==> IsWhitespace(form.website[k])) ||
              (FieldValue(form.hours) == 0 && FieldValue(form.minutes) == 0)
    ensures o.Send? ==>
              o.request.action == BlockAction &&
              o.request.website == Trim(form.website) && o.request.website != [] &&
              o.request.duration == FieldValue(form.hours) * 60 + FieldValue(form.minutes)
  {
    TrimEmpty(form.website);
    var website := Trim(form.website);
    var hours := FieldValue(form.hours);
    var minutes := FieldValue(form.minutes);
    if website == [] || (hours == 0 && minutes == 0) then Rejected
    else Send(Message(BlockAction, website, hours * 60 + minutes))
  }

  /** Blank hour and minute fields count as zero, so the form is rejected. */
  lemma BlankDurationRejected(website: string)
    ensures Submit(Form(website, None, None)).Rejected?
    ensures Submit(Form(website, Some(0), None)).Rejected?
    ensures Submit(Form(website, None, Some(0))).Rejected?
  {
  }

  /** The guard tests for exact zeros only: a negative duration, or a zero
      total made of non-zero fields, is sent. */
  lemma OnlyZeroIsRejected()
    ensures Submit(Form("a.com", Some(-1), Some(0))) == Send(Message(BlockAction, "a.com", -60))
    ensures Submit(Form("a.com", Some(1), Some(-60))) == Send(Message(BlockAction, "a.com", 0))
  {
    assert LeadingSpace("a.com") == 0;
    assert TrailingSpace("a.com") == 0;
  }

  /** The popup's unblock request for `website`. */
  function UnblockRequest(website: string): Message {
    Message(UnblockAction, website, 0)
  }

  /** `response && response.success`: a reply is there and reports success. */
  predicate Succeeded(reply: Option<Response>) {
    reply.Some? && reply.value.SuccessReply? && reply.value.success
  }

  /** What the popup does with the reply to a block request: on success it
      blanks the form and refreshes the list; otherwise it keeps the form and
      does nothing else. */
  function AfterBlockReply(form: Form, reply: Option<Response>): (Form, bool) {
    if Succeeded(reply) then (Form("", None, None), true) else (form, false)
  }

  /** Whether the popup refreshes the list after the reply to an unblock
      request: only on success. */
  function RefreshAfterUnblock(reply: Option<Response>): bool {
    Succeeded(reply)
  }

  /** The popup clears the form and refreshes the list after the dispatcher's
      reply to a block or unblock request, and does neither after its reply
      to a list request or to an unknown action (no reply). */
  lemma ReplyGating(form: Form, message: Message, list: seq<BlockedSite>)
    ensures AfterBlockReply(form, ReplyTo(message, list)) ==
            if message.action == BlockAction || message.action == UnblockAction
            then (Form("", None, None), true) else (form, false)
    ensures RefreshAfterUnblock(ReplyTo(message, list)) <==>
            message.action == BlockAction || message.action == UnblockAction
  {
  }

  /** The remaining-time label of a listed entry. */
  datatype FinishLabel = Until(finishTime: int) | TimeExpired

  function Label(e: BlockedSite, now: int): FinishLabel {
    var remainingTime := e.finishTime - now;
    if remainingTime > 0 then Until(e.finishTime) else TimeExpired
  }

  /** The popup and the restore loop agree on what has expired: every record
      that survives restore is labelled with its finish time, and no record
      of a site with an entry labelled "Time expired" survives restore. */
  lemma LabelAgreesWithRestore(list: seq<BlockedSite>, now: int)
    ensures forall e :: e in RestoredList(list, now) ==> Label(e, now) == Until(e.finishTime)
    ensures forall e, x :: e in list && Label(e, now) == TimeExpired && x in RestoredList(list, now) ==>
              x.website != e.website
  {
    RestoredListSurvivors(list, now);
  }

  /** A drawn list item: the site and its finish label. */
  datatype Item = Item(website: string, status: FinishLabel)

  /** The drawn list: the placeholder for no entries, or the items. */
  datatype View = Placeholder | Items(items: seq<Item>)

  /** The list drawn from the reply to a list request: the placeholder when
      the reply or its list is missing or the list is empty; otherwise one
      item per entry, in list order. */
  function Render(reply: Option<Response>, now: int): (v: View)
    ensures v.Placeholder? <==> !(reply.Some? && reply.value.WebsitesReply? && |reply.value.websites| > 0)
    ensures v.Items? ==>
              var ws := reply.value.websites;
              |v.items| == |ws| &&
              forall i :: 0 <= i < |ws| ==>
                v.items[i].website == ws[i].website &&
                (v.items[i].status == TimeExpired <==> Expired(ws[i], now)) &&
                (v.items[i].status.Until? ==> v.items[i].status.finishTime == ws[i].finishTime)
  {
    if reply.Some? && reply.value.WebsitesReply? && |reply.value.websites| > 0 then
      var ws := reply.value.websites;
      Items(seq(|ws|, i requires 0 <= i < |ws| => Item(ws[i].website, Label(ws[i], now))))
    else Placeholder
  }

  /** A submission followed by its delivery to the background controller:
      an accepted form appends a record for the trimmed site ending
      (hours*60 + minutes) minutes after `now`, and its reply makes the popup
      blank the form and refresh; a rejected form sends nothing. */
  method SubmitAndDeliver(registry: Registry, form: Form, now: int)
    returns (sent: bool, reply: Option<Response>, fx: seq<Effect>)
    requires registry.Valid()
    modifies registry
    ensures registry.Valid()
    ensures sent <==> Submit(form).Send?
    ensures !sent ==> reply == None && fx == [] && unchanged(registry)
    ensures sent ==>
              var finish := FinishTime(now, FieldValue(form.hours) * 60 + FieldValue(form.minutes));
              registry.blockedWebsites == old(registry.blockedWebsites) + [BlockedSite(Trim(form.website), finish)] &&
              registry.timeoutMap == old(registry.timeoutMap) && registry.nextHandle == old(registry.nextHandle) &&
              fx == [PersistAndRefresh(registry.blockedWebsites), CreateAlarm(Trim(form.website), finish)] &&
              AfterBlockReply(form, reply) == (Form("", None, None), true)
  {
    var outcome := Submit(form);
    if outcome.Rejected? {
      return false, None, [];
    }
    sent := true;
    reply, fx := registry.HandleMessage(outcome.request, now);
  }

  /** The unblock button followed by delivery of its request: every record of
      the site leaves the list, and the success reply makes the popup
      refresh the list. */
  method UnblockAndDeliver(registry: Registry, website: string, now: int)
    returns (reply: Option<Response>, fx: seq<Effect>, refresh: bool)
    requires registry.Valid()
    modifies registry
    ensures registry.Valid()
    ensures registry.blockedWebsites == Without(old(registry.blockedWebsites), {website})
    ensures registry.timeoutMap == old(registry.timeoutMap) - {website}
    ensures registry.nextHandle == old(registry.nextHandle)
    ensures fx == [PersistAndRefresh(registry.blockedWebsites)]
    ensures refresh == RefreshAfterUnblock(reply) && refresh
  {
    reply, fx := registry.HandleMessage(UnblockRequest(website), now);
    refresh := RefreshAfterUnblock(reply);
  }
}
