/** The two handlers that turn a chat message into a stored reminder: the
    trigger test on plain text, and the request handler that parses the
    text and inserts a row. */
module Bot {
  import opened Wrappers
  import opened Text
  import opened Timestamp
  import opened Parser
  import opened Store

  /** `"remind" in text.lower()`. */
  predicate LooksLikeReminder(text: string) {
    Contains(Lower(text), "remind")
  }

  /** The six characters of `text` at `k` spell "remind" in some mix of
      cases. */
  predicate SpellsRemindAt(text: string, k: nat) {
    k + 6 <= |text| && Lower(text[k..k + 6]) == "remind"
  }

  /** The trigger fires exactly when some six characters of the text spell
      "remind" in any mix of cases. */
  lemma TriggerIgnoresCase(text: string)
    ensures LooksLikeReminder(text) <==> exists k: nat :: SpellsRemindAt(text, k)
  {
    ContainsIff(Lower(text), "remind");
    if LooksLikeReminder(text) {
      var k :| 0 <= k <= |text| && OccursAt(Lower(text), "remind", k);
      LowerSlice(text, k, k + 6);
      assert SpellsRemindAt(text, k);
    }
    if exists k: nat :: SpellsRemindAt(text, k) {
      var k: nat :| SpellsRemindAt(text, k);
      LowerSlice(text, k, k + 6);
      assert OccursAt(Lower(text), "remind", k);
    }
  }

  /** What the user sees: a confirmation of the stored time and message, the
      guidance text when nothing was understood, or nothing at all because
      `parse_reminder` raised. */
  datatype Response = Confirmed(time: Instant, message: string) | Guidance | Crashed

  /** Every stored due time is the rendering of an instant. */
  ghost predicate TimesRendered(rows: map<int, Row>) {
    forall id :: id in rows ==> exists t: Instant :: rows[id].remindTime == Render(t)
  }

  /** What `handle_reminder_request` leaves behind: a row holding the
      rendered time and the message is inserted under the next id exactly
      when the parser produced both; otherwise the table is as it was, and
      the reply is the guidance, or nothing because the parser raised. */
  twostate predicate RequestHandled(store: ReminderStore, chatId: string, text: string, now: Instant,
                                    reply: Option<Reply>, dateParse: string -> Option<Instant>, resp: Response)
    reads store
  {
    var p := ParseReminder(text, now, reply, dateParse);
    if p.Found? && p.message.Some? then
      && resp == Confirmed(p.time, p.message.value)
      && store.rows == old(store.rows)[old(store.nextId) := Row(chatId, p.message.value, Render(p.time))]
      && store.nextId == old(store.nextId) + 1 && store.issued == old(store.issued) + {old(store.nextId)}
    else
      && resp == (if p.Raised? then Crashed else Guidance)
      && store.rows == old(store.rows) && store.nextId == old(store.nextId) && store.issued == old(store.issued)
  }

  /** `handle_reminder_request` for the chat `chatId`: a row is inserted
      only when the parser produced both a time and a message. */
  method HandleReminderRequest(store: ReminderStore, chatId: string, text: string, now: Instant,
                               reply: Option<Reply>, dateParse: string -> Option<Instant>)
      returns (resp: Response)
    requires store.Valid()
    modifies store
    ensures store.Valid()
    ensures TimesRendered(old(store.rows)) ==> TimesRendered(store.rows)
    ensures RequestHandled(store, chatId, text, now, reply, dateParse, resp)
  {
    var p := ParseReminder(text, now, reply, dateParse);
    match p
    case Raised =>
      resp := Crashed;
    case NotFound =>
      resp := Guidance;
    case Found(t, msg) =>
      if msg.None? {
        resp := Guidance;
      } else {
        var _ := store.Add(chatId, msg.value, Render(t));
        resp := Confirmed(t, msg.value);
      }
  }

  /** `handle_text_reminder`: text without "remind" in it is ignored. */
  method HandleTextReminder(store: ReminderStore, chatId: string, text: string, now: Instant,
                            reply: Option<Reply>, dateParse: string -> Option<Instant>)
      returns (resp: Option<Response>)
    requires store.Valid()
    modifies store
    ensures store.Valid()
    ensures !LooksLikeReminder(text) ==> resp.None? && store.rows == old(store.rows) && store.nextId == old(store.nextId) && store.issued == old(store.issued)
    ensures LooksLikeReminder(text) ==> resp.Some? && RequestHandled(store, chatId, text, now, reply, dateParse, resp.value)
    ensures TimesRendered(old(store.rows)) ==> TimesRendered(store.rows)
  {
    if LooksLikeReminder(text) {
      var r := HandleReminderRequest(store, chatId, text, now, reply, dateParse);
      resp := Some(r);
    } else {
      resp := None;
    }
  }

  /** A reminder stored for instant `t` comes due exactly at the ticks at or
      after `t`. */
  lemma DueExactlyFrom(rows: map<int, Row>, id: int, t: Instant, now: Instant)
    requires id in rows && rows[id].remindTime == Render(t)
    ensures id in DueIds(rows, Render(now)) <==> t <= now
  {
    DueIffPast(rows[id], t, now);
  }
}
