/**
 * The values the two event handlers of src/static/app.js consume and produce:
 * the settled outcome of a request, the request itself, the clicked element,
 * and the texts of the feedback message.
 */
module Handlers {
  import opened Wrappers
  import opened Roster

  /** How a signup or unregister request settled. `HttpErr.detail` is None when
      the error body carries no string `detail`; `Thrown` stands for a rejected
      request or a response body that does not parse. */
  datatype Outcome = Ok(message: string) | HttpErr(detail: Option<string>) | Thrown

  /** The message box's class: whatever the page starts with, "success" or "error". */
  datatype Kind = Unset | Success | Error

  datatype Verb = Post | Delete

  /** `<verb> /activities/<activity>/signup?email=<email>`, before percent-encoding. */
  datatype Request = Request(verb: Verb, activity: string, email: string)

  /** Stands for the identity of one remove-control element of the page. */
  type ButtonId = nat

  /** Where a click in the activities list landed: outside every remove control,
      or inside one, with its `data-activity` and `data-email` attributes (None
      when the attribute is missing). */
  datatype ClickTarget = Elsewhere | RemoveControl(button: ButtonId, activity: Option<string>, email: Option<string>)

  const SignupFallback := "An error occurred"
  const SignupFailedText := "Failed to sign up. Please try again."
  const UnregisterFallback := "Failed to unregister participant"
  const UnregisterFailedText := "Failed to unregister participant. Please try again."

  /** `result.detail || fallback`: the server's detail unless it is absent or empty. */
  function ErrorText(detail: Option<string>, fallback: string): (t: string)
    ensures detail.Some? && detail.value != "" ==> t == detail.value
    ensures detail.None? || detail.value == "" ==> t == fallback
  {
    match detail
    case Some(s) => if s != "" then s else fallback
    case None => fallback
  }

  /** The unregister guard: the activity and email a click asks to remove, or None
      when the click is to be ignored. */
  function Tags(t: ClickTarget): (tags: Option<(string, string)>)
    ensures tags.Some? <==>
      t.RemoveControl? && t.activity.Some? && t.activity.value != "" && t.email.Some? && t.email.value != ""
    ensures tags.Some? ==> tags.value == (t.activity.value, t.email.value)
  {
    match t
    case Elsewhere => None
    case RemoveControl(_, a, e) =>
      if a.Some? && a.value != "" && e.Some? && e.value != "" then Some((a.value, e.value)) else None
  }

  /** A click on the remove control of a rendered row; the placeholder row has none. */
  function ClickOn(row: Row, button: ButtonId): ClickTarget
  {
    match row
    case Placeholder => Elsewhere
    case Participant(_, a, e) => RemoveControl(button, Some(a), Some(e))
  }

  /** The tags a card's control carries recover its target without the roster: a
      click on the control of row j of card k asks to remove participant j of
      activity k, unless one of the two is the empty string, which the guard ignores. */
  lemma RenderedControlTargetsItsParticipant(prior: Display, es: seq<Entry>, k: nat, j: nat, button: ButtonId)
    requires Complete(es) && k < |es|
    requires j < |Participants(es[k].details.value)|
    ensures var d := Rendered(prior, Fetched(es));
      var ps := Participants(es[k].details.value);
      && d.list.Cards? && k < |d.list.cards| && j < |d.list.cards[k].rows|
      && d.list.cards[k].rows[j] == Participant(ps[j], es[k].name, ps[j])
      && Tags(ClickOn(d.list.cards[k].rows[j], button)) ==
           (if es[k].name != "" && ps[j] != "" then Some((es[k].name, ps[j])) else None)
  {
    RenderedComplete(prior, es);
    RowsForShape(es[k].name, Participants(es[k].details.value));
  }
}
