/**
 * The roster as the client receives it, and the display that `fetchActivities`
 * (src/static/app.js) rebuilds from it: one card per activity in the list, and
 * one option per activity in the activity selector.
 *
 * Everything here is a value; the page state that holds the display is the
 * class in module Client.
 */
module Roster {
  import opened Wrappers

  /** The value stored under one activity name in the roster body. `participants`
      is None when the body holds something other than an array there. */
  datatype Details = Details(
    description: string,
    schedule: string,
    maxParticipants: int,
    participants: Option<seq<string>>)

  /** One `[name, details]` pair, in `Object.entries` order. `details` is None when
      the body holds `null` under that name. */
  datatype Entry = Entry(name: string, details: Option<Details>)

  /** What `fetch("/activities")` followed by `response.json()` delivers. */
  datatype FetchResult =
    | FetchFailed                   // the request or the JSON parse rejected
    | NotAnObject                   // the body parsed to `null`
    | Fetched(entries: seq<Entry>)  // the entries of the parsed body

  /** The participants the card shows: a non-array value is treated as empty. */
  function Participants(d: Details): seq<string>
  {
    match d.participants
    case Some(ps) => ps
    case None => []
  }

  /** The number shown in the availability line, "<n> spots left". */
  function SpotsLeft(d: Details): (n: int)
    ensures n + |Participants(d)| == d.maxParticipants
    ensures n < 0 <==> |Participants(d)| > d.maxParticipants
    ensures d.participants.None? ==> n == d.maxParticipants
  {
    d.maxParticipants - |Participants(d)|
  }

  /** A row of a card's participants list: the placeholder "No participants yet",
      or a participant's email with a remove control whose `data-activity` and
      `data-email` attributes are the two tags. */
  datatype Row = Placeholder | Participant(email: string, tagActivity: string, tagEmail: string)

  /** The number of remove controls among the rows. */
  function RemoveControls(rows: seq<Row>): nat
  {
    if rows == [] then 0
    else RemoveControls(rows[..|rows| - 1]) + (if rows[|rows| - 1].Participant? then 1 else 0)
  }

  /** One row per participant, in order, each control tagged with the activity and that email. */
  function ParticipantRows(name: string, ps: seq<string>): seq<Row>
  {
    if ps == [] then []
    else ParticipantRows(name, ps[..|ps| - 1]) + [Participant(ps[|ps| - 1], name, ps[|ps| - 1])]
  }

  /** The rows of the participants list of activity `name`. */
  function RowsFor(name: string, ps: seq<string>): seq<Row>
  {
    if ps == [] then [Placeholder] else ParticipantRows(name, ps)
  }

  lemma {:induction false} ParticipantRowsShape(name: string, ps: seq<string>)
    ensures |ParticipantRows(name, ps)| == |ps|
    ensures RemoveControls(ParticipantRows(name, ps)) == |ps|
    ensures forall k :: 0 <= k < |ps| ==> ParticipantRows(name, ps)[k] == Participant(ps[k], name, ps[k])
  {
    if ps != [] {
      var init := ps[..|ps| - 1];
      ParticipantRowsShape(name, init);
      var rows := ParticipantRows(name, ps);
      assert rows[..|rows| - 1] == ParticipantRows(name, init);
    }
  }

  /** An empty list yields exactly the placeholder and no remove control; otherwise
      there is one row per participant, in order, each with a remove control tagged
      with the activity name and that participant's email. */
  lemma RowsForShape(name: string, ps: seq<string>)
    ensures ps == [] ==> RowsFor(name, ps) == [Placeholder] && RemoveControls(RowsFor(name, ps)) == 0
    ensures ps != [] ==>
      && |RowsFor(name, ps)| == |ps|
      && RemoveControls(RowsFor(name, ps)) == |ps|
      && Placeholder !in RowsFor(name, ps)
      && forall k :: 0 <= k < |ps| ==> RowsFor(name, ps)[k] == Participant(ps[k], name, ps[k])
  {
    if ps == [] {
      assert [Placeholder][..0] == [];
    } else {
      ParticipantRowsShape(name, ps);
    }
  }

  /** The participants list as the `forEach` over the participants builds it. */
  method BuildRows(name: string, ps: seq<string>) returns (rows: seq<Row>)
    ensures rows == RowsFor(name, ps)
  {
    if |ps| == 0 {
      return [Placeholder];
    }
    rows := [];
    var i := 0;
    while i < |ps|
      invariant 0 <= i <= |ps|
      invariant rows == ParticipantRows(name, ps[..i])
    {
      rows := rows + [Participant(ps[i], name, ps[i])];
      i := i + 1;
      assert ps[..i][..i - 1] == ps[..i - 1];
    }
    assert ps[..i] == ps;
  }

  /** An activity card: title, description, schedule line, availability line and participants list. */
  datatype Card = Card(title: string, description: string, schedule: string, spotsLeft: int, rows: seq<Row>)

  function CardFor(name: string, d: Details): Card
  {
    Card(name, d.description, d.schedule, SpotsLeft(d), RowsFor(name, Participants(d)))
  }

  /** An `<option>` of the activity selector. */
  datatype SelectOption = SelectOption(value: string, text: string)

  /** The option the selector is reset to before the activities are added. */
  const PlaceholderOption := SelectOption("", "-- Select an activity --")

  /** Every entry has a non-null value, so the render runs through all of them. */
  predicate Complete(es: seq<Entry>)
  {
    forall i :: 0 <= i < |es| ==> es[i].details.Some?
  }

  function CardsOf(es: seq<Entry>): seq<Card>
    requires Complete(es)
  {
    if es == [] then []
    else CardsOf(es[..|es| - 1]) + [CardFor(es[|es| - 1].name, es[|es| - 1].details.value)]
  }

  function OptionsOf(es: seq<Entry>): seq<SelectOption>
  {
    if es == [] then []
    else OptionsOf(es[..|es| - 1]) + [SelectOption(es[|es| - 1].name, es[|es| - 1].name)]
  }

  /** How many entries are rendered before the first one whose value is null
      (reading `participants` of `null` throws, which ends the render). */
  function CompletePrefix(es: seq<Entry>): (n: nat)
    ensures n <= |es|
    ensures Complete(es[..n])
    ensures n < |es| ==> es[n].details.None?
  {
    if es == [] || es[0].details.None? then 0
    else
      var m := CompletePrefix(es[1..]);
      assert es[..1 + m] == [es[0]] + es[1..][..m];
      1 + m
  }

  /** The two facts a loop over the entries ends with determine where it stopped. */
  lemma CompletePrefixUnique(es: seq<Entry>, i: nat)
    requires i <= |es| && Complete(es[..i])
    requires i < |es| ==> es[i].details.None?
    ensures i == CompletePrefix(es)
  {
    var n := CompletePrefix(es);
    assert forall k :: 0 <= k < i ==> es[..i][k] == es[k];
    assert forall k :: 0 <= k < n ==> es[..n][k] == es[k];
  }

  /** Rendering one more entry appends its card and its option. */
  lemma RenderStep(es: seq<Entry>, i: nat)
    requires i < |es| && Complete(es[..i]) && es[i].details.Some?
    ensures Complete(es[..i + 1])
    ensures CardsOf(es[..i + 1]) == CardsOf(es[..i]) + [CardFor(es[i].name, es[i].details.value)]
    ensures OptionsOf(es[..i + 1]) == OptionsOf(es[..i]) + [SelectOption(es[i].name, es[i].name)]
  {
    assert es[..i + 1][..i] == es[..i];
  }

  lemma {:induction false} CardsOfShape(es: seq<Entry>)
    requires Complete(es)
    ensures |CardsOf(es)| == |es|
    ensures forall k :: 0 <= k < |es| ==> CardsOf(es)[k] == CardFor(es[k].name, es[k].details.value)
  {
    if es != [] {
      CardsOfShape(es[..|es| - 1]);
    }
  }

  lemma {:induction false} OptionsOfShape(es: seq<Entry>)
    ensures |OptionsOf(es)| == |es|
    ensures forall k :: 0 <= k < |es| ==> OptionsOf(es)[k] == SelectOption(es[k].name, es[k].name)
  {
    if es != [] {
      OptionsOfShape(es[..|es| - 1]);
    }
  }

  /** The activities list: the loading text of the page, cards, or the failure notice
      "Failed to load activities. Please try again later.". */
  datatype ListView = Loading | Cards(cards: seq<Card>) | LoadFailed

  /** What the renderer owns: the activities list, the selector's options, and the selector's current value. */
  datatype Display = Display(list: ListView, options: seq<SelectOption>, selected: string)

  /** The display after one `fetchActivities` pass that delivered `res`, starting from `prior`. */
  function Rendered(prior: Display, res: FetchResult): Display
  {
    match res
    case FetchFailed => prior.(list := LoadFailed)
    case NotAnObject => Display(LoadFailed, [PlaceholderOption], "")
    case Fetched(es) =>
      var n := CompletePrefix(es);
      Display(
        if n == |es| then Cards(CardsOf(es)) else LoadFailed,
        [PlaceholderOption] + OptionsOf(es[..n]),
        "")
  }

  /** Cards and options come from the same roster: whenever cards are shown, option
      k + 1 names card k and there is nothing else besides the placeholder. */
  predicate InSync(d: Display)
  {
    d.list.Cards? ==>
      && |d.options| == |d.list.cards| + 1
      && d.options[0] == PlaceholderOption
      && forall k :: 0 <= k < |d.list.cards| ==>
           d.options[k + 1].value == d.list.cards[k].title && d.options[k + 1].text == d.list.cards[k].title
  }

  /** A complete roster yields exactly one card and one option per entry, in entry
      order, after the placeholder, whatever was displayed before. */
  lemma RenderedComplete(prior: Display, es: seq<Entry>)
    requires Complete(es)
    ensures var d := Rendered(prior, Fetched(es));
      && d.list.Cards?
      && |d.list.cards| == |es|
      && |d.options| == |es| + 1
      && d.options[0] == PlaceholderOption
      && d.selected == ""
      && forall k :: 0 <= k < |es| ==>
           && d.list.cards[k] == CardFor(es[k].name, es[k].details.value)
           && d.list.cards[k].title == es[k].name
           && d.options[k + 1] == SelectOption(es[k].name, es[k].name)
  {
    assert es[..|es|] == es;
    CompletePrefixUnique(es, |es|);
    CardsOfShape(es);
    OptionsOfShape(es);
  }

  /** A null value under an entry ends the render there: the list shows the failure
      notice and the selector keeps the options appended for the entries before it. */
  lemma RenderedStopsAtNull(prior: Display, es: seq<Entry>, n: nat)
    requires n < |es| && Complete(es[..n]) && es[n].details.None?
    ensures var d := Rendered(prior, Fetched(es));
      && d.list == LoadFailed
      && |d.options| == n + 1
      && d.options[0] == PlaceholderOption
      && forall k :: 0 <= k < n ==> d.options[k + 1] == SelectOption(es[k].name, es[k].name)
  {
    CompletePrefixUnique(es, n);
    OptionsOfShape(es[..n]);
  }

  /** A failed fetch replaces only the list; the selector keeps what it had. */
  lemma RenderedFetchFailed(prior: Display)
    ensures Rendered(prior, FetchFailed).list == LoadFailed
    ensures Rendered(prior, FetchFailed).options == prior.options
    ensures Rendered(prior, FetchFailed).selected == prior.selected
  {
  }

  /** Every pass leaves cards and options in sync, from any prior display. */
  lemma RenderedInSync(prior: Display, res: FetchResult)
    ensures InSync(Rendered(prior, res))
  {
    if res.Fetched? && CompletePrefix(res.entries) == |res.entries| {
      assert res.entries[..|res.entries|] == res.entries;
      RenderedComplete(prior, res.entries);
    }
  }

  /** Rendering the same result twice gives what rendering it once gives: nothing accumulates. */
  lemma RenderedIdempotent(prior: Display, res: FetchResult)
    ensures Rendered(Rendered(prior, res), res) == Rendered(prior, res)
  {
  }

  /** Once the body parsed, nothing of the prior display survives the pass. */
  lemma RenderedForgetsPrior(p: Display, q: Display, res: FetchResult)
    requires !res.FetchFailed?
    ensures Rendered(p, res) == Rendered(q, res)
  {
  }

  predicate DistinctNames(es: seq<Entry>)
  {
    forall i, j :: 0 <= i < j < |es| ==> es[i].name != es[j].name
  }

  predicate DistinctValues(opts: seq<SelectOption>)
  {
    forall i, j :: 0 <= i < j < |opts| ==> opts[i].value != opts[j].value
  }

  /** With distinct activity names the options added for the activities are
      distinct; they are distinct from the placeholder too unless a name is "". */
  lemma RenderedOptionsDistinct(prior: Display, es: seq<Entry>)
    requires DistinctNames(es)
    ensures var opts := Rendered(prior, Fetched(es)).options;
      && DistinctValues(opts[1..])
      && ((forall k :: 0 <= k < |es| ==> es[k].name != "") ==> DistinctValues(opts))
  {
    var n := CompletePrefix(es);
    OptionsOfShape(es[..n]);
    var opts := Rendered(prior, Fetched(es)).options;
    assert opts[1..] == OptionsOf(es[..n]);
    forall i, j | 0 <= i < j < |opts[1..]|
      ensures opts[1..][i].value != opts[1..][j].value
    {
      assert es[..n][i] == es[i] && es[..n][j] == es[j];
    }
    if forall k :: 0 <= k < |es| ==> es[k].name != "" {
      forall i, j | 0 <= i < j < |opts|
        ensures opts[i].value != opts[j].value
      {
        if i == 0 {
          assert opts[j] == OptionsOf(es[..n])[j - 1];
          assert es[..n][j - 1] == es[j - 1];
        } else {
          assert opts[i] == opts[1..][i - 1] && opts[j] == opts[1..][j - 1];
        }
      }
    }
  }
}
