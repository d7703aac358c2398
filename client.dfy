/**
 * The page state of src/static/app.js and the three pieces of code that change
 * it: `fetchActivities`, the signup form's `submit` handler and the activities
 * list's `click` handler. Each async handler is split at its `await` into the
 * part that sends the request and the part that runs once it has settled.
 */
module Client {
  import opened Wrappers
  import opened Roster
  import opened Handlers

  /** Every field of the page state, for saying that a call changed none of them. */
  datatype Snapshot = Snapshot(
    shown: Display,
    formEmail: string,
    msgText: string,
    msgKind: Kind,
    msgHidden: bool,
    pendingHides: nat,
    disabled: map<ButtonId, bool>,
    sent: seq<Request>,
    fetchCount: nat)

  class App {
    /** The activities list. */
    var list: ListView
    /** The options of the activity selector. */
    var options: seq<SelectOption>
    /** The form's email input and the selector's current value. */
    var formEmail: string
    var formActivity: string
    /** The message box: its text, its class, and whether it carries "hidden". */
    var msgText: string
    var msgKind: Kind
    var msgHidden: bool
    /** Hide timers scheduled and not yet fired. */
    var pendingHides: nat
    /** The `disabled` property of the remove controls clicked so far. */
    var disabled: map<ButtonId, bool>
    /** Every signup and unregister request sent, in order. */
    var sent: seq<Request>
    /** How many `fetchActivities` passes have run. */
    var fetchCount: nat

    function Shown(): Display
      reads this
    {
      Display(list, options, formActivity)
    }

    function State(): Snapshot
      reads this
    {
      Snapshot(Shown(), formEmail, msgText, msgKind, msgHidden, pendingHides, disabled, sent, fetchCount)
    }

    predicate Valid()
      reads this
    {
      InSync(Shown())
    }

    /** The page as loaded, followed by the startup `fetchActivities()`. */
    constructor (startup: FetchResult)
      ensures Valid()
      ensures Shown() == Rendered(Display(Loading, [PlaceholderOption], ""), startup)
      ensures formEmail == "" && msgText == "" && msgKind == Unset && msgHidden && pendingHides == 0
      ensures disabled == map[] && sent == [] && fetchCount == 1
    {
      list := Loading;
      options := [PlaceholderOption];
      formEmail, formActivity := "", "";
      msgText, msgKind, msgHidden, pendingHides := "", Unset, true, 0;
      disabled, sent, fetchCount := map[], [], 0;
      new;
      FetchActivities(startup);
    }

    /** One fetch-and-render pass. Clearing the selector's options also resets its value. */
    method FetchActivities(res: FetchResult)
      modifies this`list, this`options, this`formActivity, this`fetchCount
      ensures Valid()
      ensures Shown() == Rendered(old(Shown()), res)
      ensures fetchCount == old(fetchCount) + 1
    {
      fetchCount := fetchCount + 1;
      match res {
        case FetchFailed =>
          list := LoadFailed;
        case NotAnObject =>
          list := Cards([]);
          options, formActivity := [PlaceholderOption], "";
          list := LoadFailed;
        case Fetched(es) =>
          list := Cards([]);
          options, formActivity := [PlaceholderOption], "";
          RenderEntries(es);
      }
      RenderedInSync(old(Shown()), res);
    }

    /** The `forEach` over the entries of a parsed body, on a cleared list and selector. */
    method RenderEntries(es: seq<Entry>)
      requires list == Cards([]) && options == [PlaceholderOption]
      modifies this`list, this`options
      ensures var n := CompletePrefix(es);
        && list == (if n == |es| then Cards(CardsOf(es)) else LoadFailed)
        && options == [PlaceholderOption] + OptionsOf(es[..n])
    {
      var i := 0;
      while i < |es| && es[i].details.Some?
        invariant 0 <= i <= |es|
        invariant Complete(es[..i])
        invariant list == Cards(CardsOf(es[..i]))
        invariant options == [PlaceholderOption] + OptionsOf(es[..i])
      {
        var name, d := es[i].name, es[i].details.value;
        var rows := BuildRows(name, Participants(d));
        var card := Card(name, d.description, d.schedule, SpotsLeft(d), rows);
        RenderStep(es, i);
        list := Cards(list.cards + [card]);
        options := options + [SelectOption(name, name)];
        i := i + 1;
      }
      CompletePrefixUnique(es, i);
      if i < |es| {
        list := LoadFailed;
      } else {
        assert es[..i] == es;
      }
    }

    /** The part of the `submit` handler before its `await`: send the form's values. */
    method BeginSignup() returns (req: Request)
      modifies this`sent
      ensures req == Request(Post, formActivity, formEmail)
      ensures sent == old(sent) + [req]
    {
      req := Request(Post, formActivity, formEmail);
      sent := sent + [req];
    }

    /** The rest of the `submit` handler, once the request settled; `refetch` is what
        the refresh delivers when there is one. */
    method SettleSignup(outcome: Outcome, refetch: FetchResult)
      modifies this`msgText, this`msgKind, this`msgHidden, this`pendingHides
      modifies this`formEmail, this`list, this`options, this`formActivity, this`fetchCount
      ensures !msgHidden
      ensures outcome.Ok? ==>
        && msgText == outcome.message && msgKind == Success
        && formEmail == ""
        && fetchCount == old(fetchCount) + 1
        && Shown() == Rendered(old(Shown()).(selected := ""), refetch)
        && Valid()
      ensures !outcome.Ok? ==>
        && formEmail == old(formEmail) && fetchCount == old(fetchCount) && Shown() == old(Shown())
        && msgKind == Error
      ensures outcome.HttpErr? ==> msgText == ErrorText(outcome.detail, SignupFallback)
      ensures outcome.Thrown? ==> msgText == SignupFailedText
      ensures pendingHides == if outcome.Thrown? then old(pendingHides) else old(pendingHides) + 1
    {
      match outcome {
        case Ok(message) =>
          msgText := message;
          msgKind, msgHidden := Success, false;  // assigning the class drops "hidden"
          formEmail, formActivity := "", "";
          FetchActivities(refetch);
          msgHidden := false;
          pendingHides := pendingHides + 1;
        case HttpErr(detail) =>
          msgText := ErrorText(detail, SignupFallback);
          msgKind, msgHidden := Error, false;
          msgHidden := false;
          pendingHides := pendingHides + 1;
        case Thrown =>
          msgText := SignupFailedText;
          msgKind, msgHidden := Error, false;
          msgHidden := false;
      }
    }

    /** The whole `submit` handler. */
    method OnSignup(outcome: Outcome, refetch: FetchResult) returns (req: Request)
      modifies this`sent, this`msgText, this`msgKind, this`msgHidden, this`pendingHides
      modifies this`formEmail, this`list, this`options, this`formActivity, this`fetchCount
      ensures req == Request(Post, old(formActivity), old(formEmail))
      ensures sent == old(sent) + [req]
      ensures !msgHidden
      ensures outcome.Ok? ==>
        && msgText == outcome.message && msgKind == Success
        && formEmail == ""
        && fetchCount == old(fetchCount) + 1
        && Shown() == Rendered(old(Shown()).(selected := ""), refetch)
        && Valid()
      ensures !outcome.Ok? ==>
        && formEmail == old(formEmail) && fetchCount == old(fetchCount) && Shown() == old(Shown())
        && msgKind == Error
      ensures outcome.HttpErr? ==> msgText == ErrorText(outcome.detail, SignupFallback)
      ensures outcome.Thrown? ==> msgText == SignupFailedText
      ensures pendingHides == if outcome.Thrown? then old(pendingHides) else old(pendingHides) + 1
    {
      req := BeginSignup();
      SettleSignup(outcome, refetch);
    }

    /** The part of the `click` handler before its `await`: the guard, then the lock,
        then the request. */
    method BeginUnregister(target: ClickTarget) returns (req: Option<Request>)
      modifies this`disabled, this`sent
      ensures Tags(target).None? ==> req.None? && disabled == old(disabled) && sent == old(sent)
      ensures Tags(target).Some? ==>
        && req == Some(Request(Delete, Tags(target).value.0, Tags(target).value.1))
        && target.button in disabled && disabled[target.button]
        && disabled == old(disabled)[target.button := true]
        && sent == old(sent) + [req.value]
    {
      match Tags(target) {
        case None =>
          return None;
        case Some((activity, email)) =>
          disabled := disabled[target.button := true];
          req := Some(Request(Delete, activity, email));
          sent := sent + [req.value];
      }
    }

    /** The rest of the `click` handler, once the request settled; `finally` releases the lock. */
    method SettleUnregister(button: ButtonId, outcome: Outcome, refetch: FetchResult)
      modifies this`msgText, this`msgKind, this`msgHidden, this`pendingHides
      modifies this`list, this`options, this`formActivity, this`fetchCount, this`disabled
      ensures disabled == old(disabled)[button := false]
      ensures !msgHidden
      ensures outcome.Ok? ==>
        && msgText == outcome.message && msgKind == Success
        && fetchCount == old(fetchCount) + 1
        && Shown() == Rendered(old(Shown()), refetch)
        && Valid()
      ensures !outcome.Ok? ==>
        && fetchCount == old(fetchCount) && Shown() == old(Shown())
        && msgKind == Error
      ensures outcome.HttpErr? ==> msgText == ErrorText(outcome.detail, UnregisterFallback)
      ensures outcome.Thrown? ==> msgText == UnregisterFailedText
      ensures pendingHides == if outcome.Thrown? then old(pendingHides) else old(pendingHides) + 1
    {
      match outcome {
        case Ok(message) =>
          msgText := message;
          msgKind, msgHidden := Success, false;
          FetchActivities(refetch);
          msgHidden := false;
          pendingHides := pendingHides + 1;
        case HttpErr(detail) =>
          msgText := ErrorText(detail, UnregisterFallback);
          msgKind, msgHidden := Error, false;
          msgHidden := false;
          pendingHides := pendingHides + 1;
        case Thrown =>
          msgText := UnregisterFailedText;
          msgKind, msgHidden := Error, false;
          msgHidden := false;
      }
      disabled := disabled[button := false];
    }

    /** The whole `click` handler: an ignored click changes nothing; otherwise the
        control ends enabled again on every outcome. */
    method OnUnregisterClick(target: ClickTarget, outcome: Outcome, refetch: FetchResult) returns (req: Option<Request>)
      modifies this`msgText, this`msgKind, this`msgHidden, this`pendingHides
      modifies this`list, this`options, this`formActivity, this`fetchCount, this`disabled, this`sent
      ensures Tags(target).None? ==> req.None? && State() == old(State())
      ensures Tags(target).Some? ==>
        && req == Some(Request(Delete, Tags(target).value.0, Tags(target).value.1))
        && sent == old(sent) + [req.value]
        && disabled == old(disabled)[target.button := false]
        && !msgHidden
        && pendingHides == (if outcome.Thrown? then old(pendingHides) else old(pendingHides) + 1)
      ensures Tags(target).Some? && outcome.Ok? ==>
        && msgText == outcome.message && msgKind == Success
        && fetchCount == old(fetchCount) + 1
        && Shown() == Rendered(old(Shown()), refetch)
      ensures Tags(target).Some? && !outcome.Ok? ==>
        && fetchCount == old(fetchCount) && Shown() == old(Shown()) && msgKind == Error
        && msgText == (if outcome.Thrown? then UnregisterFailedText else ErrorText(outcome.detail, UnregisterFallback))
    {
      req := BeginUnregister(target);
      if req.Some? {
        SettleUnregister(target.button, outcome, refetch);
      }
    }

    /** One scheduled 5000 ms timer firing: it adds "hidden" whatever message is shown. */
    method HideTimerFires()
      requires pendingHides > 0
      modifies this`msgHidden, this`pendingHides
      ensures msgHidden
      ensures pendingHides == old(pendingHides) - 1
    {
      msgHidden := true;
      pendingHides := pendingHides - 1;
    }
  }

  /** Two signups in quick succession: the first message's timer hides the second
      message while the second's own timer is still pending. */
  method EarlierTimerHidesLaterMessage() returns (hidden: bool, text: string, pending: nat)
    ensures hidden && text == "Student already signed up for this activity" && pending == 1
  {
    var app := new App(FetchFailed);
    app.formEmail := "newstudent@mergington.edu";
    var _ := app.OnSignup(Ok("Signed up newstudent@mergington.edu for Chess Club"), FetchFailed);
    app.formEmail := "newstudent@mergington.edu";
    var _ := app.OnSignup(HttpErr(Some("Student already signed up for this activity")), FetchFailed);
    app.HideTimerFires();
    hidden, text, pending := app.msgHidden, app.msgText, app.pendingHides;
  }
}
