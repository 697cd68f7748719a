/**
 * The page the script drives (app.js line 1-120): the activities list, the activity
 * dropdown, the signup form and the message area, as fields that its handlers update
 * in place. Requests handed to `fetch` are recorded in `requests`; their replies are
 * the handlers' parameters.
 */
module App {
  import opened Wrappers
  import opened Render
  import opened Signup
  import opened Http
  import Avatar

  /** The values of the form's email input and activity select. */
  datatype Form = Form(email: string, activity: string)

  /** The message `div`: its text and its class list. */
  datatype Message = Message(text: string, classes: set<string>)

  predicate Shown(m: Message)
  {
    "hidden" !in m.classes
  }

  class Page {
    /** Children of `#activities-list`. */
    var list: seq<ListItem>
    /** Options of the `#activity` select. */
    var choices: seq<Choice>
    /** Current values of the signup form's fields. */
    var form: Form
    /** The values `signupForm.reset()` restores. */
    const pristine: Form
    /** The `#message` div. */
    var message: Message
    /** Hides scheduled by `setTimeout` that have not fired yet. */
    var pendingHides: nat
    /** Requests handed to `fetch`, oldest first. */
    var requests: seq<Request>

    /** The page as loaded, before the script's first request. */
    constructor (list0: seq<ListItem>, choices0: seq<Choice>, form0: Form, message0: Message)
      ensures list == list0 && choices == choices0 && form == form0 && pristine == form0
      ensures message == message0 && pendingHides == 0 && requests == []
    {
      list := list0;
      choices := choices0;
      form := form0;
      pristine := form0;
      message := message0;
      pendingHides := 0;
      requests := [];
    }

    /** `fetchActivities` (line 21-76): GET the catalog; clear the list, then append a
        card and fill its roster, and append an option, per entry in `Object.entries` order; on a
        rejection or a throw, the list shows only the failure notice. */
    method Load(reply: CatalogReply)
      modifies this
      ensures requests == old(requests) + [Request(Get, CATALOG_URL)]
      ensures list == ListAfterLoad(reply)
      ensures choices == ChoicesAfterLoad(reply, old(choices))
      ensures form == old(form) && message == old(message) && pendingHides == old(pendingHides)
    {
      requests := requests + [Request(Get, CATALOG_URL)];
      if reply.Unreadable? {
        list := [Paragraph(LOAD_FAILURE)];
        return;
      }
      RenderCatalog(reply.entries);
    }

    /** Line 27-71: clear the list, then per entry in order append its card, fill its
        roster and append its option; stop with the failure notice at an entry whose
        participant list is missing (reading its length throws, line 34 and 72-73). */
    method RenderCatalog(es: seq<Entry>)
      modifies this`list, this`choices
      ensures list == ListAfterLoad(Catalog(es))
      ensures choices == old(choices) + Choices(es[..FirstMissing(es)])
    {
      list := [];
      var i := 0;
      while i < |es|
        invariant 0 <= i <= |es|
        invariant AllHaveParticipants(es[..i])
        invariant list == Cards(es[..i])
        invariant choices == old(choices) + Choices(es[..i])
      {
        var e := es[i];
        if e.participants.None? {
          FirstMissingAt(es, i);
          list := [Paragraph(LOAD_FAILURE)];
          assert list == ListAfterLoad(Catalog(es));
          return;
        }
        AppendCard(e);
        choices := choices + [Choice(e.name, e.name)];
        ProcessedOneMore(es, i);
        i := i + 1;
      }
      assert es[..i] == es;
      FirstMissingAt(es, i);
      assert es[..FirstMissing(es)] == es;
    }

    /** Line 31-64 for one entry: append its card, then fill the card's roster with one
        `li` per participant in order, or with the placeholder `li` when there are none. */
    method AppendCard(e: Entry)
      requires e.participants.Some?
      modifies this`list
      ensures list == old(list) + [CardItem(CardOf(e))]
    {
      var ps := e.participants.value;
      var card := Card(e.name, e.description, e.schedule, e.maxParticipants - |ps|, []);
      list := list + [CardItem(card)];
      var at := |list| - 1;
      if |ps| > 0 {
        AppendRows(at, ps);
        assert card.roster + ParticipantRows(ps) == Roster(ps);
      } else {
        var shown := list[at].card;
        list := list[at := CardItem(shown.(roster := shown.roster + [Placeholder(NO_PARTICIPANTS)]))];
        assert shown.roster + [Placeholder(NO_PARTICIPANTS)] == Roster(ps);
      }
    }

    /** Line 53-58: append one `li` per participant, in order, to the roster of card `at`. */
    method AppendRows(at: nat, ps: seq<string>)
      requires at < |list| && list[at].CardItem?
      modifies this`list
      ensures list == old(list)[at := CardItem(old(list)[at].card.(roster := old(list)[at].card.roster + ParticipantRows(ps)))]
    {
      var card := list[at].card;
      var j := 0;
      assert card.roster + ParticipantRows(ps[..0]) == card.roster;
      while j < |ps|
        invariant 0 <= j <= |ps|
        invariant list == old(list)[at := CardItem(card.(roster := card.roster + ParticipantRows(ps[..j])))]
      {
        var shown := list[at].card;
        var row := Participant(Avatar.Initials(ps[j]), ps[j]);
        list := list[at := CardItem(shown.(roster := shown.roster + [row]))];
        assert ps[..j + 1][..j] == ps[..j];
        assert ParticipantRows(ps[..j + 1]) == ParticipantRows(ps[..j]) + [row];
        assert shown.roster + [row] == card.roster + ParticipantRows(ps[..j + 1]);
        j := j + 1;
      }
      assert ps[..j] == ps;
    }

    /** The submit handler (line 79-116): POST the signup for the form's activity and
        email, then show the outcome; only an accepted reply resets the form, and only a
        reply that was read schedules a hide. The list and dropdown are left alone. */
    method Submit(reply: SignupReply, enc: string -> string)
      modifies this
      ensures requests == old(requests) + [Request(Post, SignupUrl(old(form).activity, old(form).email, enc))]
      ensures message == Message(Classify(reply).text, {Classify(reply).cls})
      ensures form == if Classify(reply).resetsForm then pristine else old(form)
      ensures pendingHides == old(pendingHides) + if Classify(reply).schedulesHide then 1 else 0
      ensures Shown(message)
      ensures list == old(list) && choices == old(choices)
    {
      var email := form.email;
      var activity := form.activity;
      requests := requests + [Request(Post, SignupUrl(activity, email, enc))];
      match reply
      case Answered(ok, body) =>
        if ok {
          message := Message(body.message.GetOr(""), {"success"});
          form := pristine;
        } else {
          message := Message(ErrorText(body.detail), {"error"});
        }
        message := message.(classes := message.classes - {"hidden"});
        pendingHides := pendingHides + 1;
      case Threw =>
        message := Message(SIGNUP_FAILURE, {"error"});
        message := message.(classes := message.classes - {"hidden"});
    }

    /** A scheduled hide fires (line 107-109): it adds "hidden" to whatever message is
        showing by then, which may be a newer one than the hide was scheduled for. */
    method HideTimerFires()
      requires pendingHides > 0
      modifies this
      ensures message == old(message).(classes := old(message).classes + {"hidden"})
      ensures !Shown(message) && message.text == old(message.text)
      ensures pendingHides == old(pendingHides) - 1
      ensures list == old(list) && choices == old(choices) && form == old(form) && requests == old(requests)
    {
      message := message.(classes := message.classes + {"hidden"});
      pendingHides := pendingHides - 1;
    }
  }

  /** The `DOMContentLoaded` handler (line 1-5 and 118-119): take hold of the page's
      elements and load the catalog once. */
  method Boot(list0: seq<ListItem>, choices0: seq<Choice>, form0: Form, message0: Message, catalog: CatalogReply)
    returns (page: Page)
    ensures fresh(page)
    ensures page.list == ListAfterLoad(catalog) && page.choices == ChoicesAfterLoad(catalog, choices0)
    ensures page.requests == [Request(Get, CATALOG_URL)]
    ensures page.form == form0 && page.pristine == form0 && page.message == message0 && page.pendingHides == 0
  {
    page := new Page(list0, choices0, form0, message0);
    page.Load(catalog);
  }
}
