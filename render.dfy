/**
 * The catalog-to-view projection of `fetchActivities` (app.js line 21-76): each catalog
 * entry becomes an activity card with a spots-left figure and a participant roster, and
 * contributes one option to the activity dropdown, in `Object.entries` order.
 */
module Render {
  import opened Wrappers
  import Avatar

  /** One `[name, details]` pair of `Object.entries(activities)`. `participants` is
      absent when the reply has no such field; reading its length then throws. */
  datatype Entry = Entry(
    name: string,
    description: string,
    schedule: string,
    maxParticipants: int,
    participants: Option<seq<string>>)

  /** What `fetch("/activities")` followed by `response.json()` delivers: the catalog's
      entries in `Object.entries` order, or a rejection of either promise. */
  datatype CatalogReply = Catalog(entries: seq<Entry>) | Unreadable

  /** An `li` of a roster: a participant with avatar initials, or the placeholder. */
  datatype Row = Participant(initials: string, email: string) | Placeholder(text: string)

  /** An activity card as rendered into the list container. */
  datatype Card = Card(name: string, description: string, schedule: string, spotsLeft: int, roster: seq<Row>)

  /** An `option` of the activity dropdown. */
  datatype Choice = Choice(value: string, text: string)

  /** A child of the activities list: a card, or a bare paragraph (the page's loading
      text, or the load-failure notice). */
  datatype ListItem = CardItem(card: Card) | Paragraph(text: string)

  const NO_PARTICIPANTS := "No participants yet"
  const LOAD_FAILURE := "Failed to load activities. Please try again later."

  /** The row appended for participant `p` (line 54-57). */
  function ParticipantRow(p: string): (row: Row)
    ensures row.Participant? && row.email == p
    ensures 1 <= |row.initials| <= 2
  {
    Participant(Avatar.Initials(p), p)
  }

  /** The rows appended, one by one, by `participants.forEach` (line 53-58). */
  function ParticipantRows(ps: seq<string>): (rows: seq<Row>)
    ensures |rows| == |ps|
  {
    if ps == [] then [] else ParticipantRows(ps[..|ps| - 1]) + [ParticipantRow(ps[|ps| - 1])]
  }

  /** The roster of a card: the participant rows, or the placeholder alone (line 52-64). */
  function Roster(ps: seq<string>): (rows: seq<Row>)
    ensures |rows| >= 1
    ensures |ps| == 0 ==> rows == [Placeholder(NO_PARTICIPANTS)]
    ensures |ps| > 0 ==> |rows| == |ps| && forall row :: row in rows ==> row.Participant?
  {
    ParticipantRowsAt(ps);
    if |ps| > 0 then ParticipantRows(ps) else [Placeholder(NO_PARTICIPANTS)]
  }

  /** The card for an entry whose participant list is present (line 31-46). */
  function CardOf(e: Entry): (card: Card)
    requires e.participants.Some?
    ensures card.name == e.name
    ensures card.spotsLeft + |e.participants.value| == e.maxParticipants
    ensures |card.roster| >= 1
  {
    var ps := e.participants.value;
    Card(e.name, e.description, e.schedule, e.maxParticipants - |ps|, Roster(ps))
  }

  /** The dropdown option for an entry (line 67-70). */
  function ChoiceOf(e: Entry): (choice: Choice)
    ensures choice.value == choice.text == e.name
  {
    Choice(e.name, e.name)
  }

  predicate AllHaveParticipants(es: seq<Entry>)
  {
    forall i :: 0 <= i < |es| ==> es[i].participants.Some?
  }

  /** The cards appended, in order, for entries that all carry a participant list. */
  function Cards(es: seq<Entry>): (items: seq<ListItem>)
    requires AllHaveParticipants(es)
    ensures |items| == |es|
  {
    if es == [] then [] else Cards(es[..|es| - 1]) + [CardItem(CardOf(es[|es| - 1]))]
  }

  /** The options appended, in order, for `es`. */
  function Choices(es: seq<Entry>): (choices: seq<Choice>)
    ensures |choices| == |es|
  {
    if es == [] then [] else Choices(es[..|es| - 1]) + [ChoiceOf(es[|es| - 1])]
  }

  /** The index of the first entry without a participant list (where the loop throws),
      or `|es|` when there is none. */
  function FirstMissing(es: seq<Entry>): (k: nat)
    ensures k <= |es|
    ensures forall i :: 0 <= i < k ==> es[i].participants.Some?
    ensures k < |es| ==> es[k].participants.None?
  {
    if es == [] || es[0].participants.None? then 0 else 1 + FirstMissing(es[1..])
  }

  /** The list container after `fetchActivities` settles: the cards of a well-formed
      catalog, or the failure notice alone. It does not depend on what the list held
      before: the list is cleared (line 27) or overwritten (line 73). */
  function ListAfterLoad(reply: CatalogReply): (items: seq<ListItem>)
    ensures Paragraph(LOAD_FAILURE) in items <==> reply.Unreadable? || FirstMissing(reply.entries) < |reply.entries|
    ensures Paragraph(LOAD_FAILURE) in items ==> items == [Paragraph(LOAD_FAILURE)]
    ensures reply.Catalog? && Paragraph(LOAD_FAILURE) !in items ==> |items| == |reply.entries|
  {
    match reply
    case Unreadable => [Paragraph(LOAD_FAILURE)]
    case Catalog(es) =>
      if FirstMissing(es) == |es| then CardsAt(es); Cards(es) else [Paragraph(LOAD_FAILURE)]
  }

  /** The dropdown after `fetchActivities` settles: it is never cleared, and keeps the
      options appended before a throw. */
  function ChoicesAfterLoad(reply: CatalogReply, before: seq<Choice>): (choices: seq<Choice>)
    ensures before <= choices
    ensures reply.Unreadable? ==> choices == before
    ensures reply.Catalog? ==> |choices| == |before| + FirstMissing(reply.entries)
  {
    match reply
    case Unreadable => before
    case Catalog(es) => before + Choices(es[..FirstMissing(es)])
  }

  // ---------------------------------------------------------------------------
  // Properties of the projection

  /** One more entry processed: one more card and one more option at the end. */
  lemma ProcessedOneMore(es: seq<Entry>, i: nat)
    requires i < |es| && AllHaveParticipants(es[..i]) && es[i].participants.Some?
    ensures AllHaveParticipants(es[..i + 1])
    ensures Cards(es[..i + 1]) == Cards(es[..i]) + [CardItem(CardOf(es[i]))]
    ensures Choices(es[..i + 1]) == Choices(es[..i]) + [ChoiceOf(es[i])]
  {
    assert es[..i + 1][..i] == es[..i];
  }

  /** The loop stops at the first entry without a participant list. */
  lemma FirstMissingAt(es: seq<Entry>, i: nat)
    requires i <= |es| && AllHaveParticipants(es[..i])
    requires i < |es| ==> es[i].participants.None?
    ensures FirstMissing(es) == i
  {
    forall k | 0 <= k < i
      ensures es[k].participants.Some?
    {
      assert es[..i][k] == es[k];
    }
  }

  /** The participant rows follow the participant list one for one, in order. */
  lemma {:induction false} ParticipantRowsAt(ps: seq<string>)
    ensures |ParticipantRows(ps)| == |ps|
    ensures forall i {:trigger ParticipantRows(ps)[i]} :: 0 <= i < |ps| ==> ParticipantRows(ps)[i] == ParticipantRow(ps[i])
  {
    if ps != [] {
      var init := ps[..|ps| - 1];
      ParticipantRowsAt(init);
      assert ParticipantRows(ps) == ParticipantRows(init) + [ParticipantRow(ps[|ps| - 1])];
      forall i | 0 <= i < |ps|
        ensures ParticipantRows(ps)[i] == ParticipantRow(ps[i])
      {
        if i < |init| {
          assert init[i] == ps[i];
        }
      }
    }
  }

  /** A non-empty participant list: one participant row per email, in order, with its
      initials, and no placeholder. */
  lemma RosterOfParticipants(ps: seq<string>)
    requires |ps| > 0
    ensures |Roster(ps)| == |ps|
    ensures forall i :: 0 <= i < |ps| ==>
      Roster(ps)[i].Participant? && Roster(ps)[i].email == ps[i] && Roster(ps)[i].initials == Avatar.Initials(ps[i])
    ensures forall row :: row in Roster(ps) ==> !row.Placeholder?
  {
    ParticipantRowsAt(ps);
  }

  /** An empty participant list: exactly the one placeholder row. */
  lemma RosterOfNobody()
    ensures Roster([]) == [Placeholder("No participants yet")]
  {
  }

  /** The placeholder shows exactly when the participant list is empty, and a roster is never empty. */
  lemma PlaceholderIffEmpty(ps: seq<string>)
    ensures |Roster(ps)| >= 1
    ensures Placeholder(NO_PARTICIPANTS) in Roster(ps) <==> |ps| == 0
  {
    if |ps| > 0 {
      RosterOfParticipants(ps);
    }
  }

  /** The emails a roster shows, in order. */
  function Emails(rows: seq<Row>): seq<string>
  {
    if rows == [] then []
    else
      var last := rows[|rows| - 1];
      Emails(rows[..|rows| - 1]) + if last.Participant? then [last.email] else []
  }

  /** Reading the emails back off a roster gives exactly the participant list. */
  lemma {:induction false} RosterEmails(ps: seq<string>)
    ensures Emails(Roster(ps)) == ps
  {
    if |ps| > 0 {
      ParticipantRowsEmails(ps);
    }
  }

  lemma {:induction false} ParticipantRowsEmails(ps: seq<string>)
    ensures Emails(ParticipantRows(ps)) == ps
  {
    if ps != [] {
      var init, p := ps[..|ps| - 1], ps[|ps| - 1];
      var rows := ParticipantRows(ps);
      assert rows == ParticipantRows(init) + [ParticipantRow(p)];
      assert rows[..|rows| - 1] == ParticipantRows(init);
      calc {
        Emails(rows);
        Emails(ParticipantRows(init)) + [p];
        { ParticipantRowsEmails(init); }
        init + [p];
        ps;
      }
    }
  }

  /** Cards follow the catalog one for one and in order. */
  lemma {:induction false} CardsAt(es: seq<Entry>)
    requires AllHaveParticipants(es)
    ensures |Cards(es)| == |es|
    ensures forall i {:trigger Cards(es)[i]} :: 0 <= i < |es| ==> Cards(es)[i] == CardItem(CardOf(es[i]))
  {
    if es != [] {
      var init := es[..|es| - 1];
      assert AllHaveParticipants(init) by {
        forall i | 0 <= i < |init|
          ensures init[i].participants.Some?
        {
          assert init[i] == es[i];
        }
      }
      CardsAt(init);
      assert Cards(es) == Cards(init) + [CardItem(CardOf(es[|es| - 1]))];
      forall i | 0 <= i < |es|
        ensures Cards(es)[i] == CardItem(CardOf(es[i]))
      {
        if i < |init| {
          assert init[i] == es[i];
        }
      }
    }
  }

  /** Options follow the catalog one for one and in order, each with value and text the activity name. */
  lemma {:induction false} ChoicesAt(es: seq<Entry>)
    ensures |Choices(es)| == |es|
    ensures forall i :: 0 <= i < |es| ==> Choices(es)[i].value == es[i].name && Choices(es)[i].text == es[i].name
  {
    if es != [] {
      ChoicesAt(es[..|es| - 1]);
    }
  }

  /** Spots left is the capacity minus the participant count, with no clamp: it is
      negative exactly when the list is over capacity. */
  lemma SpotsLeftUnclamped(e: Entry)
    requires e.participants.Some?
    ensures CardOf(e).spotsLeft == e.maxParticipants - |e.participants.value|
    ensures CardOf(e).spotsLeft < 0 <==> |e.participants.value| > e.maxParticipants
  {
  }

  /** A well-formed catalog: the list shows exactly one card per entry, in `Object.entries` order,
      with the entry's name, spots left and roster; the dropdown gains one option per
      entry, in the same order. */
  lemma LoadedViewFollowsCatalog(es: seq<Entry>, before: seq<Choice>)
    requires AllHaveParticipants(es)
    ensures var list := ListAfterLoad(Catalog(es));
      && |list| == |es|
      && forall i :: 0 <= i < |es| ==>
        && list[i].CardItem?
        && list[i].card.name == es[i].name
        && list[i].card.spotsLeft == es[i].maxParticipants - |es[i].participants.value|
        && list[i].card.roster == Roster(es[i].participants.value)
    ensures var choices := ChoicesAfterLoad(Catalog(es), before);
      && |choices| == |before| + |es|
      && choices[..|before|] == before
      && forall i :: 0 <= i < |es| ==> choices[|before| + i] == Choice(es[i].name, es[i].name)
  {
    var k := FirstMissing(es);
    assert k == |es|;
    assert es[..k] == es;
    CardsAt(es);
    ChoicesAt(es);
  }

  /** An unreadable reply, or an entry without a participant list, leaves only the
      failure notice in the list; the dropdown keeps the options of the entries
      processed before the throw. */
  lemma FailedLoadShowsNotice(reply: CatalogReply, before: seq<Choice>)
    requires reply.Unreadable? || FirstMissing(reply.entries) < |reply.entries|
    ensures ListAfterLoad(reply) == [Paragraph("Failed to load activities. Please try again later.")]
    ensures reply.Unreadable? ==> ChoicesAfterLoad(reply, before) == before
    ensures reply.Catalog? ==>
      var k := FirstMissing(reply.entries);
      && reply.entries[k].participants.None?
      && |ChoicesAfterLoad(reply, before)| == |before| + k
    ensures reply.Catalog? ==>
      var choices, k := ChoicesAfterLoad(reply, before), FirstMissing(reply.entries);
      && choices[..|before|] == before
      && forall i :: 0 <= i < k ==> choices[|before| + i] == Choice(reply.entries[i].name, reply.entries[i].name)
  {
    if reply.Catalog? {
      ChoicesAt(reply.entries[..FirstMissing(reply.entries)]);
    }
  }

  /** The worked example: one club of ten seats with one participant shows 9 spots left
      and a single row for that participant, initials "A", no placeholder. */
  lemma ChessClubExample()
    ensures var e := Entry("Chess Club", "...", "...", 10, Some(["a@x.com"]));
      ListAfterLoad(Catalog([e])) == [CardItem(Card("Chess Club", "...", "...", 9, [Participant("A", "a@x.com")]))]
  {
    var e := Entry("Chess Club", "...", "...", 10, Some(["a@x.com"]));
    Avatar.InitialsExamples();
    ParticipantRowsAt(["a@x.com"]);
    assert Roster(["a@x.com"]) == [Participant("A", "a@x.com")];
    assert CardOf(e) == Card("Chess Club", "...", "...", 9, [Participant("A", "a@x.com")]);
    assert FirstMissing([e]) == 1;
    CardsAt([e]);
  }
}
