/** The activity list and the activity select of the page, as a pure
    projection of the directory the service returns. A refresh clears both
    areas, then walks the directory in order: each entry adds one card to the
    list and one option to the select. Reading the `length` of an absent
    `participants` field throws, which sends the refresh to its catch branch:
    the list shows a failure notice, and the select keeps what the walk had
    added up to then. DOM elements are abstract view values. */
module Board {
  import opened Wrappers
  import Escape
  import opened Requests

  // -----------------------------------------------------------------------
  // The directory as the service sends it.

  /** The `participants` field of an activity as received. */
  datatype RawParticipants =
    | Array(emails: seq<string>)
      /** A value that is not an array. `length` is its `length` property
          when subtracting it from a number gives an integer, and None when it
          gives NaN. */
    | NonArray(length: Option<int>)
      /** Absent or null: reading its `length` throws. */
    | Nullish

  datatype Activity = Activity(
    description: string,
    schedule: string,
    maxParticipants: int,
    participants: RawParticipants)

  /** One `[name, details]` pair of the directory, in the order received. */
  datatype Entry = Entry(name: string, details: Activity)

  /** The names of a JSON object are distinct. */
  predicate DistinctNames(dir: seq<Entry>) {
    forall i, j | 0 <= i < j < |dir| :: dir[i].name != dir[j].name
  }

  // -----------------------------------------------------------------------
  // The rendered view.

  /** The number a card shows as spots left: an integer or NaN. */
  datatype Spots = Spots(n: int) | NaN

  /** One participant line: the participant's text and its delete control. */
  datatype Item = Item(text: string, control: ClickTarget)

  /** The participants block of a card: a list, or the placeholder notice. */
  datatype ParticipantsBlock = Roster(items: seq<Item>) | NoneYet(notice: string)

  const NoParticipantsNotice: string := "No participants yet"

  /** One activity card. `heading`, `description` and `schedule` are the
      markup text the card's HTML is built from. */
  datatype Card = Card(
    heading: string,
    description: string,
    schedule: string,
    spotsLeft: Spots,
    participants: ParticipantsBlock)

  /** One option of the activity select. */
  datatype Choice = Choice(value: string, text: string)

  const SelectPlaceholder: Choice := Choice("", "-- Select an activity --")

  /** The activity list area: the cards, or the failure notice. */
  datatype ListArea = Cards(cards: seq<Card>) | LoadFailed

  datatype Page = Page(list: ListArea, select: seq<Choice>)

  // -----------------------------------------------------------------------
  // Rendering.

  /** Reading `participants.length` does not throw. */
  predicate Readable(e: Entry) {
    !e.details.participants.Nullish?
  }

  /** `max_participants - participants.length`, read from the raw field;
      None when reading the length throws. */
  function SpotsLeft(a: Activity): Option<Spots> {
    match a.participants
    case Array(emails) => Some(Spots(a.maxParticipants - |emails|))
    case NonArray(length) => Some(if length.Some? then Spots(a.maxParticipants - length.value) else NaN)
    case Nullish => None
  }

  /** The participants list after the array check: anything that is not an
      array counts as no participants. */
  function Guarded(p: RawParticipants): seq<string> {
    if p.Array? then p.emails else []
  }

  /** The participant lines of the card for `name`, one per participant in
      order, each with a delete control bound to the activity and the
      participant. */
  function Items(name: string, emails: seq<string>): (r: seq<Item>)
    ensures |r| == |emails|
    ensures forall i | 0 <= i < |r| :: r[i].text == emails[i] && r[i].control == DeleteControl(name, emails[i])
    decreases |emails|
  {
    if |emails| == 0 then []
    else [Item(emails[0], DeleteControl(name, emails[0]))] + Items(name, emails[1..])
  }

  /** The participants block: the list when there is at least one
      participant, the placeholder notice and no list otherwise. */
  function ParticipantsBlockFor(name: string, emails: seq<string>): (b: ParticipantsBlock)
    ensures b.NoneYet? <==> |emails| == 0
    ensures b.NoneYet? ==> b.notice == NoParticipantsNotice
    ensures b.Roster? ==> |b.items| == |emails|
    ensures b.Roster? ==> forall i | 0 <= i < |emails| ::
              b.items[i].text == emails[i] && b.items[i].control == DeleteControl(name, emails[i])
  {
    if |emails| > 0 then Roster(Items(name, emails)) else NoneYet(NoParticipantsNotice)
  }

  /** The card for one entry, or None when reading its participants' length
      throws. */
  function RenderCard(e: Entry): (r: Option<Card>)
    ensures r.Some? <==> Readable(e)
  {
    match SpotsLeft(e.details)
    case None => None
    case Some(spots) =>
      Some(Card(Escape.EscapeHtml(e.name),
                Escape.EscapeHtml(e.details.description),
                Escape.EscapeHtml(e.details.schedule),
                spots,
                ParticipantsBlockFor(e.name, Guarded(e.details.participants))))
  }

  /** The select option for an activity: its name as both value and label. */
  function ChoiceFor(name: string): Choice {
    Choice(name, name)
  }

  /** No entry's participants field throws when its length is read. */
  predicate AllReadable(dir: seq<Entry>) {
    forall k | 0 <= k < |dir| :: Readable(dir[k])
  }

  /** What the walk over the directory has produced when it ends: the cards
      and options added, and whether an entry threw. */
  datatype Pass = Pass(cards: seq<Card>, choices: seq<Choice>, threw: bool)

  /** The walk over the directory: `render` builds the card of one entry, or
      gives None when it throws. Each entry adds its card and then its option,
      in order; the walk stops at the first entry that throws. */
  function Walk(dir: seq<Entry>, render: Entry -> Option<Card>): Pass
    decreases |dir|
  {
    if |dir| == 0 then Pass([], [], false)
    else match render(dir[0])
      case None => Pass([], [], true)
      case Some(card) =>
        var rest := Walk(dir[1..], render);
        Pass([card] + rest.cards, [ChoiceFor(dir[0].name)] + rest.choices, rest.threw)
  }

  /** The walk adds one card and one option per entry, in order; it throws
      exactly when some entry throws, and then stops at the first such
      entry. */
  lemma {:induction false} WalkInOrder(dir: seq<Entry>, render: Entry -> Option<Card>)
    ensures var p := Walk(dir, render);
            && |p.cards| == |p.choices| <= |dir|
            && (p.threw <==> !AllRender(dir, render))
            && (p.threw ==> |p.cards| < |dir| && render(dir[|p.cards|]).None?)
            && (!p.threw ==> |p.cards| == |dir|)
            && (forall k | 0 <= k < |p.cards| :: render(dir[k]) == Some(p.cards[k]))
            && (forall k | 0 <= k < |p.choices| :: p.choices[k] == ChoiceFor(dir[k].name))
    decreases |dir|
  {
    if |dir| != 0 && render(dir[0]).Some? {
      var tail := dir[1..];
      WalkInOrder(tail, render);
      var rest := Walk(tail, render);
      var p := Walk(dir, render);
      assert p.cards == [render(dir[0]).value] + rest.cards;
      assert p.choices == [ChoiceFor(dir[0].name)] + rest.choices;
      forall k | 1 <= k < |p.cards|
        ensures render(dir[k]) == Some(p.cards[k])
      {
        assert dir[k] == tail[k - 1];
        assert p.cards[k] == rest.cards[k - 1];
      }
      forall k | 1 <= k < |p.choices|
        ensures p.choices[k] == ChoiceFor(dir[k].name)
      {
        assert dir[k] == tail[k - 1];
        assert p.choices[k] == rest.choices[k - 1];
      }
      if p.threw {
        assert dir[|p.cards|] == tail[|rest.cards|];
        var k :| 0 <= k < |tail| && render(tail[k]).None?;
        assert dir[k + 1] == tail[k];
      } else {
        forall k | 0 <= k < |dir| ensures render(dir[k]).Some? {
          if k > 0 {
            assert dir[k] == tail[k - 1];
          }
        }
      }
    }
  }

  /** Every entry of `dir` renders without throwing. */
  predicate AllRender(dir: seq<Entry>, render: Entry -> Option<Card>) {
    forall k | 0 <= k < |dir| :: render(dir[k]).Some?
  }

  lemma AllReadableIffAllRender(dir: seq<Entry>)
    ensures AllReadable(dir) <==> AllRender(dir, RenderCard)
  {
    assert forall k | 0 <= k < |dir| :: Readable(dir[k]) <==> RenderCard(dir[k]).Some?;
  }

  /** Drawing a fetched directory (the `try` block after the JSON parse):
      the list is cleared, the select is reset to its placeholder, and the
      walk adds a card and an option per entry. If an entry throws, the catch
      branch replaces the list with the failure notice, and the select keeps
      the placeholder and the options added before it. */
  function Render(dir: seq<Entry>): (page: Page)
    ensures 1 <= |page.select| <= 1 + |dir|
    ensures page.select[0] == SelectPlaceholder
    ensures forall k | 1 <= k < |page.select| :: page.select[k] == ChoiceFor(dir[k - 1].name)
    ensures page.list.Cards? <==> AllReadable(dir)
    ensures page.list.Cards? ==>
              && |page.list.cards| == |dir|
              && |page.select| == 1 + |dir|
              && forall k | 0 <= k < |dir| :: RenderCard(dir[k]) == Some(page.list.cards[k])
  {
    var pass := Walk(dir, RenderCard);
    WalkInOrder(dir, RenderCard);
    AllReadableIffAllRender(dir);
    var select := [SelectPlaceholder] + pass.choices;
    assert forall k | 1 <= k < |select| :: select[k] == pass.choices[k - 1];
    Page(if pass.threw then LoadFailed else Cards(pass.cards), select)
  }

  /** When an entry throws, the select keeps the placeholder and exactly the
      options of the entries before the first one that throws. */
  lemma RenderStopsAtFirstThrow(dir: seq<Entry>)
    requires !AllReadable(dir)
    ensures var page := Render(dir);
            && page.list.LoadFailed?
            && |page.select| <= |dir|
            && !Readable(dir[|page.select| - 1])
            && forall k | 0 <= k < |page.select| - 1 :: Readable(dir[k])
  {
    WalkInOrder(dir, RenderCard);
    AllReadableIffAllRender(dir);
    var pass := Walk(dir, RenderCard);
    assert |Render(dir).select| == 1 + |pass.cards|;
    assert RenderCard(dir[|pass.cards|]).None?;
    forall k | 0 <= k < |pass.cards| ensures Readable(dir[k]) {
      assert RenderCard(dir[k]).Some?;
    }
  }

  /** One refresh of the page. `fetched` is the directory read from the
      service, or None when the fetch or the JSON parse failed; in that case
      the list shows the failure notice and the select is left as it was. */
  function Refresh(fetched: Option<seq<Entry>>, previous: seq<Choice>): (page: Page)
    ensures page.list.LoadFailed? <==> fetched.None? || !AllReadable(fetched.value)
    ensures fetched.None? ==> page.select == previous
    ensures fetched.Some? ==> 1 <= |page.select| && page.select[0] == SelectPlaceholder
    ensures page.list.Cards? ==> |page.list.cards| == |fetched.value| && |page.select| == 1 + |fetched.value|
  {
    match fetched
    case None => Page(LoadFailed, previous)
    case Some(dir) => Render(dir)
  }

  // -----------------------------------------------------------------------
  // Properties of the rendered page.

  /** The text fields of a card are the escaped name, description and
      schedule: in escaped form, and decoding them gives back the service's
      text. */
  lemma CardTextIsLiteral(e: Entry)
    requires Readable(e)
    ensures RenderCard(e).Some?
    ensures var c := RenderCard(e).value;
            && Escape.IsEscaped(c.heading) && Escape.Unescape(c.heading) == e.name
            && Escape.IsEscaped(c.description) && Escape.Unescape(c.description) == e.details.description
            && Escape.IsEscaped(c.schedule) && Escape.Unescape(c.schedule) == e.details.schedule
  {
    Escape.EscapeHtmlIsEscaped(e.name);
    Escape.EscapeHtmlIsEscaped(e.details.description);
    Escape.EscapeHtmlIsEscaped(e.details.schedule);
    Escape.UnescapeEscapeHtml(e.name);
    Escape.UnescapeEscapeHtml(e.details.description);
    Escape.UnescapeEscapeHtml(e.details.schedule);
  }

  /** Spots left is `max_participants` minus the length of the raw field,
      unclamped; a non-array field still counts its own `length` even though
      the card then lists no participants. */
  lemma SpotsLeftFromRawField(e: Entry)
    requires Readable(e)
    ensures RenderCard(e).Some?
    ensures var c := RenderCard(e).value;
            && (e.details.participants.Array? ==>
                  c.spotsLeft == Spots(e.details.maxParticipants - |e.details.participants.emails|))
            && (e.details.participants.NonArray? ==> c.participants.NoneYet?)
            && (e.details.participants.NonArray? && e.details.participants.length.Some? ==>
                  c.spotsLeft == Spots(e.details.maxParticipants - e.details.participants.length.value))
            && (e.details.participants == NonArray(None) ==> c.spotsLeft == NaN)
  {
  }

  /** An activity over capacity shows a negative number of spots. */
  lemma SpotsLeftMayBeNegative()
    ensures RenderCard(Entry("Chess Club", Activity("d", "s", 1, Array(["a@x.com", "b@x.com"])))).value.spotsLeft
            == Spots(-1)
  {
  }

  /** The participants block of a card: the placeholder and no list when the
      activity has no participants, otherwise one line per participant in
      order, each showing the participant and bound to the card's activity. */
  lemma ParticipantsBlockOfCard(e: Entry)
    requires e.details.participants.Array?
    ensures RenderCard(e).Some?
    ensures var b := RenderCard(e).value.participants;
            var ps := e.details.participants.emails;
            && (b.NoneYet? <==> |ps| == 0)
            && (b.NoneYet? ==> b.notice == NoParticipantsNotice)
            && (b.Roster? ==> |b.items| == |ps| && forall i | 0 <= i < |ps| ::
                  b.items[i].text == ps[i] && b.items[i].control == DeleteControl(e.name, ps[i]))
  {
  }

  /** A card's delete control for participant `i` sends the unregister
      request for that card's activity and that participant. */
  lemma DeleteControlUnregisters(dir: seq<Entry>, k: nat, i: nat,
                                 encode: string -> string)
    requires Render(dir).list.Cards?
    requires k < |dir|
    requires dir[k].details.participants.Array?
    requires i < |dir[k].details.participants.emails|
    ensures var card := Render(dir).list.cards[k];
            && card.participants.Roster?
            && i < |card.participants.items|
            && OnListClick(card.participants.items[i].control, encode)
               == Some(RequestFor(Unregister, dir[k].name, dir[k].details.participants.emails[i], encode))
  {
    var page := Render(dir);
    assert RenderCard(dir[k]) == Some(page.list.cards[k]);
    ParticipantsBlockOfCard(dir[k]);
  }

  /** A successful refresh does not depend on what the page showed before,
      so refreshing twice on the same directory shows the same page. */
  lemma RefreshForgetsPrevious(dir: seq<Entry>, p1: seq<Choice>, p2: seq<Choice>)
    ensures Refresh(Some(dir), p1) == Refresh(Some(dir), p2)
  {
  }

  /** With distinct activity names, the select's options after the
      placeholder have distinct values. */
  lemma SelectValuesDistinct(dir: seq<Entry>)
    requires DistinctNames(dir)
    ensures var s := Render(dir).select;
            forall i, j | 1 <= i < j < |s| :: s[i].value != s[j].value
  {
    var s := Render(dir).select;
    forall i, j | 1 <= i < j < |s| ensures s[i].value != s[j].value {
      assert s[i] == ChoiceFor(dir[i - 1].name);
      assert s[j] == ChoiceFor(dir[j - 1].name);
    }
  }
}
