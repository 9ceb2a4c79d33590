/**
 * The cards of the main view and what renderCard shows for each: the list card with its event
 * buttons, and for a detail or extension card a loading state, the generated text with the
 * extensions it offers, or the error message. Also the targets of the arrow buttons.
 */
module Cards {
  import opened JsString
  import opened Exploration
  import opened Events

  /** The id and parentId of the list card. */
  const MainId: string := "main"

  datatype Card =
    | MainCard(title: string, events: seq<Event>)
    | DetailCard(id: string, title: string, emoji: string, category: string, parentId: string, eventData: Event)
    | ExtensionCard(id: string, title: string, parentId: string)

  function CardId(card: Card): string {
    if card.MainCard? then MainId else card.id
  }

  /** The card handleEventClick appends for an event of the list. */
  function DetailCardOf(e: Event): (card: Card)
    ensures card.DetailCard? && CardId(card) == e.id && card.parentId == MainId && card.eventData == e
  {
    DetailCard(e.id, e.title, e.emoji, e.category, MainId, e)
  }

  /** The card handleExtensionClick appends for the index-th extension offered on card parentId. */
  function ExtensionCardOf(parentId: string, text: string, index: nat): (card: Card)
    ensures card.ExtensionCard? && CardId(card) == ExtensionId(parentId, index) && card.title == text && card.parentId == parentId
  {
    ExtensionCard(ExtensionId(parentId, index), text, parentId)
  }

  /** `expandedContent[id]` is truthy: a text is stored and it is not the empty string. */
  predicate HasContent(expanded: map<string, string>, id: string) {
    id in expanded && expanded[id] != ""
  }

  /** `loadingStates[id]` is truthy. */
  predicate IsLoading(loading: map<string, bool>, id: string) {
    id in loading && loading[id]
  }

  /** A button of the list card; `generated` is its "✓ 已生成" badge. */
  datatype Row = Row(event: Event, generated: bool)

  /** A "继续探索" button of a content card, with the id its click opens and its visited badge. */
  datatype Offer = Offer(text: string, id: string, visited: bool)

  datatype CardView =
    | ListView(title: string, rows: seq<Row>)
    | LoadingView
    | ContentView(content: string, offers: seq<Offer>)
    | ErrorView

  function Rows(events: seq<Event>, expanded: map<string, string>): (rows: seq<Row>)
    ensures |rows| == |events|
  {
    seq(|events|, i requires 0 <= i < |events| => Row(events[i], HasContent(expanded, events[i].id)))
  }

  /** The extensions of a generated text, as offered on the card cardId. */
  function Offers(cardId: string, content: string, expanded: map<string, string>): (offers: seq<Offer>)
    ensures |offers| == |Anchors(content)|
  {
    var anchors := Anchors(content);
    seq(|anchors|, k requires 0 <= k < |anchors| =>
      Offer(anchors[k], ExtensionId(cardId, k), HasContent(expanded, ExtensionId(cardId, k))))
  }

  /** renderCard: loading wins over content; without content the error message is shown. */
  function RenderCard(card: Card, expanded: map<string, string>, loading: map<string, bool>): CardView {
    if card.MainCard? then ListView(card.title, Rows(card.events, expanded))
    else if IsLoading(loading, card.id) then LoadingView
    else if HasContent(expanded, card.id) then
      ContentView(expanded[card.id], Offers(card.id, expanded[card.id], expanded))
    else ErrorView
  }

  /**
   * A content card offers at most three extensions: the anchor lines of its text in order, each
   * trimmed and starting with a marker glyph, the k-th opening id `${card.id}_ext${k}`, marked
   * visited exactly when that id has content.
   */
  lemma OffersOfContent(card: Card, expanded: map<string, string>, loading: map<string, bool>)
    requires RenderCard(card, expanded, loading).ContentView?
    ensures var view := RenderCard(card, expanded, loading);
      && !card.MainCard? && !IsLoading(loading, card.id)
      && view.content == expanded[card.id] && view.content != ""
      && |view.offers| <= MaxAnchors
      && forall k :: 0 <= k < |view.offers| ==>
           && view.offers[k].text == Anchors(view.content)[k]
           && IsAnchorLine(view.offers[k].text) && IsTrimmed(view.offers[k].text)
           && view.offers[k].id == ExtensionId(card.id, k)
           && (view.offers[k].visited <==> HasContent(expanded, ExtensionId(card.id, k)))
  {
    var view := RenderCard(card, expanded, loading);
    AnchorsAreMarkedLines(view.content);
  }

  /** Every event of the list card is a button, badged exactly when its story has content. */
  lemma ListRows(card: Card, expanded: map<string, string>, loading: map<string, bool>, i: nat)
    requires card.MainCard? && i < |card.events|
    ensures var view := RenderCard(card, expanded, loading);
      && view == ListView(card.title, view.rows) && |view.rows| == |card.events|
      && view.rows[i].event == card.events[i]
      && (view.rows[i].generated <==> HasContent(expanded, card.events[i].id))
  {
  }

  /** Once a request for the card's id is in flight, the card shows the loading state. */
  lemma ViewWhileLoading(card: Card, expanded: map<string, string>, loading: map<string, bool>)
    requires !card.MainCard?
    ensures RenderCard(card, expanded, loading[card.id := true]) == LoadingView
  {
  }

  /** After a successful generation of a non-empty text, the card shows that text and its extensions. */
  lemma ViewAfterSuccess(card: Card, expanded: map<string, string>, loading: map<string, bool>, content: string)
    requires !card.MainCard? && content != ""
    ensures var expanded' := expanded[card.id := content];
      RenderCard(card, expanded', loading[card.id := false]) == ContentView(content, Offers(card.id, content, expanded'))
  {
  }

  /** After a failed generation the card shows what it had, or the error message when it had nothing. */
  lemma ViewAfterFailure(card: Card, expanded: map<string, string>, loading: map<string, bool>)
    requires !card.MainCard?
    ensures RenderCard(card, expanded, loading[card.id := false]) ==
      if HasContent(expanded, card.id) then ContentView(expanded[card.id], Offers(card.id, expanded[card.id], expanded))
      else ErrorView
  {
  }

  /** A change of the loading flag of one id leaves every card with another id as it was. */
  lemma OtherCardsUnaffected(card: Card, expanded: map<string, string>, loading: map<string, bool>, id: string, flag: bool)
    requires CardId(card) != id
    ensures RenderCard(card, expanded, loading[id := flag]) == RenderCard(card, expanded, loading)
  {
  }

  /** `Math.max(0, prev - 1)`: the left arrow. */
  function LeftIndex(i: int): (j: int)
    ensures j >= 0
    ensures i > 0 ==> j == i - 1
    ensures i <= 0 ==> j == 0
  {
    if i - 1 > 0 then i - 1 else 0
  }

  /** `Math.min(cards.length - 1, prev + 1)`: the right arrow. */
  function RightIndex(i: int, count: int): (j: int)
    ensures j <= count - 1
    ensures i < count - 1 ==> j == i + 1
    ensures i >= count - 1 ==> j == count - 1
  {
    if count - 1 < i + 1 then count - 1 else i + 1
  }

  /** The left arrow is rendered only away from the first card. */
  predicate ShowsLeftArrow(i: int) {
    i > 0
  }

  /** The right arrow is rendered only before the last card. */
  predicate ShowsRightArrow(i: int, count: int) {
    i < count - 1
  }

  /** Both arrows keep the focus on a card, and an arrow that is shown moves it by exactly one. */
  lemma ArrowsStayInRange(i: int, count: int)
    requires 0 <= i < count
    ensures 0 <= LeftIndex(i) < count && 0 <= RightIndex(i, count) < count
    ensures ShowsLeftArrow(i) <==> LeftIndex(i) == i - 1
    ensures ShowsRightArrow(i, count) <==> RightIndex(i, count) == i + 1
    ensures !ShowsLeftArrow(i) ==> LeftIndex(i) == i
    ensures !ShowsRightArrow(i, count) ==> RightIndex(i, count) == i
  {
  }
}
