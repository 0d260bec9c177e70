/** The message extractor: blackboard list items become messages appended to
    the message queue (parse.go, blackBoardMsg, parseMessageHTML,
    parseBlackBoardData). */
module Blackboard {
  import opened Dom
  import Detail
  import Strings

  /** A parsed blackboard message (blackBoardMsg). */
  datatype Message = Message(title: string, date: string, body: string, link: string)

  /** One `<li>` item: whether it is `:empty`, the texts of its `.titel`,
      `.date` and `.abstract` descendants, and the `href` of the first anchor
      inside `.abstract` (Absent when there is no anchor or it has no `href`). */
  datatype ListItem = ListItem(empty: bool, title: string, date: string, abstractText: string, href: Lookup<string>)

  /** The parsed blackboard document: the items under `#cell_blackboardtype1`
      and those under `#cell_mPrio`, each in document order. */
  datatype Board = Board(general: seq<ListItem>, priority: seq<ListItem>)

  /** The blackboard answer: its status and the parsed document, Absent when
      the document could not be parsed. */
  datatype Response = Response(status: int, document: Lookup<Board>)

  /** The link recorded for an item: its anchor's `href`, or "" without one. */
  function LinkOf(item: ListItem): string {
    ValueOr(item.href, "")
  }

  /** The message built from a non-empty item. The detail page is fetched for
      the link even when it is "", and its text replaces the repaired
      abstract whenever it is non-empty. */
  function MessageOf(portal: Portal, item: ListItem): Message {
    var link := LinkOf(item);
    var body := portal.replaceUmlauts(item.abstractText);
    var rich := Detail.DetailText(portal.fetch(link));
    Message(item.title, item.date, if rich != "" then rich else body, link)
  }

  /** parseMessageHTML: an empty item leaves the queue as it is; any other
      item appends exactly one message at the end and changes nothing before
      it. */
  function ParseMessage(portal: Portal, queue: seq<Message>, item: ListItem): (q: seq<Message>)
    ensures item.empty ==> q == queue
    ensures !item.empty ==> |q| == |queue| + 1 && q[..|queue|] == queue
    ensures !item.empty ==> q[|queue|] == MessageOf(portal, item)
  {
    queue + Emitted(portal, item)
  }

  /** The fields of a produced message: title, date and link come from the
      item (the link is "" when there is no anchor), and the body is the
      detail text when that is non-empty, the repaired abstract otherwise. */
  lemma MessageFields(portal: Portal, item: ListItem)
    ensures var m := MessageOf(portal, item);
            && m.title == item.title && m.date == item.date
            && (item.href.Absent? ==> m.link == "")
            && (item.href.Present? ==> m.link == item.href.value)
            && (Detail.DetailText(portal.fetch(m.link)) != "" ==> m.body == Detail.DetailText(portal.fetch(m.link)))
            && (Detail.DetailText(portal.fetch(m.link)) == "" ==> m.body == portal.replaceUmlauts(item.abstractText))
  {
  }

  /** A detail page that does not answer 200 leaves the repaired abstract as
      the body. */
  lemma FailedFetchKeepsAbstract(portal: Portal, item: ListItem)
    requires portal.fetch(LinkOf(item)).status != StatusOk
    ensures MessageOf(portal, item).body == portal.replaceUmlauts(item.abstractText)
  {
  }

  /** The body is the enriched text exactly when the detail page answered 200
      and its lines hold more than four newlines or some other character. */
  lemma EnrichedIff(portal: Portal, item: ListItem)
    ensures var page := portal.fetch(LinkOf(item));
            var acc := Detail.Lines(Detail.KeptTexts(page.paragraphs));
            var enriched := page.status == StatusOk
                            && (Strings.Strip(acc, '\n') != "" || Strings.Count(acc, '\n') > Detail.CleanupCount);
            && (enriched ==> MessageOf(portal, item).body == Detail.DetailText(page))
            && (!enriched ==> MessageOf(portal, item).body == portal.replaceUmlauts(item.abstractText))
  {
  }

  /** What one item contributes: its message, or nothing when it is empty. */
  function Emitted(portal: Portal, item: ListItem): seq<Message> {
    if item.empty then [] else [MessageOf(portal, item)]
  }

  /** The messages a sequence of items yields: one per non-empty item, in
      item order. */
  function Messages(portal: Portal, items: seq<ListItem>): seq<Message> {
    if |items| == 0 then [] else Emitted(portal, items[0]) + Messages(portal, items[1..])
  }

  /** parseMessageHTML applied to every item in turn (goquery's `Each`). */
  function ParseItems(portal: Portal, queue: seq<Message>, items: seq<ListItem>): seq<Message>
    decreases |items|
  {
    if |items| == 0 then queue
    else ParseItems(portal, ParseMessage(portal, queue, items[0]), items[1..])
  }

  /** Walking the items appends exactly their messages, in order, after the
      untouched queue. */
  lemma {:induction false} ParseItemsAppends(portal: Portal, queue: seq<Message>, items: seq<ListItem>)
    ensures ParseItems(portal, queue, items) == queue + Messages(portal, items)
    decreases |items|
  {
    if |items| == 0 {
      assert queue + [] == queue;
    } else {
      var head := Emitted(portal, items[0]);
      var next := ParseMessage(portal, queue, items[0]);
      var rest := Messages(portal, items[1..]);
      calc {
        ParseItems(portal, queue, items);
        ParseItems(portal, next, items[1..]);
        { ParseItemsAppends(portal, next, items[1..]); }
        next + rest;
        (queue + head) + rest;
        queue + (head + rest);
        queue + Messages(portal, items);
      }
    }
  }

  /** The messages of two item runs are those of the first, then those of the
      second: extraction keeps document order. */
  lemma {:induction false} MessagesAppend(portal: Portal, a: seq<ListItem>, b: seq<ListItem>)
    ensures Messages(portal, a + b) == Messages(portal, a) + Messages(portal, b)
  {
    if |a| == 0 {
      assert a + b == b;
    } else {
      assert (a + b)[1..] == a[1..] + b;
      MessagesAppend(portal, a[1..], b);
    }
  }

  /** parseBlackBoardData: nothing is appended unless the answer is 200 and
      its document parsed; otherwise the general items' messages come first,
      then the priority items' messages, each in document order. */
  function ParseBlackBoardData(portal: Portal, queue: seq<Message>, response: Response): (q: seq<Message>)
    ensures response.status != StatusOk || response.document.Absent? ==> q == queue
    ensures response.status == StatusOk && response.document.Present? ==>
              var board := response.document.value;
              q == queue + Messages(portal, board.general) + Messages(portal, board.priority)
  {
    if response.status == StatusOk then
      match response.document
      case Absent => queue
      case Present(board) =>
        var afterGeneral := ParseItems(portal, queue, board.general);
        ParseItemsAppends(portal, queue, board.general);
        ParseItemsAppends(portal, afterGeneral, board.priority);
        ParseItems(portal, afterGeneral, board.priority)
    else queue
  }
}
