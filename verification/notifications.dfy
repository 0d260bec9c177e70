/** The notification scan: table rows announcing a video conference are
    followed to their linked page, whose link lines are forwarded
    (parse.go, parsePrivateMessagesSection, parseNotification). */
module Notifications {
  import opened Strings
  import opened Dom
  import LinkPattern

  /** The text that marks a row as a conference announcement. */
  const Phrase := "Ihre Videokonferenz startet in Kuerze um"

  /** The cell compared with today's date. */
  const DateColumn: nat := 2

  /** The cell searched for the phrase. */
  const TextColumn: nat := 5

  /** A `<td>`: its text and the `href` of its first anchor, if any. */
  datatype Cell = Cell(text: string, href: Lookup<string>)

  /** A row that announces a conference: the cell text and the anchor link. */
  datatype Trigger = Trigger(subject: string, link: string)

  /** One call of the delivery collaborator: the forwarded link line and the
      shortened subject. */
  datatype Delivery = Delivery(link: string, subject: string)

  /** A row is an announcement when it has a sixth cell containing the phrase. */
  predicate Announces(row: seq<Cell>) {
    |row| > TextColumn && Contains(row[TextColumn].text, Phrase)
  }

  /** The notifications a row raises: its sixth cell when that announces. */
  function RowTriggers(row: seq<Cell>): seq<Trigger> {
    if Announces(row) then [Trigger(row[TextColumn].text, ValueOr(row[TextColumn].href, ""))] else []
  }

  /** The row walk as written: the date flag starts true and is only ever
      set to true, so neither `today` nor the date cell decides anything; the
      row raises one notification exactly when its sixth cell contains the
      phrase, carrying that cell's text and anchor link ("" without one). */
  method ScanRow(row: seq<Cell>, today: string) returns (hits: seq<Trigger>)
    ensures |hits| <= 1
    ensures |hits| == 1 <==> |row| > TextColumn && Contains(row[TextColumn].text, Phrase)
    ensures forall t :: t in hits ==> t.subject == row[TextColumn].text && t.link == ValueOr(row[TextColumn].href, "")
    ensures hits == RowTriggers(row)
  {
    hits := [];
    var dateMatch := true;
    var h := 0;
    while h < |row|
      invariant 0 <= h <= |row|
      invariant dateMatch
      invariant hits == if h > TextColumn then RowTriggers(row) else []
    {
      var cell := row[h];
      if h == DateColumn {
        if Contains(cell.text, today) {
          dateMatch := true;
        }
      }
      if dateMatch {
        if h == TextColumn {
          if Contains(cell.text, Phrase) {
            hits := hits + [Trigger(cell.text, ValueOr(cell.href, ""))];
          }
        }
      }
      h := h + 1;
    }
  }

  /** The fieldset lines forwarded with `subject`: every node that is not a
      `<br>` and whose text matches the link pattern, in document order. */
  function ForwardLines(nodes: seq<FieldsetNode>, subject: string): (sent: seq<Delivery>)
    ensures |sent| <= |nodes|
    ensures forall d :: d in sent ==> d.subject == subject && LinkPattern.Matches(d.link)
    ensures forall j :: 0 <= j < |nodes| && !nodes[j].isBreak && LinkPattern.Matches(nodes[j].text) ==>
              Delivery(nodes[j].text, subject) in sent
  {
    if |nodes| == 0 then []
    else
      (if !nodes[0].isBreak && LinkPattern.Matches(nodes[0].text) then [Delivery(nodes[0].text, subject)] else [])
      + ForwardLines(nodes[1..], subject)
  }

  /** A delivery is forwarded exactly when some non-`<br>` node carries a
      matching link line. */
  lemma {:induction false} ForwardLinesMembers(nodes: seq<FieldsetNode>, subject: string, d: Delivery)
    ensures d in ForwardLines(nodes, subject) <==>
              && d.subject == subject
              && exists i :: 0 <= i < |nodes| && !nodes[i].isBreak && nodes[i].text == d.link
                             && LinkPattern.Matches(d.link)
  {
    if |nodes| > 0 {
      ForwardLinesMembers(nodes[1..], subject, d);
      if exists i :: 0 <= i < |nodes[1..]| && !nodes[1..][i].isBreak && nodes[1..][i].text == d.link
                     && LinkPattern.Matches(d.link) {
        var i :| 0 <= i < |nodes[1..]| && !nodes[1..][i].isBreak && nodes[1..][i].text == d.link
                 && LinkPattern.Matches(d.link);
        assert nodes[i + 1] == nodes[1..][i];
      }
      if exists i :: 0 <= i < |nodes| && !nodes[i].isBreak && nodes[i].text == d.link
                     && LinkPattern.Matches(d.link) {
        var i :| 0 <= i < |nodes| && !nodes[i].isBreak && nodes[i].text == d.link
                 && LinkPattern.Matches(d.link);
        if i > 0 {
          assert nodes[1..][i - 1] == nodes[i];
        }
      }
    }
  }

  /** Forwarding distributes over concatenation of node runs: lines go out
      in document order, and a line that appears twice is sent twice. */
  lemma {:induction false} ForwardLinesAppend(a: seq<FieldsetNode>, b: seq<FieldsetNode>, subject: string)
    ensures ForwardLines(a + b, subject) == ForwardLines(a, subject) + ForwardLines(b, subject)
  {
    if |a| == 0 {
      assert a + b == b;
    } else {
      assert (a + b)[1..] == a[1..] + b;
      ForwardLinesAppend(a[1..], b, subject);
    }
  }

  /** A single node is forwarded once when it is a matching non-`<br>` line,
      and not at all otherwise; with `ForwardLinesAppend` this fixes the
      forwarded sequence of every node run. */
  lemma ForwardLinesSingle(node: FieldsetNode, subject: string)
    ensures !node.isBreak && LinkPattern.Matches(node.text) ==>
              ForwardLines([node], subject) == [Delivery(node.text, subject)]
    ensures node.isBreak || !LinkPattern.Matches(node.text) ==> ForwardLines([node], subject) == []
  {
  }

  /** A link line that appears twice on the page is sent twice: nothing
      records what was already forwarded. */
  lemma RepeatedLineSentTwice(subject: string)
    ensures var line := FieldsetNode(false, "https://x");
            ForwardLines([line, line], subject) == [Delivery("https://x", subject), Delivery("https://x", subject)]
  {
  }

  /** parseNotification: fetch the linked page; unless it answers 200 nothing
      is forwarded; otherwise the page's lines are forwarded in document
      order, each matching non-`<br>` line once, with the subject minus its
      first character. The subject must not be empty, as Go's `subject[1:]`
      would fail on it. */
  function ParseNotification(portal: Portal, subject: string, link: string): (sent: seq<Delivery>)
    requires |subject| > 0
    ensures portal.fetch(link).status != StatusOk ==> sent == []
    ensures portal.fetch(link).status == StatusOk ==> sent == ForwardLines(portal.fetch(link).fieldset, subject[1..])
    ensures forall d :: d in sent ==> [subject[0]] + d.subject == subject && LinkPattern.Matches(d.link)
    ensures portal.fetch(link).status == StatusOk ==>
              var nodes := portal.fetch(link).fieldset;
              forall j :: 0 <= j < |nodes| && !nodes[j].isBreak && LinkPattern.Matches(nodes[j].text) ==>
                Delivery(nodes[j].text, subject[1..]) in sent
  {
    var page := portal.fetch(link);
    if page.status == StatusOk then ForwardLines(page.fieldset, subject[1..]) else []
  }

  /** What one row sends: its announcement followed up, or nothing. A
      subject that contains the phrase is never empty. */
  function RowDeliveries(portal: Portal, row: seq<Cell>): seq<Delivery> {
    if Announces(row) then
      ContainsIsLongEnough(row[TextColumn].text, Phrase);
      ParseNotification(portal, row[TextColumn].text, ValueOr(row[TextColumn].href, ""))
    else []
  }

  /** What a table sends: the rows' deliveries in row order. */
  function TableDeliveries(portal: Portal, rows: seq<seq<Cell>>): seq<Delivery> {
    if |rows| == 0 then [] else RowDeliveries(portal, rows[0]) + TableDeliveries(portal, rows[1..])
  }

  /** The deliveries of two row runs are those of the first, then those of
      the second; in particular a table repeated sends everything twice, as
      nothing remembers what was sent. */
  lemma {:induction false} TableDeliveriesAppend(portal: Portal, a: seq<seq<Cell>>, b: seq<seq<Cell>>)
    ensures TableDeliveries(portal, a + b) == TableDeliveries(portal, a) + TableDeliveries(portal, b)
  {
    if |a| == 0 {
      assert a + b == b;
    } else {
      assert (a + b)[1..] == a[1..] + b;
      TableDeliveriesAppend(portal, a[1..], b);
    }
  }

  /** parsePrivateMessagesSection: nothing is sent when the table cannot be
      parsed; otherwise every row is scanned in order and each announcement
      is followed up at once. */
  method ParsePrivateMessagesSection(portal: Portal, table: Lookup<seq<seq<Cell>>>, today: string)
    returns (sent: seq<Delivery>)
    ensures table.Absent? ==> sent == []
    ensures table.Present? ==> sent == TableDeliveries(portal, table.value)
  {
    sent := [];
    if table.Present? {
      var rows := table.value;
      var i := 0;
      while i < |rows|
        invariant 0 <= i <= |rows|
        invariant sent == TableDeliveries(portal, rows[..i])
      {
        var hits := ScanRow(rows[i], today);
        if |hits| == 1 {
          ContainsIsLongEnough(hits[0].subject, Phrase);
          sent := sent + ParseNotification(portal, hits[0].subject, hits[0].link);
        }
        assert sent == TableDeliveries(portal, rows[..i]) + RowDeliveries(portal, rows[i]);
        assert rows[..i + 1] == rows[..i] + [rows[i]];
        TableDeliveriesAppend(portal, rows[..i], [rows[i]]);
        assert TableDeliveries(portal, [rows[i]]) == RowDeliveries(portal, rows[i]) + TableDeliveries(portal, []);
        i := i + 1;
      }
      assert rows[..|rows|] == rows;
    }
  }

  /** Every delivery comes from an announcing row: its link line matches the
      pattern, appeared on that row's page (which answered 200), and its
      subject is that row's sixth cell minus the first character. */
  lemma {:induction false} DeliveriesSound(portal: Portal, rows: seq<seq<Cell>>, d: Delivery)
    requires d in TableDeliveries(portal, rows)
    ensures exists r: seq<Cell> :: r in rows && Announces(r)
              && [r[TextColumn].text[0]] + d.subject == r[TextColumn].text
              && LinkPattern.Matches(d.link)
              && Followed(portal, r, d)
  {
    if d in RowDeliveries(portal, rows[0]) {
      RowDeliverySound(portal, rows[0], d);
    } else {
      DeliveriesSound(portal, rows[1..], d);
      var r: seq<Cell> :| r in rows[1..] && Announces(r)
               && [r[TextColumn].text[0]] + d.subject == r[TextColumn].text
               && LinkPattern.Matches(d.link)
               && Followed(portal, r, d);
      assert r in rows;
    }
  }

  /** `d`'s link is a non-`<br>` line of the page an announcing row links to,
      and that page answered 200. */
  ghost predicate Followed(portal: Portal, row: seq<Cell>, d: Delivery)
    requires |row| > TextColumn
  {
    var page := portal.fetch(ValueOr(row[TextColumn].href, ""));
    && page.status == StatusOk
    && exists i :: 0 <= i < |page.fieldset| && !page.fieldset[i].isBreak && page.fieldset[i].text == d.link
  }

  lemma RowDeliverySound(portal: Portal, row: seq<Cell>, d: Delivery)
    requires d in RowDeliveries(portal, row)
    ensures Announces(row)
    ensures [row[TextColumn].text[0]] + d.subject == row[TextColumn].text
    ensures LinkPattern.Matches(d.link)
    ensures Followed(portal, row, d)
  {
    var subject := row[TextColumn].text;
    var page := portal.fetch(ValueOr(row[TextColumn].href, ""));
    ForwardLinesMembers(page.fieldset, subject[1..], d);
  }

  /** Every matching non-`<br>` line on the page of an announcing row is
      delivered with that row's shortened subject. */
  lemma {:induction false} DeliveriesComplete(portal: Portal, rows: seq<seq<Cell>>, k: nat, j: nat)
    requires k < |rows| && Announces(rows[k])
    requires var page := portal.fetch(ValueOr(rows[k][TextColumn].href, ""));
             && page.status == StatusOk
             && j < |page.fieldset| && !page.fieldset[j].isBreak
             && LinkPattern.Matches(page.fieldset[j].text)
    ensures Delivery(portal.fetch(ValueOr(rows[k][TextColumn].href, "")).fieldset[j].text,
                     rows[k][TextColumn].text[1..])
            in TableDeliveries(portal, rows)
  {
    var page := portal.fetch(ValueOr(rows[k][TextColumn].href, ""));
    var d := Delivery(page.fieldset[j].text, rows[k][TextColumn].text[1..]);
    if k == 0 {
      ForwardLinesMembers(page.fieldset, rows[k][TextColumn].text[1..], d);
    } else {
      assert rows[1..][k - 1] == rows[k];
      DeliveriesComplete(portal, rows[1..], k - 1, j);
    }
  }
}
