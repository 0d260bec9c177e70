/** The detail-body builder: the text of a linked detail page that replaces a
    blackboard message's short abstract (parse.go, parseMessageBodyFromRef). */
module Detail {
  import opened Strings
  import opened Dom

  /** Paragraphs containing this word belong to the portal's overview dialog. */
  const Overview := "\U{00DC}bersicht"

  /** How many newlines the final cleanup deletes. */
  const CleanupCount: nat := 4

  /** A paragraph contributes to the body when it is not `:empty` and is not
      part of the overview dialog. */
  predicate Keeps(p: Paragraph) {
    !p.empty && !Contains(p.text, Overview)
  }

  /** The texts of the contributing paragraphs, in document order. */
  function KeptTexts(ps: seq<Paragraph>): seq<string> {
    if |ps| == 0 then []
    else (if Keeps(ps[0]) then [ps[0].text] else []) + KeptTexts(ps[1..])
  }

  /** Every text followed by one newline, concatenated. */
  function Lines(ts: seq<string>): string {
    if |ts| == 0 then "" else ts[0] + "\n" + Lines(ts[1..])
  }

  /** The body a detail page yields: nothing unless the status is 200;
      otherwise the contributing paragraphs as lines, with the first four
      newlines deleted. */
  function DetailText(page: Page): (r: string)
    ensures page.status != StatusOk ==> r == ""
    ensures page.status == StatusOk ==>
              var acc := Lines(KeptTexts(page.paragraphs));
              && Strip(r, '\n') == Strip(acc, '\n')
              && Count(r, '\n') == Count(acc, '\n') - Min(CleanupCount, Count(acc, '\n'))
  {
    var acc := if page.status == StatusOk then Lines(KeptTexts(page.paragraphs)) else "";
    RemoveFirst(acc, '\n', CleanupCount)
  }

  /** Filtering distributes over concatenation of paragraph sequences, so the
      kept texts keep document order. */
  lemma {:induction false} KeptTextsAppend(a: seq<Paragraph>, b: seq<Paragraph>)
    ensures KeptTexts(a + b) == KeptTexts(a) + KeptTexts(b)
  {
    if |a| == 0 {
      assert a + b == b;
    } else {
      assert (a + b)[1..] == a[1..] + b;
      KeptTextsAppend(a[1..], b);
    }
  }

  /** A text is kept exactly when some contributing paragraph carries it. */
  lemma {:induction false} KeptTextsMembers(ps: seq<Paragraph>, t: string)
    ensures t in KeptTexts(ps) <==> exists i :: 0 <= i < |ps| && Keeps(ps[i]) && ps[i].text == t
  {
    if |ps| > 0 {
      KeptTextsMembers(ps[1..], t);
      if exists i :: 0 <= i < |ps[1..]| && Keeps(ps[1..][i]) && ps[1..][i].text == t {
        var i :| 0 <= i < |ps[1..]| && Keeps(ps[1..][i]) && ps[1..][i].text == t;
        assert ps[i + 1] == ps[1..][i];
      }
      if exists i :: 0 <= i < |ps| && Keeps(ps[i]) && ps[i].text == t {
        var i :| 0 <= i < |ps| && Keeps(ps[i]) && ps[i].text == t;
        if i > 0 {
          assert ps[1..][i - 1] == ps[i];
        }
      }
    }
  }

  lemma {:induction false} LinesAppend(a: seq<string>, b: seq<string>)
    ensures Lines(a + b) == Lines(a) + Lines(b)
  {
    if |a| == 0 {
      assert a + b == b;
    } else {
      assert (a + b)[1..] == a[1..] + b;
      LinesAppend(a[1..], b);
    }
  }

  /** Each text is followed by its own newline, so the lines hold at least
      one newline per text. */
  lemma {:induction false} LinesNewlines(ts: seq<string>)
    ensures Count(Lines(ts), '\n') >= |ts|
  {
    if |ts| > 0 {
      LinesNewlines(ts[1..]);
      CountAppend(ts[0], "\n", '\n');
      CountAppend(ts[0] + "\n", Lines(ts[1..]), '\n');
    }
  }

  lemma KeptTextsStep(ps: seq<Paragraph>, i: nat)
    requires i < |ps|
    ensures KeptTexts(ps[..i + 1]) == KeptTexts(ps[..i]) + (if Keeps(ps[i]) then [ps[i].text] else [])
  {
    assert ps[..i + 1] == ps[..i] + [ps[i]];
    KeptTextsAppend(ps[..i], [ps[i]]);
    assert KeptTexts([ps[i]]) == (if Keeps(ps[i]) then [ps[i].text] else []) + KeptTexts([]);
  }

  lemma LinesStep(ts: seq<string>, t: string)
    ensures Lines(ts + [t]) == Lines(ts) + t + "\n"
  {
    LinesAppend(ts, [t]);
    assert Lines([t]) == t + "\n" + Lines([]);
  }

  /** parseMessageBodyFromRef as written: walk the paragraphs, append each
      contributing text and a newline, then delete the first four newlines. */
  method BuildDetailText(page: Page) returns (body: string)
    ensures body == DetailText(page)
  {
    body := "";
    if page.status == StatusOk {
      var ps := page.paragraphs;
      var i := 0;
      while i < |ps|
        invariant 0 <= i <= |ps|
        invariant body == Lines(KeptTexts(ps[..i]))
      {
        var p := ps[i];
        KeptTextsStep(ps, i);
        if !p.empty {
          if !Contains(p.text, Overview) {
            LinesStep(KeptTexts(ps[..i]), p.text);
            body := body + p.text + "\n";
          } else {
            assert KeptTexts(ps[..i]) + [] == KeptTexts(ps[..i]);
          }
        } else {
          assert KeptTexts(ps[..i]) + [] == KeptTexts(ps[..i]);
        }
        i := i + 1;
      }
      assert ps[..|ps|] == ps;
    }
    body := RemoveFirst(body, '\n', CleanupCount);
  }

  /** The builder yields nothing exactly when the page failed, or when its
      lines hold no character besides at most four newlines; only then does
      the message keep its abstract. */
  lemma DetailTextEmptyIff(page: Page)
    ensures DetailText(page) == "" <==>
              || page.status != StatusOk
              || (var acc := Lines(KeptTexts(page.paragraphs));
                  Strip(acc, '\n') == "" && Count(acc, '\n') <= CleanupCount)
  {
  }

  /** More than four contributing paragraphs always yield a non-empty body. */
  lemma ManyParagraphsEnrich(page: Page)
    requires page.status == StatusOk
    requires |KeptTexts(page.paragraphs)| > CleanupCount
    ensures DetailText(page) != ""
  {
    LinesNewlines(KeptTexts(page.paragraphs));
    DetailTextEmptyIff(page);
  }

  /** The deleted newlines are the first ones wherever they occur: the body is
      a prefix of the lines with its newlines removed, holding the first
      `Min(4, k)` of the `k` newlines, followed by the untouched rest. */
  lemma CleanupDeletesFirstNewlines(page: Page)
    requires page.status == StatusOk
    ensures exists j :: 0 <= j <= |Lines(KeptTexts(page.paragraphs))|
              && Count(Lines(KeptTexts(page.paragraphs))[..j], '\n')
                 == Min(CleanupCount, Count(Lines(KeptTexts(page.paragraphs)), '\n'))
              && DetailText(page)
                 == Strip(Lines(KeptTexts(page.paragraphs))[..j], '\n') + Lines(KeptTexts(page.paragraphs))[j..]
  {
    var acc := Lines(KeptTexts(page.paragraphs));
    RemoveFirstSplits(acc, '\n', CleanupCount);
    var j := Cut(acc, '\n', CleanupCount);
    assert DetailText(page) == RemoveFirst(acc, '\n', CleanupCount);
    assert 0 <= j <= |acc|
           && Count(acc[..j], '\n') == Min(CleanupCount, Count(acc, '\n'))
           && DetailText(page) == Strip(acc[..j], '\n') + acc[j..];
  }

  /** Because the newlines deleted are not only leading ones, two one-letter
      paragraphs run together on one line. */
  lemma ParagraphsRunTogether()
    ensures DetailText(Page(StatusOk, [Paragraph(false, "a"), Paragraph(false, "b")], [])) == "ab"
  {
    var ps := [Paragraph(false, "a"), Paragraph(false, "b")];
    assert KeptTexts(ps[1..]) == ["b"];
    assert KeptTexts(ps) == ["a", "b"];
    assert Lines(["a", "b"]) == "a\nb\n";
    assert RemoveFirst("\n", '\n', 2) == "";
    assert RemoveFirst("b\n", '\n', 3) == "b";
    assert RemoveFirst("\nb\n", '\n', 4) == "b";
  }
}
