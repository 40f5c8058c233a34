/**
  The string-building part of `extract_embedded_documents`. The PDF engine
  and the OCR engine are outside the model: each embedded file arrives
  either as unreadable (its metadata, bytes or PDF parse failed) or as its
  file name with one entry per page, which is either the OCR text spans of
  that page or a failure of rasterising or recognising it. Any failure
  skips the whole attachment and the loop goes on with the next one.
*/
module Attachments {
  import opened Wrappers
  import opened Strings

  /** One page of an embedded PDF as the OCR step sees it. */
  datatype Page = Rendered(spans: seq<string>) | RenderFailed

  /** One embedded file. */
  datatype Attachment = Unreadable | Opened(filename: string, pages: seq<Page>)

  /** The header line that opens an attachment's block. */
  const DocumentNameLabel := "Document name: "

  /** Spans joined by single spaces, with every '{' and then every '}' removed. */
  function PageText(spans: seq<string>): (t: string)
    ensures '{' !in t && '}' !in t
  {
    RemoveChar(RemoveChar(Join(spans, " "), '{'), '}')
  }

  /** The braces are the only characters the page text drops. */
  lemma PageTextKeepsBraceFreeSpans(spans: seq<string>)
    requires forall i :: 0 <= i < |spans| ==> '{' !in spans[i] && '}' !in spans[i]
    ensures PageText(spans) == Join(spans, " ")
  {
    var j := Join(spans, " ");
    assert '{' !in j && '}' !in j;
    assert RemoveChar(j, '{') == j;
  }

  /** A span with its braces removed: what the page text keeps of it. */
  function Unbraced(span: string): (u: string)
    ensures '{' !in u && '}' !in u
  {
    RemoveChar(RemoveChar(span, '{'), '}')
  }

  /**
    Removing the braces after joining is the same as removing them from each
    span and joining those by single spaces: one more span adds a space and
    that span's unbraced text.
  */
  lemma {:induction false} PageTextSnoc(spans: seq<string>, x: string)
    requires |spans| >= 1
    ensures PageText(spans + [x]) == PageText(spans) + " " + Unbraced(x)
  {
    var j := Join(spans, " ");
    JoinSnoc(spans, x, " ");
    RemoveCharAppend(j + " ", x, '{');
    RemoveCharAppend(j, " ", '{');
    var j1, x1 := RemoveChar(j, '{'), RemoveChar(x, '{');
    assert RemoveChar(" ", '{') == " " by { RemoveCharSingle(' ', '{'); }
    RemoveCharAppend(j1 + " ", x1, '}');
    RemoveCharAppend(j1, " ", '}');
    assert RemoveChar(" ", '}') == " " by { RemoveCharSingle(' ', '}'); }
  }

  /** A page of one span holds that span without its braces. */
  lemma PageTextSingle(x: string)
    ensures PageText([x]) == Unbraced(x)
  {
  }

  /** The text collected from `pages`: each page's text and a newline; none if a page failed. */
  function PagesText(pages: seq<Page>): Option<string>
  {
    if pages == [] then Some("")
    else match (PagesText(pages[..|pages| - 1]), pages[|pages| - 1])
      case (Some(t), Rendered(spans)) => Some(t + PageText(spans) + "\n")
      case _ => None
  }

  /** The pages yield text exactly when none of them failed. */
  lemma {:induction false} PagesTextFails(pages: seq<Page>)
    ensures PagesText(pages).None? <==> exists k :: 0 <= k < |pages| && pages[k].RenderFailed?
  {
    if pages != [] {
      var init := pages[..|pages| - 1];
      PagesTextFails(init);
      assert forall k :: 0 <= k < |init| ==> init[k] == pages[k];
      if exists k :: 0 <= k < |init| && init[k].RenderFailed? {
        var k :| 0 <= k < |init| && init[k].RenderFailed?;
        assert pages[k].RenderFailed?;
      }
    }
  }

  /** Collected page text holds no brace. */
  lemma {:induction false} PagesTextBraceFree(pages: seq<Page>)
    requires PagesText(pages).Some?
    ensures '{' !in PagesText(pages).value && '}' !in PagesText(pages).value
  {
    if pages != [] {
      PagesTextBraceFree(pages[..|pages| - 1]);
    }
  }

  /**
    The block an attachment adds: the header with the file name's stem, the
    page texts, and a blank line; none when the attachment failed.
  */
  function Block(a: Attachment): Option<string>
  {
    match a
    case Unreadable => None
    case Opened(filename, pages) =>
      match PagesText(pages)
      case None => None
      case Some(text) => Some(DocumentNameLabel + Stem(filename) + "\n" + text + "\n")
  }

  /** What an attachment contributes to the concatenated text. */
  function Contribution(a: Attachment): string
  {
    match Block(a)
    case None => ""
    case Some(b) => b
  }

  /** What each attachment contributes, in index order. */
  function Contributions(atts: seq<Attachment>): seq<string>
  {
    MapToStrings(atts, Contribution)
  }

  /** The concatenated text: the blocks of the attachments that succeeded, in index order. */
  function AllDoc(atts: seq<Attachment>): string
  {
    Concat(Contributions(atts))
  }

  /** The text of two runs of attachments is the text of the first, then of the second. */
  lemma AllDocAppend(xs: seq<Attachment>, ys: seq<Attachment>)
    ensures AllDoc(xs + ys) == AllDoc(xs) + AllDoc(ys)
  {
    MapToStringsAppend(xs, ys, Contribution);
    ConcatAppend(Contributions(xs), Contributions(ys));
  }

  /** A single attachment's text is its contribution. */
  lemma AllDocSingle(a: Attachment)
    ensures AllDoc([a]) == Contribution(a)
  {
    var c := Contribution(a);
    assert [a][..0] == [];
    assert MapToStrings([a], Contribution) == [c];
    assert [c][..0] == [];
    assert Concat([c]) == "" + c == c;
  }

  /** One more attachment appends its contribution. */
  lemma AllDocStep(atts: seq<Attachment>, i: nat)
    requires i < |atts|
    ensures AllDoc(atts[..i + 1]) == AllDoc(atts[..i]) + Contribution(atts[i])
  {
    assert atts[..i + 1] == atts[..i] + [atts[i]];
    AllDocAppend(atts[..i], [atts[i]]);
    AllDocSingle(atts[i]);
  }

  /**
    A failed attachment adds nothing and does not stop those after it; one
    that succeeded adds its block between the text of those before and after.
  */
  lemma AllDocSplit(before: seq<Attachment>, a: Attachment, after: seq<Attachment>)
    ensures Block(a).None? ==> AllDoc(before + [a] + after) == AllDoc(before + after)
    ensures Block(a).Some? ==> AllDoc(before + [a] + after) == AllDoc(before) + Block(a).value + AllDoc(after)
  {
    var x, y, c := AllDoc(before), AllDoc(after), Contribution(a);
    AllDocAppend(before + [a], after);
    AllDocAppend(before, [a]);
    AllDocSingle(a);
    assert AllDoc(before + [a] + after) == (x + c) + y;
    if Block(a).None? {
      assert c == [];
      assert x + c == x;
      AllDocAppend(before, after);
    }
  }

  /** An attachment fails exactly when it is unreadable or one of its pages failed. */
  lemma BlockFails(a: Attachment)
    ensures Block(a).None? <==>
      a.Unreadable? || exists k :: 0 <= k < |a.pages| && a.pages[k].RenderFailed?
  {
    if a.Opened? {
      PagesTextFails(a.pages);
    }
  }

  /** A block holds a brace only where its file name does. */
  lemma ContributionBraceFree(a: Attachment, c: char)
    requires c == '{' || c == '}'
    requires a.Opened? ==> c !in a.filename
    ensures c !in Contribution(a)
  {
    if Block(a).Some? {
      var text := PagesText(a.pages).value;
      PagesTextBraceFree(a.pages);
      var stem := Stem(a.filename);
      assert c !in stem by {
        assert forall x :: x in stem ==> x in a.filename;
      }
      assert c !in DocumentNameLabel && c !in "\n";
      assert Contribution(a) == DocumentNameLabel + stem + "\n" + text + "\n";
    }
  }

  /** Without braces in the file names, the concatenated text holds no brace at all. */
  lemma AllDocBraceFree(atts: seq<Attachment>)
    requires forall i :: 0 <= i < |atts| && atts[i].Opened? ==>
      '{' !in atts[i].filename && '}' !in atts[i].filename
    ensures '{' !in AllDoc(atts) && '}' !in AllDoc(atts)
  {
    var cs := Contributions(atts);
    forall i | 0 <= i < |cs| ensures '{' !in cs[i] && '}' !in cs[i] {
      MapToStringsAt(atts, Contribution, i);
      ContributionBraceFree(atts[i], '{');
      ContributionBraceFree(atts[i], '}');
    }
    ConcatAvoids(cs, '{');
    ConcatAvoids(cs, '}');
  }

  /** A failed page makes every page prefix that contains it fail. */
  lemma {:induction false} FailedPageSpoils(pages: seq<Page>, k: nat, n: nat)
    requires k < n <= |pages| && pages[k].RenderFailed?
    ensures PagesText(pages[..n]) == None
  {
    if k < n - 1 {
      FailedPageSpoils(pages, k, n - 1);
      assert pages[..n][..n - 1] == pages[..n - 1];
    } else {
      assert pages[..n][..n - 1] == pages[..n - 1];
    }
  }

  /**
    The page loop of `extract_embedded_documents`: OCR text of each page in
    turn, appended with a newline; the first failing page abandons the
    attachment.
  */
  method CollectPageTexts(pages: seq<Page>) returns (singleDoc: Option<string>)
    ensures singleDoc == PagesText(pages)
  {
    var text := "";
    for p := 0 to |pages|
      invariant PagesText(pages[..p]) == Some(text)
    {
      assert pages[..p + 1][..p] == pages[..p];
      match pages[p]
      case RenderFailed =>
        FailedPageSpoils(pages, p, |pages|);
        assert pages[..|pages|] == pages;
        return None;
      case Rendered(spans) =>
        var pageText := Join(spans, " ");
        pageText := RemoveChar(RemoveChar(pageText, '{'), '}');
        text := text + pageText + "\n";
    }
    assert pages[..|pages|] == pages;
    return Some(text);
  }

  /**
    `extract_embedded_documents`: for each attachment in index order, append
    its block, or skip it when it fails.
  */
  method ExtractEmbeddedDocuments(atts: seq<Attachment>) returns (allDoc: string)
    ensures allDoc == AllDoc(atts)
  {
    allDoc := "";
    for i := 0 to |atts|
      invariant allDoc == AllDoc(atts[..i])
    {
      AllDocStep(atts, i);
      var a := atts[i];
      if a.Unreadable? {
        continue;
      }
      var name := a.filename;
      var singleDoc := CollectPageTexts(a.pages);
      if singleDoc.None? {
        continue;
      }
      allDoc := allDoc + DocumentNameLabel + Stem(name) + "\n" + singleDoc.value + "\n";
    }
    assert atts[..|atts|] == atts;
  }
}
