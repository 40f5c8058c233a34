/**
  The form reader's widget loop: every page's widgets, in order, are copied
  into a field-name to value map. A widget with an empty name is skipped; a
  later widget with a name already seen overwrites the earlier value.
  Opening the document and enumerating its widgets belong to the PDF engine,
  so the pages arrive here as sequences of (name, value) widgets.
*/
module FormReader {

  /** One interactive form widget: its field name and field value. */
  datatype Widget = Widget(name: string, value: string)

  /** All widgets of all pages, in page order and then widget order. */
  function Flatten(pages: seq<seq<Widget>>): (ws: seq<Widget>)
    ensures pages == [] ==> ws == []
  {
    if pages == [] then [] else Flatten(pages[..|pages| - 1]) + pages[|pages| - 1]
  }

  /** One step of the loop body: `if key: form_data[key] = val`. */
  function Record(fields: map<string, string>, w: Widget): map<string, string>
  {
    if w.name != "" then fields[w.name := w.value] else fields
  }

  /** The map the loop builds after visiting the widgets `ws` in order. */
  function Collected(ws: seq<Widget>): map<string, string>
  {
    if ws == [] then map[] else Record(Collected(ws[..|ws| - 1]), ws[|ws| - 1])
  }

  /** The widget at `i` is the last one in `ws` that carries the name `k`. */
  predicate LastNamed(ws: seq<Widget>, k: string, i: int)
  {
    0 <= i < |ws| && ws[i].name == k && forall j :: i < j < |ws| ==> ws[j].name != k
  }

  /**
    A name is a key exactly when it is non-empty and some widget carries it,
    and its value is that of the last widget carrying it.
  */
  lemma {:induction false} CollectedSpec(ws: seq<Widget>, k: string)
    ensures k in Collected(ws) <==> k != "" && exists i :: 0 <= i < |ws| && ws[i].name == k
    ensures k in Collected(ws) ==> exists i :: LastNamed(ws, k, i) && Collected(ws)[k] == ws[i].value
  {
    if ws != [] {
      var init, w := ws[..|ws| - 1], ws[|ws| - 1];
      CollectedSpec(init, k);
      assert forall i :: 0 <= i < |init| ==> ws[i] == init[i];
      if w.name == k && k != "" {
        assert LastNamed(ws, k, |ws| - 1);
      } else if k in Collected(ws) {
        var i :| LastNamed(init, k, i) && Collected(init)[k] == init[i].value;
        assert LastNamed(ws, k, i);
      }
    }
  }

  /** The empty name is never a key. */
  lemma EmptyNameNeverKey(ws: seq<Widget>)
    ensures "" !in Collected(ws)
  {
    CollectedSpec(ws, "");
  }

  /** Flattening one more page appends its widgets. */
  lemma FlattenSnoc(pages: seq<seq<Widget>>, p: nat)
    requires p < |pages|
    ensures Flatten(pages[..p + 1]) == Flatten(pages[..p]) + pages[p]
  {
    assert pages[..p + 1][..p] == pages[..p];
  }

  /** Visiting one more widget applies one loop step. */
  lemma CollectedSnoc(ws: seq<Widget>, w: Widget)
    ensures Collected(ws + [w]) == Record(Collected(ws), w)
  {
    assert (ws + [w])[..|ws|] == ws;
  }

  /**
    `extract_form_data`'s nested loop over pages and widgets, inserting into
    the map in place. The result is the map of the flattened widget order.
  */
  method CollectFields(pages: seq<seq<Widget>>) returns (formData: map<string, string>)
    ensures formData == Collected(Flatten(pages))
  {
    formData := map[];
    for p := 0 to |pages|
      invariant formData == Collected(Flatten(pages[..p]))
    {
      var page := pages[p];
      ghost var before := Flatten(pages[..p]);
      assert before + page[..0] == before;
      for w := 0 to |page|
        invariant formData == Collected(before + page[..w])
      {
        var field := page[w];
        var key, val := field.name, field.value;
        if key != "" {
          formData := formData[key := val];
        }
        assert before + page[..w + 1] == (before + page[..w]) + [field];
        CollectedSnoc(before + page[..w], field);
      }
      assert page[..|page|] == page;
      FlattenSnoc(pages, p);
    }
    assert pages[..|pages|] == pages;
  }
}
