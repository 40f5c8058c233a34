/**
  The file locator: choose, from a directory listing, the first entry whose
  lower-cased name ends in ".pdf". The listing is an input; an empty result
  stands for the "no PDF" message and the process exit.
*/
module Locator {
  import opened Wrappers
  import opened Strings

  /** `file.lower().endswith('.pdf')`. */
  predicate IsPdfName(name: string)
  {
    EndsWith(ToLower(name), ".pdf")
  }

  /** The test accepts exactly the names whose last four characters spell ".pdf" in any letter case. */
  lemma IsPdfNameCharacters(name: string)
    ensures IsPdfName(name) <==>
      && |name| >= 4
      && name[|name| - 4] == '.'
      && name[|name| - 3] in "pP"
      && name[|name| - 2] in "dD"
      && name[|name| - 1] in "fF"
  {
    var low := ToLower(name);
    var n := |name|;
    if n >= 4 {
      var tail := low[n - 4..];
      assert tail == [low[n - 4], low[n - 3], low[n - 2], low[n - 1]];
      assert low[n - 3] == 'p' <==> name[n - 3] in "pP";
      assert low[n - 2] == 'd' <==> name[n - 2] in "dD";
      assert low[n - 1] == 'f' <==> name[n - 1] in "fF";
    }
  }

  /**
    `select_pdf_from_directory`: the loop over the listing with its early
    return. The chosen name is the first one that passes the test, and there
    is no result exactly when no entry passes it.
  */
  method SelectPdf(listing: seq<string>) returns (r: Option<string>)
    ensures r.None? <==> forall i :: 0 <= i < |listing| ==> !IsPdfName(listing[i])
    ensures r.Some? ==>
      exists i :: 0 <= i < |listing| && listing[i] == r.value && IsPdfName(listing[i]) &&
        forall j :: 0 <= j < i ==> !IsPdfName(listing[j])
  {
    for i := 0 to |listing|
      invariant forall j :: 0 <= j < i ==> !IsPdfName(listing[j])
    {
      var file := listing[i];
      if IsPdfName(file) {
        return Some(file);
      }
    }
    return None;
  }
}
