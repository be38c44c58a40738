/**
 * The photo shown beside a physician or participant selection: the photo
 * field of the first row of the filtered table, with surrounding single
 * quotes removed.
 */
module Photos {
  import opened Wrappers
  import opened Text
  import opened Filters

  /** `iloc[0]` on an empty table raises instead of returning a row. */
  datatype PickError = NoFirstRow

  const Quote: char := '\''

  /**
   * No photo while the selection is "All"; otherwise the first row's photo
   * field stripped of quotes, shown only when that leaves a non-empty
   * string (an empty string is falsy).
   */
  function PickPhoto<R>(t: seq<R>, photo: R -> Option<string>, selection: string): (r: Result<Option<string>, PickError>)
    ensures r.Err? <==> selection != All && t == []
    ensures selection == All ==> r == Ok(None)
    ensures r.Ok? && r.value.Some? ==>
      && t != [] && photo(t[0]).Some?
      && r.value.value != [] && Clean(r.value.value, Quote)
      && exists left, right :: photo(t[0]).value == Repeat(Quote, left) + r.value.value + Repeat(Quote, right)
  {
    if selection == All then Ok(None)
    else if t == [] then Err(NoFirstRow)
    else
      match photo(t[0])
      case None => Ok(None)
      case Some(p) =>
        var stripped := Strip(p, Quote);
        if stripped == [] then Ok(None) else Ok(Some(stripped))
  }

  /**
   * With a first row and a selection other than "All", nothing is shown
   * exactly when the photo field is missing or holds nothing but quotes.
   */
  lemma PickPhotoHidden<R>(t: seq<R>, photo: R -> Option<string>, selection: string)
    requires selection != All && t != []
    ensures PickPhoto(t, photo, selection) == Ok(None) <==>
      photo(t[0]).None? || forall k :: 0 <= k < |photo(t[0]).value| ==> photo(t[0]).value[k] == Quote
  {
    if photo(t[0]).Some? {
      StripEmpty(photo(t[0]).value, Quote);
    }
  }

  /** A quoted URL shows as the URL itself. */
  lemma PickPhotoUnquotes<R>(t: seq<R>, photo: R -> Option<string>, selection: string, url: string)
    requires selection != All && t != []
    requires url != [] && Clean(url, Quote)
    requires photo(t[0]) == Some([Quote] + url + [Quote])
    ensures PickPhoto(t, photo, selection) == Ok(Some(url))
  {
    StripUnquotes(url, Quote, 1, 1);
    assert Repeat(Quote, 1) == [Quote];
  }

  /**
   * With only offered selections, the lookup after a selection other than
   * "All" at stage `i` never meets an empty table.
   */
  lemma OfferedPhotoIsSafe<R>(t: seq<R>, stages: seq<Stage<R>>, i: nat, photo: R -> Option<string>)
    requires Offered(t, stages) && i < |stages|
    ensures PickPhoto(Pipeline(t, stages), photo, stages[i].selection).Ok?
  {
    if stages[i].selection != All {
      OfferedNonEmpty(t, stages);
    }
  }
}
