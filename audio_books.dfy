/** The public audio list: its 0-based page stepped by the previous and next buttons,
    and the numbered page buttons. Durations are shown with `AdminAudio.FormatDuration`,
    the same formatter as on the admin page. */
module AudioBooks {
  import opened Decimal
  import opened JsText

  /** The page buttons, shown when there is more than one page: button `i` selects
      page `i` and is labelled `i + 1`. */
  function PageButtons(totalPages: nat): (r: seq<(int, string)>)
    ensures |r| == totalPages
    ensures forall i :: 0 <= i < |r| ==> r[i].0 == i
    ensures forall i :: 0 <= i < |r| ==> AllDigits(r[i].1) && DecimalValue(r[i].1) == i + 1
  {
    seq(totalPages, i requires 0 <= i => (i, LabelOf(i)))
  }

  /** The label `{i + 1}` of button `i`. */
  function LabelOf(i: nat): (r: string)
    ensures AllDigits(r) && DecimalValue(r) == i + 1
  {
    NumberToString(i + 1)
  }

  /** The page state: `page` and the `totalPages` of the last answer. */
  class AudioPager {
    var page: int
    var totalPages: int

    constructor ()
      ensures page == 0 && totalPages == 0
    {
      page := 0;
      totalPages := 0;
    }

    /** The buttons are rendered only when there is more than one page. */
    predicate Shown()
      reads this
    {
      totalPages > 1
    }

    predicate InRange()
      reads this
    {
      0 <= page < totalPages
    }

    /** The previous button, disabled on page 0: one page back. */
    method Previous()
      requires Shown() && page != 0
      modifies this
      ensures totalPages == old(totalPages) && page == old(page) - 1
      ensures old(InRange()) ==> InRange()
    {
      page := page - 1;
    }

    /** The next button, disabled on the last page: one page on. */
    method Next()
      requires Shown() && page != totalPages - 1
      modifies this
      ensures totalPages == old(totalPages) && page == old(page) + 1
      ensures old(InRange()) ==> InRange()
    {
      page := page + 1;
    }

    /** A numbered button: that page. */
    method Select(i: int)
      requires Shown() && 0 <= i < totalPages
      modifies this
      ensures totalPages == old(totalPages) && page == i && InRange()
    {
      page := i;
    }
  }
}
