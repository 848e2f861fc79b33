/** The text drawn on a wheel slice: long entry names are cut so that they fit the slice. */
module WheelLabel {

  /** Longest name drawn in full. */
  const MAX_LABEL: nat := 8
  /** Characters kept from a name that is too long. */
  const KEPT: nat := 7
  /** HORIZONTAL ELLIPSIS, appended after the kept characters. */
  const ELLIPSIS: char := '\U{2026}'

  /** The label drawn for an entry name: never longer than MAX_LABEL, the name itself when it
      fits, and otherwise a proper prefix of the name closed by an ellipsis. */
  function Label(text: string): (r: string)
    ensures |r| <= MAX_LABEL
    ensures |text| <= MAX_LABEL <==> r == text
    ensures r != text ==> |r| == MAX_LABEL && r[..|r| - 1] < text && r[|r| - 1] == ELLIPSIS
  {
    if |text| > MAX_LABEL then text[..KEPT] + [ELLIPSIS] else text
  }

  /** A label is drawn unchanged when it is labelled again. */
  lemma LabelIdempotent(text: string)
    ensures Label(Label(text)) == Label(text)
  {
  }

  /** Two names that share their first KEPT characters and are both too long get the same
      label: the cut loses information. */
  lemma LongNamesCollide(a: string, b: string)
    requires |a| > MAX_LABEL && |b| > MAX_LABEL
    requires a[..KEPT] == b[..KEPT]
    ensures Label(a) == Label(b)
  {
  }
}
