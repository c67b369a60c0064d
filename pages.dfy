/** Page entries and the text the tabs show for them: the numbered tree rows and the
    count label. */
module Pages {
  import opened Text

  /** One output page: a whole image file, or one zero-based page of a PDF file. */
  datatype PageEntry = ImagePage(path: string) | PdfPage(path: string, pageIdx: nat)

  /** The two tabs: images to PDF, and page-by-page PDF merge. */
  datatype TabKind = ImagesTab | MergeTab

  /** The images tab only holds image entries, the merge tab only PDF pages. */
  predicate BelongsTo(kind: TabKind, e: PageEntry) {
    match kind
    case ImagesTab => e.ImagePage?
    case MergeTab => e.PdfPage?
  }

  /** `IMG_EXTS` and `PDF_EXTS`. */
  function AllowedExts(kind: TabKind): seq<string> {
    match kind
    case ImagesTab => [".png", ".jpg", ".jpeg", ".bmp", ".tif", ".tiff", ".webp"]
    case MergeTab => [".pdf"]
  }

  /** The row text after the number: the file's base name, and for a PDF page
      `f"{base} | pág. {page_idx + 1}"`. */
  function EntryLabel(e: PageEntry): string {
    match e
    case ImagePage(p) => Basename(p)
    case PdfPage(p, k) => Basename(p) + " | pág. " + Digits(k + 1)
  }

  /** A tree row: `f"{i + 1:03d}. {label}"`. */
  function RowLabel(i: nat, e: PageEntry): string {
    Format03d(i + 1) + (". " + EntryLabel(e))
  }

  /** The number a row label starts with. */
  function RowNumber(row: string): nat {
    DecimalValue(DigitPrefix(row))
  }

  /** Every row label starts with its one-based position. */
  lemma RowLabelNumber(i: nat, e: PageEntry)
    ensures RowNumber(RowLabel(i, e)) == i + 1
  {
    NumberedText(i + 1, ". " + EntryLabel(e));
  }

  lemma NumberedText(n: nat, tail: string)
    requires tail != [] && tail[0] == '.'
    ensures DecimalValue(DigitPrefix(Format03d(n) + tail)) == n
  {
    Format03dRoundTrip(n);
    DigitPrefixOf(Format03d(n), tail);
  }

  /** The rows `refresh_tree` inserts, one per record in record order. */
  function TreeLabels(records: seq<PageEntry>): (labels: seq<string>)
    ensures |labels| == |records|
  {
    seq(|records|, i requires 0 <= i < |records| => RowLabel(i, records[i]))
  }

  /** Row `i` carries the number `i + 1`, so no two rows share a label even when the
      same page is listed twice. */
  lemma TreeLabelsNumbered(records: seq<PageEntry>)
    ensures forall i :: 0 <= i < |records| ==> RowNumber(TreeLabels(records)[i]) == i + 1
    ensures forall i, j :: 0 <= i < j < |records| ==> TreeLabels(records)[i] != TreeLabels(records)[j]
  {
    var labels := TreeLabels(records);
    forall i | 0 <= i < |records| ensures RowNumber(labels[i]) == i + 1 {
      RowLabelNumber(i, records[i]);
    }
  }

  /** The footer: `f"{len(self.records)} imágenes"` or `f"{len(self.records)} páginas"`. */
  function CountLabel(kind: TabKind, n: nat): string {
    Digits(n) + (match kind case ImagesTab => " imágenes" case MergeTab => " páginas")
  }

  /** The footer starts with the number of records. */
  lemma CountLabelNumber(kind: TabKind, n: nat)
    ensures DecimalValue(DigitPrefix(CountLabel(kind, n))) == n
  {
    DigitsRoundTrip(n);
    DigitPrefixOf(Digits(n), match kind case ImagesTab => " imágenes" case MergeTab => " páginas");
  }
}
