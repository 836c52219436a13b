/**
 * The PDF objects a tree node can wrap: the nine object kinds of
 * ISO 32000-1, section 7.3 (null, boolean, number, string, name, array,
 * dictionary, stream and indirect reference).
 */
module PdfObjects {
  import opened Wrappers

  /** A PDF name such as /Type, kept without its leading solidus. */
  datatype PdfName = PdfName(name: string)

  /**
   * A PDF object. A stream carries the dictionary that precedes its data,
   * just as the library's stream class extends its dictionary class; both
   * expose that dictionary as `entries`.
   */
  datatype PdfObject =
    | PdfNull
    | PdfBoolean(truth: bool)
    | PdfNumber(numeral: real)
    | PdfString(text: seq<bv8>)
    | Name(pdfName: PdfName)
    | PdfArray(elements: seq<PdfObject>)
    | PdfDictionary(entries: map<PdfName, PdfObject>)
    | PdfStream(entries: map<PdfName, PdfObject>, data: seq<bv8>)
    | IndirectReference(number: int, generation: int)

  const TYPE := PdfName("Type")
  const PAGE := PdfName("Page")
  const PAGES := PdfName("Pages")

  /** Objects whose static type is the library's dictionary class: dictionaries and streams. */
  predicate IsDictionaryLike(o: PdfObject) {
    o.PdfDictionary? || o.PdfStream?
  }

  /** The dictionary lookup: the value stored under `key`, or None (Java null) when it is absent. */
  function Get(entries: map<PdfName, PdfObject>, key: PdfName): Option<PdfObject> {
    if key in entries then Some(entries[key]) else None
  }
}
