/** The image types the composer can embed and the types the intake list accepts. */
module Mime {
  import opened Wrappers

  const Jpeg: string := "image/jpeg"
  const Jpg: string := "image/jpg"
  const Png: string := "image/png"

  /** The two embedders the document library offers. */
  datatype Format = JpegFormat | PngFormat

  /** The composer's dispatch on the declared type: JPEG for `image/jpeg` and `image/jpg`, PNG for `image/png`. */
  function FormatOf(mime: string): (f: Option<Format>)
    ensures f == Some(JpegFormat) <==> mime == Jpeg || mime == Jpg
    ensures f == Some(PngFormat) <==> mime == Png
  {
    if mime == Jpeg || mime == Jpg then Some(JpegFormat)
    else if mime == Png then Some(PngFormat)
    else None
  }

  /** A type the composer places; every other type is skipped. */
  predicate Embeddable(mime: string) {
    FormatOf(mime).Some?
  }

  /** The intake list's allowed types, in the order the intake code lists them. */
  const AllowedTypes: seq<string> := [Jpeg, Png, Jpg]

  predicate IntakeAllowed(mime: string) {
    mime in AllowedTypes
  }

  /** The intake filter admits exactly the types the composer embeds, so nothing accepted is later skipped. */
  lemma IntakeAllowedIsEmbeddable(mime: string)
    ensures IntakeAllowed(mime) <==> Embeddable(mime)
  {
  }
}
