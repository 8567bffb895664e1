/**
 * The generation state (`usePdfGenerator`): the URL of the last document and
 * whether its preview is shown. Whether composing the document succeeded, and
 * the URL the browser mints for it, are inputs; the two user-facing notices
 * are returned.
 */
module PdfGenerator {
  import opened Wrappers
  import ImageHandler

  type Url = string

  /** What composing the document and minting its URL produced. */
  datatype Generation = Generated(url: Url) | GenerationFailed

  /** The notice shown to the user, if any. */
  datatype Notice = NoNotice | NoImagesNotice | FailureNotice

  class GeneratorState {
    var pdfUrl: Option<Url>
    var showModal: bool

    /** A preview is only shown for a document that exists. */
    ghost predicate Valid()
      reads this
    {
      showModal ==> pdfUrl.Some?
    }

    constructor ()
      ensures Valid() && pdfUrl == None && !showModal
    {
      pdfUrl := None;
      showModal := false;
    }

    /**
     * `handleGeneratePdf`: with no images nothing is generated and the state
     * stays; a success stores the new URL and opens the preview; a failure
     * leaves the state as it was.
     */
    method HandleGeneratePdf(images: seq<ImageHandler.ImageRecord>, generation: Generation) returns (notice: Notice)
      requires Valid()
      modifies this
      ensures Valid()
      ensures |images| == 0 ==> notice == NoImagesNotice && pdfUrl == old(pdfUrl) && showModal == old(showModal)
      ensures |images| > 0 && generation.Generated? ==> notice == NoNotice && pdfUrl == Some(generation.url) && showModal
      ensures |images| > 0 && generation.GenerationFailed? ==>
        notice == FailureNotice && pdfUrl == old(pdfUrl) && showModal == old(showModal)
    {
      if |images| == 0 {
        return NoImagesNotice;
      }
      match generation
      case Generated(url) =>
        pdfUrl := Some(url);
        showModal := true;
        notice := NoNotice;
      case GenerationFailed =>
        notice := FailureNotice;
    }

    /** `closeModal`: hides the preview and keeps the URL. */
    method CloseModal()
      requires Valid()
      modifies this
      ensures Valid() && !showModal && pdfUrl == old(pdfUrl)
    {
      showModal := false;
    }
  }
}
