/**
 * The image intake list (`useImageHandler`): picked files are filtered by
 * type and appended, entries are removed by position, and the list is cleared.
 * The browser's object URLs are opaque tokens carried by the files; the
 * user-facing warning is a returned flag.
 */
module ImageHandler {
  import opened Wrappers
  import Mime
  import Composer
  import ComposerProperties

  type Url = string

  /** A picked file: its declared type and the object URL minted for it. */
  datatype File = File(mime: string, url: Url)

  /** An entry of the image list. */
  datatype ImageRecord = ImageRecord(url: Url, mime: string)

  /** The files whose type is allowed, in their original order. */
  function AllowedFiles(files: seq<File>): (r: seq<File>)
    ensures |r| <= |files|
    ensures forall k :: 0 <= k < |r| ==> Mime.IntakeAllowed(r[k].mime)
  {
    if files == [] then []
    else
      var rest := AllowedFiles(files[1..]);
      if Mime.IntakeAllowed(files[0].mime) then [files[0]] + rest else rest
  }

  /** One list entry per file, keeping its URL and type. */
  function Records(files: seq<File>): (r: seq<ImageRecord>)
    ensures |r| == |files|
    ensures forall k :: 0 <= k < |r| ==> r[k].url == files[k].url && r[k].mime == files[k].mime
  {
    seq(|files|, k requires 0 <= k < |files| => ImageRecord(files[k].url, files[k].mime))
  }

  predicate AllAllowed(images: seq<ImageRecord>) {
    forall k :: 0 <= k < |images| ==> Mime.IntakeAllowed(images[k].mime)
  }

  /** The list without the entry at position `index`, as a filter on positions. */
  function RemoveAt(images: seq<ImageRecord>, index: int): (r: seq<ImageRecord>)
    ensures |r| == if 0 <= index < |images| then |images| - 1 else |images|
    ensures forall k :: 0 <= k < |r| ==> r[k] in images
  {
    if images == [] then []
    else
      var last := |images| - 1;
      RemoveAt(images[..last], index) + (if last == index then [] else [images[last]])
  }

  // ---------------------------------------------------------------------------
  // The filter

  /** Filtering commutes with concatenation: what is kept keeps its relative order. */
  lemma {:induction false} AllowedFilesConcat(a: seq<File>, b: seq<File>)
    ensures AllowedFiles(a + b) == AllowedFiles(a) + AllowedFiles(b)
  {
    if a != [] {
      assert (a + b)[0] == a[0] && (a + b)[1..] == a[1..] + b;
      AllowedFilesConcat(a[1..], b);
    } else {
      assert a + b == b;
    }
  }

  /** A file is kept exactly when it is among the files and its type is allowed. */
  lemma {:induction false} AllowedFilesMembers(files: seq<File>, x: File)
    ensures x in AllowedFiles(files) <==> x in files && Mime.IntakeAllowed(x.mime)
  {
    if files != [] {
      AllowedFilesMembers(files[1..], x);
      assert files == [files[0]] + files[1..];
    }
  }

  /** Some file is dropped exactly when some file has a type that is not allowed. */
  lemma {:induction false} DroppedIffRejected(files: seq<File>)
    ensures |AllowedFiles(files)| < |files| <==> exists k :: 0 <= k < |files| && !Mime.IntakeAllowed(files[k].mime)
  {
    if files != [] {
      DroppedIffRejected(files[1..]);
      if exists k :: 0 <= k < |files[1..]| && !Mime.IntakeAllowed(files[1..][k].mime) {
        var k :| 0 <= k < |files[1..]| && !Mime.IntakeAllowed(files[1..][k].mime);
        assert files[k + 1] == files[1..][k];
      }
      if exists k :: 0 <= k < |files| && !Mime.IntakeAllowed(files[k].mime) {
        var k :| 0 <= k < |files| && !Mime.IntakeAllowed(files[k].mime);
        if k > 0 {
          assert files[1..][k - 1] == files[k];
        }
      }
    }
  }

  /** Removing by position deletes exactly the entry at `index`; an index outside the list changes nothing. */
  lemma {:induction false} RemoveAtIs(images: seq<ImageRecord>, index: int)
    ensures RemoveAt(images, index) ==
      if 0 <= index < |images| then images[..index] + images[index + 1..] else images
  {
    if images != [] {
      var last := |images| - 1;
      RemoveAtIs(images[..last], index);
      if 0 <= index < last {
        assert images[..last][..index] + images[..last][index + 1..] + [images[last]]
          == images[..index] + images[index + 1..];
      } else if index == last {
        assert images[..last][..index] == images[..index];
      } else {
        assert images[..last] + [images[last]] == images;
      }
    }
  }

  /**
   * Every entry the intake list can hold is placed by the composer: when the
   * composer's inputs carry the list's types, the k-th placement is of entry k.
   */
  lemma StoredImagesAllPlaced(stored: seq<ImageRecord>, images: seq<Composer.Image>)
    requires AllAllowed(stored)
    requires |images| == |stored| && forall k :: 0 <= k < |images| ==> images[k].mime == stored[k].mime
    ensures |Composer.PlacedIn(images, |images|)| == |images|
    ensures forall k :: 0 <= k < |images| ==> Composer.PlacedIn(images, |images|)[k] == k
  {
    forall i | 0 <= i < |images|
      ensures Mime.Embeddable(images[i].mime)
    {
      Mime.IntakeAllowedIsEmbeddable(images[i].mime);
    }
    ComposerProperties.PlacedAll(images, |images|);
  }

  // ---------------------------------------------------------------------------
  // The list held in state

  class ImageList {
    var images: seq<ImageRecord>

    /** Every stored type is allowed. */
    ghost predicate Valid()
      reads this
    {
      AllAllowed(images)
    }

    constructor ()
      ensures Valid() && images == []
    {
      images := [];
    }

    /**
     * `handleFileChange`: no file list changes nothing; otherwise the allowed
     * files are appended in their order, and the warning is raised when some
     * file was turned away.
     */
    method HandleFileChange(files: Option<seq<File>>) returns (warned: bool)
      requires Valid()
      modifies this
      ensures Valid()
      ensures files.None? ==> images == old(images) && !warned
      ensures files.Some? ==> images == old(images) + Records(AllowedFiles(files.value))
      ensures files.Some? ==> (warned <==> exists k :: 0 <= k < |files.value| && !Mime.IntakeAllowed(files.value[k].mime))
    {
      if files.None? {
        return false;
      }
      var fileArray := AllowedFiles(files.value);
      warned := |fileArray| < |files.value|;
      DroppedIffRejected(files.value);
      var imageObjs := Records(fileArray);
      images := images + imageObjs;
    }

    /** `removeImage`: the entry at `index` goes, the others keep their order. */
    method RemoveImage(index: int)
      requires Valid()
      modifies this
      ensures Valid()
      ensures 0 <= index < |old(images)| ==> images == old(images)[..index] + old(images)[index + 1..]
      ensures !(0 <= index < |old(images)|) ==> images == old(images)
      ensures |images| == if 0 <= index < |old(images)| then |old(images)| - 1 else |old(images)|
    {
      RemoveAtIs(images, index);
      images := RemoveAt(images, index);
    }

    /** `clearImages`. */
    method ClearImages()
      modifies this
      ensures Valid() && images == []
    {
      images := [];
    }
  }
}
