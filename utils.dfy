/** The upload validation helpers of app/utils.py: the size ceiling and the
    file-type check. */
module Utils {
  import opened Wrappers

  /** One byte of an uploaded file's contents. */
  newtype byte = b: int | 0 <= b < 256

  const KB: nat := 1024
  const MB: nat := 1024 * KB
  /** The largest accepted upload, in bytes (200 MiB). */
  const MaxFileSize: nat := 200 * MB

  /** The MIME type `is_pdf` compares against. */
  const PdfMimeType: string := "application/pdf"

  /** A MIME type guesser in the role of `mimetypes.guess_type`: it sees the
      file name only and may have no guess. */
  type MimeGuesser = string -> Option<string>

  /** `file_size_within_bounds`: the contents fit under the ceiling. */
  predicate FileSizeWithinBounds(contents: seq<byte>)
  {
    |contents| <= MaxFileSize
  }

  /** `is_pdf`: the type guessed from the file name is exactly the PDF type.
      The bytes of the file play no part. */
  predicate IsPdf(guessType: MimeGuesser, filename: string)
  {
    guessType(filename) == Some(PdfMimeType)
  }

  lemma MaxFileSizeIs200MiB()
    ensures MaxFileSize == 209715200
  {
  }

  /** Exactly 200 MiB passes; one byte more fails. */
  lemma SizeCeilingIsInclusive(contents: seq<byte>)
    ensures |contents| == MaxFileSize ==> FileSizeWithinBounds(contents)
    ensures |contents| == MaxFileSize + 1 ==> !FileSizeWithinBounds(contents)
    ensures FileSizeWithinBounds(contents) <==> |contents| <= 209715200
  {
  }

  /** Anything shorter than an accepted upload is accepted too. */
  lemma SizeCheckMonotone(shorter: seq<byte>, longer: seq<byte>)
    requires |shorter| <= |longer|
    requires FileSizeWithinBounds(longer)
    ensures FileSizeWithinBounds(shorter)
  {
  }

  /** A `.txt` name, which the guesser classifies as `text/plain`, is
      rejected. */
  lemma TextFileRejected(guessType: MimeGuesser, filename: string)
    requires guessType(filename) == Some("text/plain")
    ensures !IsPdf(guessType, filename)
  {
  }
}
