/**
 * The upload route: an image file picked in the browser comes back as a
 * `data:` URL carrying its bytes in base 64, or as a 400 with the reason.
 */
module Upload {
  import opened Wrappers
  import opened Http
  import Base64
  import ImageUtils

  const NO_FILE_ERROR: string := "No file uploaded"
  const TYPE_ERROR: string := "Invalid file type. Only images are allowed."
  const SIZE_ERROR: string := "File too large. Maximum size is 5MB."

  datatype Outcome =
    | Rejected(status: int, error: string)
    | Uploaded(imageUrl: string, fileName: string, fileSize: nat, fileType: string)

  /** The data URL of a file: its type, then its bytes in base 64. */
  function DataUrl(mimeType: string, bytes: seq<Base64.Byte>): string {
    "data:" + mimeType + ";base64," + Base64.Encode(bytes)
  }

  /** `POST /api/upload`: a missing file, then the type, then the size are
      checked, each with its own 400; an accepted file comes back as a data
      URL with its name, size and type echoed. */
  function Upload(file: Option<ImageUtils.File>): (r: Outcome)
    ensures file.None? ==> r == Rejected(BAD_REQUEST, NO_FILE_ERROR)
    ensures file.Some? && file.value.mimeType !in ImageUtils.ALLOWED_TYPES ==> r == Rejected(BAD_REQUEST, TYPE_ERROR)
    ensures file.Some? && file.value.mimeType in ImageUtils.ALLOWED_TYPES && file.value.Size() > ImageUtils.MAX_SIZE
            ==> r == Rejected(BAD_REQUEST, SIZE_ERROR)
    ensures r.Uploaded? <==> file.Some? && ImageUtils.ValidateImageFile(file.value).valid
    ensures r.Uploaded? ==> r.fileName == file.value.name && r.fileSize == file.value.Size()
                            && r.fileType == file.value.mimeType
                            && r.imageUrl == DataUrl(file.value.mimeType, file.value.bytes)
                            && ImageUtils.IsBase64Image(Some(r.imageUrl))
  {
    match file
    case None => Rejected(BAD_REQUEST, NO_FILE_ERROR)
    case Some(f) =>
      if f.mimeType !in ImageUtils.ALLOWED_TYPES then Rejected(BAD_REQUEST, TYPE_ERROR)
      else if f.Size() > ImageUtils.MAX_SIZE then Rejected(BAD_REQUEST, SIZE_ERROR)
      else
        ImageUtils.AllowedTypesAreImages(f.mimeType);
        Uploaded(DataUrl(f.mimeType, f.bytes), f.name, f.Size(), f.mimeType)
  }

  /** The part of a data URL after its `;base64,` header. */
  function Payload(mimeType: string, url: string): string
    requires |url| >= |mimeType| + 13
  {
    url[|mimeType| + 13..]
  }

  /** The data URL of an accepted upload carries the file back: what follows
      the header decodes to exactly the bytes uploaded. */
  lemma UploadKeepsBytes(file: ImageUtils.File)
    requires ImageUtils.ValidateImageFile(file).valid
    ensures var r := Upload(Some(file));
      r.Uploaded? && |r.imageUrl| >= |file.mimeType| + 13
      && var p := Payload(file.mimeType, r.imageUrl);
         |p| % 4 == 0 && Base64.IsEncodingText(p) && Base64.Decode(p) == file.bytes
  {
    var url := Upload(Some(file)).imageUrl;
    var e := Base64.Encode(file.bytes);
    assert url == ("data:" + file.mimeType + ";base64,") + e;
    assert url[|file.mimeType| + 13..] == e;
    Base64.EncodeIsText(file.bytes);
    Base64.DecodeEncode(file.bytes);
  }
}
