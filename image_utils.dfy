/**
 * Checks on image references (a data URL, an absolute URL or a site path)
 * and on image files picked for upload.
 */
module ImageUtils {
  import opened Wrappers
  import opened Http
  import Text
  import Base64

  const DATA_IMAGE_PREFIX: string := "data:image/"

  /** `isBase64Image`: a non-empty string that starts with 'data:image/'.
      The prefix alone decides, since it is itself non-empty. */
  function IsBase64Image(url: Option<string>): (b: bool)
    ensures b <==> url.Some? && DATA_IMAGE_PREFIX <= url.value
  {
    IsText(url) && Text.StartsWith(url.value, DATA_IMAGE_PREFIX)
  }

  /** `isValidImageUrl`: a data image URL, an http or https URL, or a path
      on the site. */
  function IsValidImageUrl(url: Option<string>): (b: bool)
    ensures b <==> url.Some? && (DATA_IMAGE_PREFIX <= url.value || "http://" <= url.value
                                 || "https://" <= url.value || "/" <= url.value)
  {
    if !IsText(url) then false
    else if Text.StartsWith(url.value, DATA_IMAGE_PREFIX) then true
    else Text.StartsWith(url.value, "http://") || Text.StartsWith(url.value, "https://")
         || Text.StartsWith(url.value, "/")
  }

  /** Every data image URL is a valid image URL. */
  lemma Base64ImageIsValid(url: Option<string>)
    ensures IsBase64Image(url) ==> IsValidImageUrl(url)
  {
  }

  /** `getImageDisplayUrl`: the reference itself when valid, null otherwise. */
  function ImageDisplayUrl(url: Option<string>): (r: Option<string>)
    ensures r.Some? <==> IsValidImageUrl(url)
    ensures r.Some? ==> r == url && r.value != ""
  {
    if !IsValidImageUrl(url) then None else url
  }

  /** Applying it to its own output changes nothing. */
  lemma ImageDisplayUrlIdempotent(url: Option<string>)
    ensures ImageDisplayUrl(ImageDisplayUrl(url)) == ImageDisplayUrl(url)
  {
  }

  /** The five MIME types the site accepts. */
  const ALLOWED_TYPES: seq<string> := ["image/jpeg", "image/jpg", "image/png", "image/gif", "image/webp"]

  /** 5 MiB. */
  const MAX_SIZE: nat := 5 * 1024 * 1024

  const TYPE_ERROR: string := "Invalid file type. Only JPEG, PNG, GIF, and WebP images are allowed."
  const SIZE_ERROR: string := "File too large. Maximum size is 5MB."

  /** Every allowed type is an image type. */
  lemma AllowedTypesAreImages(t: string)
    requires t in ALLOWED_TYPES
    ensures "image/" <= t
  {
  }

  /** A file as the browser hands it over: a name, a MIME type and its bytes. */
  datatype File = File(name: string, mimeType: string, bytes: seq<Base64.Byte>) {
    function Size(): nat { |bytes| }
  }

  datatype Validation = Validation(valid: bool, error: Option<string>)

  /** `validateImageFile`: valid exactly when the type is one of the five
      and the size is at most 5 MiB; the type is checked first, so a wrong
      type is reported even for an oversized file. */
  function ValidateImageFile(file: File): (v: Validation)
    ensures v.valid <==> file.mimeType in ALLOWED_TYPES && file.Size() <= 5242880
    ensures file.mimeType !in ALLOWED_TYPES ==> v.error == Some(TYPE_ERROR)
    ensures file.mimeType in ALLOWED_TYPES && file.Size() > MAX_SIZE ==> v.error == Some(SIZE_ERROR)
    ensures v.valid ==> v.error.None?
  {
    if file.mimeType !in ALLOWED_TYPES then Validation(false, Some(TYPE_ERROR))
    else if file.Size() > MAX_SIZE then Validation(false, Some(SIZE_ERROR))
    else Validation(true, None)
  }
}
