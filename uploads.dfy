/** `validate_image_file`: whether a file name carries an accepted image extension. */
module Uploads {
  import opened Strings

  const AllowedExtensions: set<string> := {"png", "jpg", "jpeg", "gif", "webp"}

  /** An extension (without its dot) that the upload accepts, in any letter case. */
  predicate ImageExtension(ext: string) {
    Lower(ext) in AllowedExtensions
  }

  /** `validate_image_file`: a dot, and after the last one an allowed extension. */
  function ValidateImageFile(filename: string): (ok: bool)
    ensures ok ==> '.' in filename
  {
    '.' in filename && ImageExtension(filename[LastIndexOf(filename, '.') + 1..])
  }
}
