/** `validateImageFile`: the checks an upload must pass, in a fixed order, each
    with its own error message. */
module Storage {
  import opened Text

  /** `MAX_FILE_SIZE`, 5 MB. */
  const MaxFileSize := 5242880

  /** `validImageExtensions`. */
  const ValidImageExtensions: seq<string> := ["jpg", "jpeg", "png", "gif", "webp"]

  /** The browser's `File`: its mime type, its size in bytes and its name. */
  datatype FileInfo = FileInfo(mimeType: string, size: nat, name: string)

  /** The three reasons a file is refused. */
  datatype FileError = NotAnImage | TooLarge | InvalidType

  /** The `StorageError` message thrown for each reason. */
  function Message(e: FileError): (m: string)
    ensures |m| > 0
  {
    match e
    case NotAnImage => "Please upload an image file"
    case TooLarge => "File size must be less than 5MB"
    case InvalidType => "Invalid file type. Please upload a JPG, PNG, GIF, or WebP image."
  }

  /** Each reason has its own message. */
  lemma MessagesDistinct(e1: FileError, e2: FileError)
    ensures Message(e1) == Message(e2) <==> e1 == e2
  {
  }

  /** The outcome of the promise: resolved, or rejected with a `StorageError`. */
  datatype Check = Pass | Fail(error: FileError)

  /** `file.type.startsWith('image/')`: the type is `image/` followed by a subtype. */
  predicate IsImageType(mimeType: string): (b: bool)
    ensures b <==> exists subtype :: mimeType == "image/" + subtype
  {
    if StartsWith(mimeType, "image/") then
      assert mimeType == "image/" + mimeType[6..];
      true
    else false
  }

  /** `file.name.split('.').pop()?.toLowerCase()`. */
  function Extension(name: string): (ext: string)
    ensures '.' !in ext && |ext| <= |name|
  {
    ToLowerKeepsDots(AfterLastDot(name));
    ToLower(AfterLastDot(name))
  }

  /** `fileExt && validImageExtensions.includes(fileExt)`: the extension
      lowercases to one of the five. */
  predicate ExtensionAllowed(name: string): (b: bool)
    ensures b <==> Extension(name) in {"jpg", "jpeg", "png", "gif", "webp"}
  {
    var ext := Extension(name);
    ext != "" && ext in ValidImageExtensions
  }

  function ValidateImageFile(f: FileInfo): (c: Check)
    ensures c == Pass <==> IsImageType(f.mimeType) && f.size <= MaxFileSize && ExtensionAllowed(f.name)
  {
    if !IsImageType(f.mimeType) then Fail(NotAnImage)
    else if f.size > MaxFileSize then Fail(TooLarge)
    else if !ExtensionAllowed(f.name) then Fail(InvalidType)
    else Pass
  }

  /** The first failing check, in the order type, size, extension, decides the error. */
  lemma FirstFailureDecides(f: FileInfo)
    ensures !IsImageType(f.mimeType) ==> ValidateImageFile(f) == Fail(NotAnImage)
    ensures IsImageType(f.mimeType) && f.size > MaxFileSize ==> ValidateImageFile(f) == Fail(TooLarge)
    ensures IsImageType(f.mimeType) && f.size <= MaxFileSize && !ExtensionAllowed(f.name)
            ==> ValidateImageFile(f) == Fail(InvalidType)
  {
  }

  /** The type check runs first: whatever the size and the name, a non-image
      mime type gets the "Please upload an image file" message. */
  lemma TypeCheckFirst(mimeType: string, size: nat, name: string)
    requires !IsImageType(mimeType)
    ensures ValidateImageFile(FileInfo(mimeType, size, name)) == Fail(NotAnImage)
    ensures Message(ValidateImageFile(FileInfo(mimeType, size, name)).error) == "Please upload an image file"
  {
  }

  /** The size ceiling is inclusive: exactly 5242880 bytes passes it, one more does not. */
  lemma SizeBoundary(mimeType: string, name: string)
    requires IsImageType(mimeType)
    ensures ValidateImageFile(FileInfo(mimeType, MaxFileSize, name)) != Fail(TooLarge)
    ensures ValidateImageFile(FileInfo(mimeType, MaxFileSize + 1, name)) == Fail(TooLarge)
  {
  }

  /** The extension is the lowercased text after the LAST dot. */
  lemma {:induction false} ExtensionOfDottedName(stem: string, ext: string)
    requires '.' !in ext
    ensures Extension(stem + "." + ext) == ToLower(ext)
  {
    AfterLastDotOfJoin(stem, ext);
  }

  /** A name without a dot is its own extension. */
  lemma ExtensionOfDotlessName(name: string)
    requires '.' !in name
    ensures Extension(name) == ToLower(name)
  {
    assert name[|name| - |name|..] == name;
    AfterLastDotUnique(name, name);
  }

  /** `a.b.JPG` has extension `jpg` and is accepted. */
  lemma MultiDotUppercaseAccepted()
    ensures Extension("a.b.JPG") == "jpg"
    ensures ValidateImageFile(FileInfo("image/jpeg", 1000, "a.b.JPG")) == Pass
  {
    ExtensionOfDottedName("a.b", "JPG");
    assert "a.b" + "." + "JPG" == "a.b.JPG";
  }

  /** A name ending in `.` has an empty extension and is refused with the
      "Invalid file type" message. */
  lemma TrailingDotRejected(mimeType: string, size: nat, stem: string)
    requires IsImageType(mimeType) && size <= MaxFileSize
    ensures Extension(stem + ".") == ""
    ensures ValidateImageFile(FileInfo(mimeType, size, stem + ".")) == Fail(InvalidType)
  {
    ExtensionOfDottedName(stem, "");
    assert stem + "." + "" == stem + ".";
  }

  /** A file named `PNG` passes: with no dot the whole name is the extension. */
  lemma DotlessNamePasses()
    ensures ValidateImageFile(FileInfo("image/png", 10, "PNG")) == Pass
  {
    var name := "PNG";
    assert '.' !in name;
    ExtensionOfDotlessName(name);
    var lower := ToLower(name);
    assert lower[0] == 'p' && lower[1] == 'n' && lower[2] == 'g';
    assert lower == "png";
    assert "image/png"[..6] == "image/";
  }
}
