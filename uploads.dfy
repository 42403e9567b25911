/**
  Which image files the 3D-generation server accepts: the upload filename
  check `allowed_file` (hugging-face-server/app.py, lines 22 and 31-32), the
  order of checks on an uploaded file (lines 102-111), and the extension the
  URL route derives for a downloaded image (lines 191-193).
*/
module Uploads {
  import opened Wrappers
  import opened PyStr

  /** `ALLOWED_EXTENSIONS`: the image types the server takes. */
  const AllowedExtensions: set<string> := {"png", "jpg", "jpeg", "webp"}

  /** Every allowed extension is lower case and free of `.` and `?`, and at most four characters long. */
  lemma AllowedExtensionShape(ext: string)
    requires ext in AllowedExtensions
    ensures IsLower(ext) && '.' !in ext && '?' !in ext && 3 <= |ext| <= 4
  {
  }

  // ---------------------------------------------------------------------------
  // allowed_file

  /**
    `allowed_file(filename)`: the name holds a `.` and the lower-cased text after
    its last `.` is an allowed extension.
  */
  function AllowedFile(filename: string): (ok: bool)
    ensures ok ==> '.' in filename
    ensures ok ==> 4 <= |filename|
  {
    '.' in filename && Lower(AfterLast(filename, '.')) in AllowedExtensions
  }

  /**
    Only the last suffix decides: for any stem, `stem.ext` (with no `.` in `ext`)
    is accepted exactly when `ext`, lower-cased, is one of the four names.
  */
  lemma AllowedFileByParts(stem: string, ext: string)
    requires '.' !in ext
    ensures AllowedFile(stem + "." + ext) <==>
      Lower(ext) == "png" || Lower(ext) == "jpg" || Lower(ext) == "jpeg" || Lower(ext) == "webp"
  {
    var name := stem + "." + ext;
    assert name == stem + ['.'] + ext;
    AfterLastOfJoin(stem, '.', ext);
    assert name[|stem|] == '.';
  }

  /** A filename has an allowed last suffix: some `.` in it is the last one and is followed by an allowed extension. */
  ghost predicate HasAllowedLastSuffix(filename: string) {
    exists i :: 0 <= i < |filename| && filename[i] == '.' && '.' !in filename[i + 1..]
      && Lower(filename[i + 1..]) in AllowedExtensions
  }

  /** An accepted name has an allowed last suffix. */
  lemma AllowedFileHasSuffix(filename: string)
    requires AllowedFile(filename)
    ensures HasAllowedLastSuffix(filename)
  {
    var r := AfterLast(filename, '.');
    assert |r| < |filename|;
    var i := |filename| - |r| - 1;
    assert filename[i + 1..] == r;
    assert filename[i] == '.';
  }

  /** A name with an allowed last suffix is accepted. */
  lemma SuffixMakesAllowedFile(filename: string, i: int)
    requires 0 <= i < |filename| && filename[i] == '.' && '.' !in filename[i + 1..]
    requires Lower(filename[i + 1..]) in AllowedExtensions
    ensures AllowedFile(filename)
  {
    var t := filename[i + 1..];
    assert filename[|filename| - |t|..] == t;
    AfterLastUnique(filename, '.', t);
    assert '.' in filename;
  }

  /** `AllowedFile` agrees with the position-based reading of the rule, in both directions. */
  lemma AllowedFileMeansSuffix(filename: string)
    ensures AllowedFile(filename) <==> HasAllowedLastSuffix(filename)
  {
    if AllowedFile(filename) {
      AllowedFileHasSuffix(filename);
    }
    if HasAllowedLastSuffix(filename) {
      var i :| 0 <= i < |filename| && filename[i] == '.' && '.' !in filename[i + 1..]
        && Lower(filename[i + 1..]) in AllowedExtensions;
      SuffixMakesAllowedFile(filename, i);
    }
  }

  /** Changing the case of any letter of the name, extension included, never changes the verdict. */
  lemma AllowedFileIgnoresCase(a: string, b: string)
    requires Lower(a) == Lower(b)
    ensures AllowedFile(a) == AllowedFile(b)
  {
    LowerKeepsNonLetter(a, '.');
    LowerKeepsNonLetter(b, '.');
    AfterLastLower(a, '.');
    AfterLastLower(b, '.');
  }

  // The examples below write a name as `stem + "." + suffix` so that its last `.` is plain to see.

  /** `a.b.png` is accepted: an inner `.` does not matter when the last suffix is allowed. */
  lemma AllowedFileInnerDotExample()
    ensures AllowedFile("a.b" + "." + "png")
  {
    AllowedExtensionNameAllowed("a.b", "png");
  }

  /** `x.png.exe` is refused: an earlier `.png` does not rescue a name whose last suffix is not allowed. */
  lemma AllowedFileLastSuffixExample()
    ensures !AllowedFile("x.png" + "." + "exe")
  {
    AllowedFileByParts("x.png", "exe");
  }

  /** `file.` is refused: a trailing `.` leaves an empty suffix. */
  lemma AllowedFileEmptySuffixExample()
    ensures !AllowedFile("file" + "." + "")
  {
    AllowedFileByParts("file", "");
  }

  /** `png` is refused: a name without `.` fails even when it spells an extension. */
  lemma AllowedFileNoDotExample()
    ensures !AllowedFile("png")
  {
  }

  /** `.webp` is accepted: the stem may be empty. */
  lemma AllowedFileNoStemExample()
    ensures AllowedFile("" + "." + "webp")
  {
    AllowedExtensionNameAllowed("", "webp");
  }

  /** `photo.JPEG` is accepted: the suffix is compared lower-cased. */
  lemma AllowedFileUpperCaseExample()
    ensures AllowedFile("photo" + "." + "JPEG")
  {
    assert Lower("JPEG") == "jpeg" by {
      assert LowerChar('J') == 'j' && LowerChar('P') == 'p' && LowerChar('E') == 'e' && LowerChar('G') == 'g';
    }
    AllowedFileByParts("photo", "JPEG");
  }

  // ---------------------------------------------------------------------------
  // Checks on an uploaded file

  /** What the upload route decides about the `file` part of a request, before any work is done. */
  datatype UploadVerdict =
    | NoFileProvided           // no `file` part: 400 "No file provided"
    | NoFileSelected           // empty filename: 400 "No file selected"
    | FileTypeNotAllowed       // `allowed_file` refused it: 400 "File type not allowed"
    | Accepted(filename: string)

  /** The upload route's checks, in the source's order; `file` is the filename of the `file` part, if any. */
  function CheckUpload(file: Option<string>): (v: UploadVerdict)
    ensures v.Accepted? <==> file.Some? && AllowedFile(file.value)
    ensures v.Accepted? ==> v.filename == file.value
    ensures v == NoFileProvided <==> file.None?
    ensures v == NoFileSelected <==> file == Some("")
  {
    match file
    case None => NoFileProvided
    case Some(name) =>
      if name == "" then NoFileSelected
      else if !AllowedFile(name) then FileTypeNotAllowed
      else Accepted(name)
  }

  // ---------------------------------------------------------------------------
  // Extension of an image fetched by URL

  /**
    `image_url.split(".")[-1].split("?")[0][:4]`: the text after the URL's last
    `.`, cut at its first `?`, cut to four characters.
  */
  function RawUrlExtension(url: string): (e: string)
    ensures |e| <= 4 && '?' !in e && '.' !in e
    ensures e <= AfterLast(url, '.')
  {
    var afterDot := AfterLast(url, '.');
    var beforeQuery := BeforeFirst(afterDot, '?');
    AbsentFromPrefix(afterDot, |beforeQuery|, '.');
    var e := Prefix(beforeQuery, 4);
    AbsentFromPrefix(beforeQuery, |e|, '.');
    AbsentFromPrefix(beforeQuery, |e|, '?');
    assert e == afterDot[..|e|];
    e
  }

  /** The extension the downloaded image is saved under: the raw extension if it is allowed, `jpg` otherwise. */
  function UrlExtension(url: string): (ext: string)
    ensures ext in AllowedExtensions
    ensures RawUrlExtension(url) in AllowedExtensions ==> ext == RawUrlExtension(url)
    ensures ext != RawUrlExtension(url) ==> ext == "jpg"
  {
    var e := RawUrlExtension(url);
    if e in AllowedExtensions then e else "jpg"
  }

  /**
    Only the text after the last `.` matters: for a tail without `.`, the raw
    extension of `stem.tail` is the tail cut at its first `?` and to four characters.
  */
  lemma RawUrlExtensionOfSuffix(stem: string, tail: string)
    requires '.' !in tail
    ensures RawUrlExtension(stem + "." + tail) == Prefix(BeforeFirst(tail, '?'), 4)
  {
    assert stem + "." + tail == stem + ['.'] + tail;
    AfterLastOfJoin(stem, '.', tail);
  }

  /** A last suffix of at most four characters, with no `?`, is taken as it is. */
  lemma RawUrlExtensionOfShortSuffix(stem: string, ext: string)
    requires '.' !in ext && '?' !in ext && |ext| <= 4
    ensures RawUrlExtension(stem + "." + ext) == ext
  {
    RawUrlExtensionOfSuffix(stem, ext);
  }

  /** An image URL ending in an allowed extension keeps that extension. */
  lemma UrlExtensionOfImageUrl(stem: string, ext: string)
    requires ext in AllowedExtensions
    ensures UrlExtension(stem + "." + ext) == ext
  {
    AllowedExtensionShape(ext);
    RawUrlExtensionOfSuffix(stem, ext);
  }

  /** So does one followed by a query string, as long as the query holds no `.`. */
  lemma UrlExtensionOfImageUrlWithQuery(stem: string, ext: string, query: string)
    requires ext in AllowedExtensions
    requires '.' !in query
    ensures UrlExtension(stem + "." + ext + "?" + query) == ext
  {
    AllowedExtensionShape(ext);
    var tail := ext + "?" + query;
    assert '.' !in tail;
    assert stem + "." + ext + "?" + query == stem + "." + tail;
    RawUrlExtensionOfSuffix(stem, tail);
    assert tail == ext + ['?'] + query;
    BeforeFirstOfJoin(ext, '?', query);
  }

  /**
    Unlike `AllowedFile` (see `AllowedFileByParts`), the URL rule does not
    lower-case: a short suffix with an upper-case letter always falls back to `jpg`.
  */
  lemma UrlExtensionIsCaseSensitive(stem: string, ext: string)
    requires '.' !in ext && '?' !in ext && |ext| <= 4
    requires !IsLower(ext)
    ensures RawUrlExtension(stem + "." + ext) == ext
    ensures UrlExtension(stem + "." + ext) == "jpg"
  {
    RawUrlExtensionOfShortSuffix(stem, ext);
    if ext in AllowedExtensions {
      AllowedExtensionShape(ext);
    }
  }

  /** A short last suffix that is not one of the allowed extensions falls back to `jpg`. */
  lemma UrlExtensionOfOtherSuffix(stem: string, ext: string)
    requires '.' !in ext && '?' !in ext && |ext| <= 4
    requires ext !in AllowedExtensions
    ensures UrlExtension(stem + "." + ext) == "jpg"
  {
    RawUrlExtensionOfShortSuffix(stem, ext);
  }

  /** `{stem}.{ext}` passes the upload check for every allowed extension and every stem. */
  lemma AllowedExtensionNameAllowed(stem: string, ext: string)
    requires ext in AllowedExtensions
    ensures AllowedFile(stem + "." + ext)
  {
    AllowedExtensionShape(ext);
    LowerOfLower(ext);
    AllowedFileByParts(stem, ext);
  }

  /** The name the URL route saves the image under, `{job_id}.{ext}`, always passes the upload check. */
  lemma SavedImageNameAllowed(jobId: string, url: string)
    ensures AllowedFile(jobId + "." + UrlExtension(url))
  {
    AllowedExtensionNameAllowed(jobId, UrlExtension(url));
  }

  // The examples below hold for every URL prefix `stem` (a scheme, a host and a path, say).

  /** An image URL with an allowed suffix keeps it. */
  lemma UrlExtensionKeptExample(stem: string)
    ensures UrlExtension(stem + "." + "png") == "png"
  {
    UrlExtensionOfImageUrl(stem, "png");
  }

  /** A longer suffix is cut to four characters, which can turn it into an allowed one. */
  lemma UrlExtensionTruncatedExample(stem: string)
    ensures RawUrlExtension(stem + "." + "jpegs") == "jpeg"
    ensures UrlExtension(stem + "." + "jpegs") == "jpeg"
  {
    var tail := "jpegs";
    assert '?' !in tail;
    RawUrlExtensionOfSuffix(stem, tail);
    assert tail[..4] == "jpeg";
  }

  /** A `.` inside the query string moves the split point, so a PNG URL is saved as `jpg`. */
  lemma UrlExtensionQueryDotExample(stem: string)
    ensures RawUrlExtension(stem + "." + "png?v=1" + "." + "5") == "5"
    ensures UrlExtension(stem + "." + "png?v=1" + "." + "5") == "jpg"
  {
    var url := stem + "." + "png?v=1";
    RawUrlExtensionOfShortSuffix(url, "5");
    assert "5" !in AllowedExtensions by {
      if "5" in AllowedExtensions {
        AllowedExtensionShape("5");
      }
    }
    UrlExtensionOfOtherSuffix(url, "5");
  }

  /** An upper-case suffix falls back to `jpg` (the upload check accepts it: `AllowedFileUpperCaseExample`). */
  lemma UrlExtensionUpperCaseExample(stem: string)
    ensures UrlExtension(stem + "." + "PNG") == "jpg"
  {
    assert "PNG" !in AllowedExtensions by {
      assert "PNG"[0] == 'P';
    }
    UrlExtensionOfOtherSuffix(stem, "PNG");
  }

  /** A type outside the allowed set falls back to `jpg`. */
  lemma UrlExtensionOtherTypeExample(stem: string)
    ensures UrlExtension(stem + "." + "gif") == "jpg"
  {
    assert "gif" !in AllowedExtensions by {
      assert "gif"[0] == 'g';
    }
    UrlExtensionOfOtherSuffix(stem, "gif");
  }
}
