/** The upload handler: which submitted file names are accepted as bracket
    images, and the name under which an accepted image is stored. */
module Uploads {

  import opened Wrappers
  import opened Text

  /** The allow-list of image extensions (lower case). */
  const AllowedExtensions: set<string> := {"png", "jpg", "jpeg", "gif", "webp"}

  /** `allowed_file`: the name has a `'.'` and the text after its last
      `'.'`, lower-cased, is on the allow-list. The contract pins the result
      down without mentioning how the last dot is found: for any position
      `k` holding the last `'.'`, the verdict is the suffix after `k`. */
  function AllowedFile(filename: string): (ok: bool)
    ensures '.' !in filename ==> !ok
    ensures forall k :: IsLastDot(filename, k) ==> (ok <==> Lower(filename[k + 1..]) in AllowedExtensions)
  {
    match LastIndexOf(filename, '.')
    case None => false
    case Some(k) => Lower(filename[k + 1..]) in AllowedExtensions
  }

  /** Position `k` holds the last `'.'` of `s`. */
  predicate IsLastDot(s: string, k: int)
  {
    0 <= k < |s| && s[k] == '.' && forall j :: k < j < |s| ==> s[j] != '.'
  }

  /** The file part of a multipart request: the `bracket_image` field is
      either missing from the request or present with a (possibly empty)
      client-side file name. */
  datatype Upload = NoFile | File(filename: string)

  /** An upload is stored exactly when the field is present, its file name
      is not empty and `AllowedFile` accepts it; anything else is skipped
      without an error. */
  predicate Accepted(u: Upload)
  {
    u.File? && u.filename != "" && AllowedFile(u.filename)
  }

  /** The stored name of an image: the first eight characters of a fresh
      UUID string, an underscore, then the sanitized client file name. */
  function StoredName(fileUuid: string, sanitized: string): (r: string)
    ensures |fileUuid| >= 8 ==> |r| == 9 + |sanitized|
    ensures |fileUuid| >= 8 ==> r[..8] == fileUuid[..8] && r[8] == '_' && r[9..] == sanitized
  {
    Take(fileUuid, 8) + "_" + sanitized
  }

  /** For UUID strings (at least eight characters), two stored names agree
      exactly when the eight-character prefixes and the sanitized names
      agree: the name can be taken apart again. */
  lemma StoredNameInjective(u1: string, n1: string, u2: string, n2: string)
    requires |u1| >= 8 && |u2| >= 8
    ensures StoredName(u1, n1) == StoredName(u2, n2) <==> u1[..8] == u2[..8] && n1 == n2
  {
    var s1, s2 := StoredName(u1, n1), StoredName(u2, n2);
    if s1 == s2 {
      assert u1[..8] == s1[..8] == s2[..8] == u2[..8];
      assert n1 == s1[9..] == s2[9..] == n2;
    }
  }

  /** The name the handler stores for an accepted upload, or None when the
      upload is skipped. */
  function ImageName(u: Upload, sanitize: string -> string, fileUuid: string): (r: Option<string>)
    ensures r.Some? <==> Accepted(u)
    ensures r.Some? ==> r.value == StoredName(fileUuid, sanitize(u.filename))
  {
    if Accepted(u) then Some(StoredName(fileUuid, sanitize(u.filename))) else None
  }

  /** The handler computes `filename.rsplit('.', 1)[1]` on the sanitized
      name of an accepted upload; when sanitizing removed every `'.'` that
      index raises, and the request ends with a server error. */
  predicate SanitizeFails(u: Upload, sanitize: string -> string)
  {
    Accepted(u) && '.' !in sanitize(u.filename)
  }

  /** True of a value read back from a record's `bracket_image` key when
      Python's truth test passes: present and not the empty string. */
  predicate Present(image: Option<string>)
  {
    image.Some? && image.value != ""
  }

  /** The file the handlers delete for a record's image (nothing when the
      record has none); removing it from a set is a no-op when the file is
      already gone, as `os.path.exists` guards the removal. */
  function ImageFiles(image: Option<string>): (r: set<string>)
    ensures Present(image) ==> r == {image.value}
    ensures !Present(image) ==> r == {}
  {
    if Present(image) then {image.value} else {}
  }

  /** The verdict does not depend on the case of the name: a name is
      accepted exactly when its lower-cased form is. */
  lemma AllowedFileCaseInsensitive(filename: string)
    ensures AllowedFile(Lower(filename)) == AllowedFile(filename)
  {
    if '.' in filename {
      LastDotCaseInsensitive(filename, LastIndexOf(filename, '.').value);
    } else {
      LowerNoDot(filename);
    }
  }

  /** The verdict on a name with its last `'.'` at `k` depends only on the
      lower-cased suffix, which lower-casing the whole name keeps. */
  lemma LastDotCaseInsensitive(filename: string, k: int)
    requires IsLastDot(filename, k)
    ensures AllowedFile(Lower(filename)) == AllowedFile(filename)
  {
    var low := Lower(filename);
    LowerLastDot(filename, k);
    LowerSuffix(filename, k + 1);
    LowerIdempotent(filename[k + 1..]);
    assert low[k + 1..] == Lower(filename[k + 1..]);
    assert AllowedFile(filename) == (Lower(filename[k + 1..]) in AllowedExtensions);
    assert AllowedFile(low) == (Lower(low[k + 1..]) in AllowedExtensions);
  }

  /** Lower-casing keeps the last `'.'` where it was. */
  lemma LowerLastDot(s: string, k: int)
    requires IsLastDot(s, k)
    ensures IsLastDot(Lower(s), k)
  {
    LowerKeepsDots(s);
  }

  /** Lower-casing a name without a `'.'` makes none. */
  lemma LowerNoDot(s: string)
    requires '.' !in s
    ensures '.' !in Lower(s)
  {
    LowerKeepsDots(s);
    forall i | 0 <= i < |s| ensures Lower(s)[i] != '.' {
      assert s[i] != '.';
    }
  }

  /** Image names are accepted whatever the case of their extension. */
  lemma AllowedFileAccepts()
    ensures AllowedFile("bracket.png")
    ensures AllowedFile("Final.JPEG")
  {
    assert IsLastDot("bracket.png", 7) && Lower("png") == "png";
    assert IsLastDot("Final.JPEG", 5) && Lower("JPEG") == "jpeg";
  }

  /** Only the last extension counts, so a disguised executable is
      refused. */
  lemma AllowedFileRejectsExtension()
    ensures !AllowedFile("bracket.exe")
    ensures !AllowedFile("bracket.png.exe")
  {
    assert IsLastDot("bracket.exe", 7) && Lower("exe") == "exe";
    assert IsLastDot("bracket.png.exe", 11);
  }

  /** A name without a dot, the empty name included, is refused. */
  lemma AllowedFileRejectsBare()
    ensures !AllowedFile("bracket")
    ensures !AllowedFile("")
  {
    assert forall i :: 0 <= i < |"bracket"| ==> "bracket"[i] != '.';
  }
}
