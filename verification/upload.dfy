/**
 * The upload check of app/routes/wishes.py (`upload_file`): three checks run in a fixed
 * order and the first that fails decides the rejection; a file that passes all three is
 * accepted under its original name with its length in bytes.
 */
module Upload {
  import opened Wrappers

  newtype byte = x: int | 0 <= x < 256

  /** 5 MiB: the largest payload accepted. */
  const MaxFileSize: nat := 5 * 1024 * 1024

  const AllowedTypes: set<string> := {"image/png", "application/pdf"}

  datatype Rejection = InvalidPath | InvalidType | TooLarge

  datatype UploadResult =
    | Accepted(filename: string, size: nat)
    | Rejected(reason: Rejection)

  /** sub occurs in s starting at index i. */
  predicate OccursAt(s: string, sub: string, i: int)
  {
    0 <= i <= |s| - |sub| && s[i..i + |sub|] == sub
  }

  /** Python's `sub in s` on strings: sub occurs as a contiguous slice of s. */
  predicate ContainsSlice(s: string, sub: string)
  {
    exists i :: 0 <= i <= |s| - |sub| && OccursAt(s, sub, i)
  }

  /** Two consecutive dots somewhere in the name, which is `".." in name`. */
  predicate HasParentSegment(name: string)
    ensures HasParentSegment(name) <==> ContainsSlice(name, "..")
  {
    if exists i :: 0 <= i < |name| - 1 && name[i] == '.' && name[i + 1] == '.' then
      var i :| 0 <= i < |name| - 1 && name[i] == '.' && name[i + 1] == '.';
      assert OccursAt(name, "..", i);
      true
    else
      assert !ContainsSlice(name, "..") by {
        forall i | 0 <= i <= |name| - 2 ensures !OccursAt(name, "..", i) {
          assert name[i..i + 2][0] == name[i] && name[i..i + 2][1] == name[i + 1];
        }
      }
      false
  }

  /**
   * A name that could leave the upload directory: it contains `..`, `/` or a backslash, each
   * as a substring, and a name without any of the three is safe.
   */
  predicate UnsafeName(name: string)
    ensures UnsafeName(name) <==>
              ContainsSlice(name, "..") || ContainsSlice(name, "/") || ContainsSlice(name, "\\")
  {
    SingleCharSlice(name, '/');
    SingleCharSlice(name, '\\');
    HasParentSegment(name) || '/' in name || '\\' in name
  }

  /** A one-character string is a substring exactly when that character occurs. */
  lemma SingleCharSlice(s: string, c: char)
    ensures ContainsSlice(s, [c]) <==> c in s
  {
    if c in s {
      var i :| 0 <= i < |s| && s[i] == c;
      assert OccursAt(s, [c], i);
    }
    if ContainsSlice(s, [c]) {
      var i :| 0 <= i <= |s| - 1 && OccursAt(s, [c], i);
      assert s[i..i + 1] == [c];
      assert s[i] == s[i..i + 1][0];
    }
  }

  /** `upload_file`: path check, then type allow-list, then size bound. */
  function CheckUpload(filename: string, contentType: string, content: seq<byte>): (r: UploadResult)
    ensures r.Accepted? <==>
              !UnsafeName(filename) && contentType in AllowedTypes && |content| <= MaxFileSize
    ensures r.Accepted? ==> r.filename == filename && r.size == |content|
  {
    if UnsafeName(filename) then Rejected(InvalidPath)
    else if contentType !in AllowedTypes then Rejected(InvalidType)
    else if |content| > MaxFileSize then Rejected(TooLarge)
    else Accepted(filename, |content|)
  }

  /** The HTTP status of each rejection: 413 for a payload too large, 400 for the rest. */
  function Status(reason: Rejection): (status: int)
    ensures status == 413 <==> reason == TooLarge
    ensures status == 400 <==> reason != TooLarge
  {
    if reason == TooLarge then 413 else 400
  }

  /** The `title` of each rejection body. */
  function Title(reason: Rejection): string
  {
    match reason
    case InvalidPath => "Invalid file path"
    case InvalidType => "Invalid file type"
    case TooLarge => "File too large"
  }

  /** The `correlation_id` every rejection body carries: a fixed placeholder. */
  const CorrelationPlaceholder := "xxx"

  /**
   * The JSON body of a rejection: every one has a title and a correlation id; only the 413
   * body also carries a problem type, a `status` member and a detail. The response status
   * itself is `Status`, not part of the body.
   */
  datatype RejectionBody = RejectionBody(
    problemType: Option<string>, title: string, bodyStatus: Option<int>,
    detail: Option<string>, correlationId: string)

  function BodyOf(reason: Rejection): (b: RejectionBody)
    ensures b.title == Title(reason) && b.correlationId == CorrelationPlaceholder
    ensures b.problemType.Some? <==> reason == TooLarge
    ensures b.bodyStatus.Some? <==> reason == TooLarge
    ensures b.bodyStatus.Some? ==> b.bodyStatus.value == Status(reason)
    ensures b.detail.Some? <==> reason == TooLarge
  {
    if reason == TooLarge then
      RejectionBody(Some("https://example.com/probs/file-too-large"), Title(reason), Some(413),
                    Some("The uploaded file exceeds the allowed size"), CorrelationPlaceholder)
    else
      RejectionBody(None, Title(reason), None, None, CorrelationPlaceholder)
  }

  /**
   * The order of the checks: an unsafe name is rejected whatever the declared type and
   * the content; an allowed type is never looked at after an unsafe name, and the size is
   * looked at only for a safe name with an allowed type.
   */
  lemma PathCheckedFirst(filename: string, t1: string, c1: seq<byte>, t2: string, c2: seq<byte>)
    requires UnsafeName(filename)
    ensures CheckUpload(filename, t1, c1) == CheckUpload(filename, t2, c2) == Rejected(InvalidPath)
  {
  }

  lemma TypeCheckedBeforeSize(filename: string, contentType: string, c1: seq<byte>, c2: seq<byte>)
    requires !UnsafeName(filename) && contentType !in AllowedTypes
    ensures CheckUpload(filename, contentType, c1) == CheckUpload(filename, contentType, c2) == Rejected(InvalidType)
  {
  }

  /** The size bound is inclusive: exactly 5 MiB passes, anything longer is too large. */
  lemma SizeBoundary(filename: string, contentType: string, content: seq<byte>)
    requires !UnsafeName(filename) && contentType in AllowedTypes
    ensures |content| == MaxFileSize ==> CheckUpload(filename, contentType, content) == Accepted(filename, MaxFileSize)
    ensures |content| > MaxFileSize ==> CheckUpload(filename, contentType, content) == Rejected(TooLarge)
  {
  }

  /** The name "../../evil.pdf" is rejected as a path even with an allowed type. */
  lemma TraversalNameRejected(content: seq<byte>)
    ensures CheckUpload("../../evil.pdf", "application/pdf", content) == Rejected(InvalidPath)
  {
  }

  /** A name with a backslash and no other fault is rejected as a path too. */
  lemma BackslashNameRejected(content: seq<byte>)
    ensures CheckUpload("a\\b.png", "image/png", content) == Rejected(InvalidPath)
  {
  }

  /** "fake.txt" declared as text/plain is a type rejection. */
  lemma PlainTextRejected(content: seq<byte>)
    ensures CheckUpload("fake.txt", "text/plain", content) == Rejected(InvalidType)
  {
  }
}
