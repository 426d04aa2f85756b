/**
 * The upload component's checks: a file is refused when it is larger than
 * 50 MiB, or when neither its MIME type nor its lower-cased extension is a
 * CSV or text one; only the first of the dropped or chosen files is used.
 */
module FileUpload {
  import opened Base
  import opened Text

  /** The parts of a browser `File` the checks read. */
  datatype FileInfo = FileInfo(name: string, size: nat, mimeType: string)

  const MaxSize: nat := 50 * 1024 * 1024
  const ValidTypes: set<string> := {"text/csv", "text/plain", "application/vnd.ms-excel"}
  const ValidExtensions: set<string> := {".csv", ".txt"}
  const SizeError: string := "File size exceeds 50MB limit"
  const TypeError: string := "Please upload a CSV or TXT file"

  /** `s.slice(start)`: a negative start counts from the end. */
  function Slice(s: string, start: int): (r: string)
    ensures 0 <= start <= |s| ==> r == s[start..]
    ensures start < 0 ==> r == s[Max(|s| + start, 0)..]
    ensures start > |s| ==> r == []
  {
    if start < 0 then s[Max(|s| + start, 0)..]
    else if start > |s| then []
    else s[start..]
  }

  /** `name.toLowerCase().slice(name.lastIndexOf('.'))`. */
  function Extension(name: string): string {
    Slice(ToLower(name), LastIndexOf(name, '.'))
  }

  /** `validateFile`: the error message, or `None` for `null`. */
  function ValidateFile(file: FileInfo): Option<string> {
    if file.size > MaxSize then Some(SizeError)
    else if file.mimeType !in ValidTypes && Extension(file.name) !in ValidExtensions then Some(TypeError)
    else None
  }

  /**
   * The size check comes first; a file within the limit (50 MiB exactly
   * included) is accepted exactly when its type or its extension is valid.
   */
  lemma ValidateFileSpec(file: FileInfo)
    ensures ValidateFile(file) == Some(SizeError) <==> file.size > MaxSize
    ensures ValidateFile(file) == Some(TypeError) <==>
      file.size <= MaxSize && file.mimeType !in ValidTypes && Extension(file.name) !in ValidExtensions
    ensures ValidateFile(file) == None <==>
      file.size <= MaxSize && (file.mimeType in ValidTypes || Extension(file.name) in ValidExtensions)
  {
  }

  /** The extension is the lower-cased text from the last dot on, which starts with that dot. */
  lemma ExtensionAfterLastDot(name: string)
    requires '.' in name
    ensures var k := LastIndexOf(name, '.');
      0 <= k && Extension(name) == ToLower(name[k..]) && Extension(name)[0] == '.'
      && '.' !in Extension(name)[1..]
  {
    var k := LastIndexOf(name, '.');
    var i :| 0 <= i < |name| && name[i] == '.';
    assert k >= i;
    LowerSuffix(name, k);
    var e := Extension(name);
    forall j | 1 <= j < |e|
      ensures e[j] != '.'
    {
      assert e[j] == LowerChar(name[k + j]);
    }
  }

  /** Lower-casing commutes with taking a suffix. */
  lemma LowerSuffix(s: string, k: nat)
    requires k <= |s|
    ensures ToLower(s)[k..] == ToLower(s[k..])
  {
    var a, b := ToLower(s)[k..], ToLower(s[k..]);
    assert |a| == |b|;
    forall j | 0 <= j < |a| ensures a[j] == b[j] {
      assert a[j] == LowerChar(s[k + j]);
    }
  }

  /** A name without a dot yields its last character, so only the MIME type can let it through. */
  lemma DotlessNameNeedsType(file: FileInfo)
    requires '.' !in file.name
    ensures |file.name| > 0 ==> Extension(file.name) == [LowerChar(file.name[|file.name| - 1])]
    ensures ValidateFile(file) == None <==> file.size <= MaxSize && file.mimeType in ValidTypes
  {
    assert LastIndexOf(file.name, '.') == -1;
    assert |Extension(file.name)| <= 1;
  }

  /** `LastIndexOf` finds the same dot after lower-casing, since only letters change. */
  lemma {:induction false} LastDotOfLower(s: string)
    ensures LastIndexOf(ToLower(s), '.') == LastIndexOf(s, '.')
    decreases |s|
  {
    if s != [] {
      var t := s[..|s| - 1];
      LastDotOfLower(t);
      assert ToLower(s)[..|s| - 1] == ToLower(t);
    }
  }

  /** Extension matching ignores case: a name and its lower-cased form are judged alike. */
  lemma ExtensionIgnoresCase(file: FileInfo)
    ensures Extension(file.name) == Extension(ToLower(file.name))
    ensures ValidateFile(file) == ValidateFile(file.(name := ToLower(file.name)))
  {
    LastDotOfLower(file.name);
    var l := ToLower(file.name);
    assert ToLower(l) == l;
  }

  /** What a drop or a file choice leads to. */
  datatype Outcome = Ignored | Rejected(message: string) | Selected(file: FileInfo)

  /** `handleFiles`: nothing for no files; otherwise the first file is validated and, if valid, selected. */
  function HandleFiles(files: seq<FileInfo>): (r: Outcome)
    ensures r == Ignored <==> files == []
    ensures r.Selected? ==> r.file == files[0] && ValidateFile(files[0]) == None
    ensures r.Rejected? ==> ValidateFile(files[0]) == Some(r.message)
  {
    if |files| == 0 then Ignored
    else
      var file := files[0];
      match ValidateFile(file)
      case Some(message) => Rejected(message)
      case None => Selected(file)
  }

  /** Files after the first never matter. */
  lemma OnlyFirstFileCounts(files: seq<FileInfo>, more: seq<FileInfo>)
    requires files != []
    ensures HandleFiles(files + more) == HandleFiles(files[..1])
  {
    assert (files + more)[0] == files[0] == files[..1][0];
  }
}
