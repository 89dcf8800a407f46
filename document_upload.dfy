/**
 * The document upload form: the size check and title derivation when a file
 * is picked, and the upload handler's guard, video classification, storage
 * path, bucket and table choice and record defaults. Storage and database
 * calls are oracles whose outcomes are parameters; what they receive is
 * recorded in the form's `stored` and `inserted` logs.
 */
module DocumentUpload {
  import opened Wrappers

  /** 50 MiB: larger files are refused. */
  const MaxFileSize: nat := 50 * 1024 * 1024

  datatype File = File(name: string, mimeType: string, size: nat)

  predicate TooLarge(f: File) {
    f.size > MaxFileSize
  }

  // ---------------------------------------------------------------------------
  // Title derivation: `name.replace(/\.[^/.]+$/, "")`
  // ---------------------------------------------------------------------------

  /** The pattern matches at `p`: a dot, then one or more characters up to the end, none a dot or a slash. */
  ghost predicate ExtensionMatchAt(n: string, p: int) {
    && 0 <= p < |n| - 1
    && n[p] == '.'
    && forall j :: p < j < |n| ==> n[j] != '.' && n[j] != '/'
  }

  /** No slash at or after position `from`. */
  predicate SlashFreeFrom(n: string, from: int) {
    forall j :: 0 <= j < |n| && from <= j ==> n[j] != '/'
  }

  /** The file name without its final extension, or the whole name when the pattern does not match. */
  function StripExtension(n: string): (r: string)
    ensures |r| <= |n| && r == n[..|r|]
  {
    var d := LastIndexOf(n, '.');
    if 0 <= d < |n| - 1 && SlashFreeFrom(n, d + 1) then n[..d] else n
  }

  /** The pattern can match at one position at most. */
  lemma ExtensionMatchUnique(n: string, p: int, q: int)
    requires ExtensionMatchAt(n, p) && ExtensionMatchAt(n, q)
    ensures p == q
  {
  }

  /** `StripExtension` removes exactly the regular expression's match, and nothing when there is none. */
  lemma StripExtensionIsReplace(n: string)
    ensures forall p :: ExtensionMatchAt(n, p) ==> StripExtension(n) == n[..p]
    ensures (forall p :: !ExtensionMatchAt(n, p)) ==> StripExtension(n) == n
  {
    var d := LastIndexOf(n, '.');
    forall p | ExtensionMatchAt(n, p) ensures StripExtension(n) == n[..p] {
      assert d == p;
    }
    if 0 <= d < |n| - 1 && SlashFreeFrom(n, d + 1) {
      assert ExtensionMatchAt(n, d);
    }
  }

  // ---------------------------------------------------------------------------
  // The upload guard: `!title.trim()`
  // ---------------------------------------------------------------------------

  /** What `String.prototype.trim` strips: the white-space and line-terminator characters. */
  predicate IsJsSpace(c: char) {
    || c == '\t' || c == '\n' || c == '\U{000B}' || c == '\U{000C}' || c == '\r' || c == ' '
    || c == '\U{00A0}' || c == '\U{1680}' || ('\U{2000}' <= c <= '\U{200A}')
    || c == '\U{2028}' || c == '\U{2029}' || c == '\U{202F}' || c == '\U{205F}'
    || c == '\U{3000}' || c == '\U{FEFF}'
  }

  function TrimStart(s: string): string {
    if s != [] && IsJsSpace(s[0]) then TrimStart(s[1..]) else s
  }

  function TrimEnd(s: string): string {
    if s != [] && IsJsSpace(s[|s| - 1]) then TrimEnd(s[..|s| - 1]) else s
  }

  function Trim(s: string): string {
    TrimEnd(TrimStart(s))
  }

  predicate Blank(s: string) {
    forall i :: 0 <= i < |s| ==> IsJsSpace(s[i])
  }

  lemma {:induction false} TrimStartFacts(s: string)
    ensures TrimStart(s) == [] <==> Blank(s)
    ensures TrimStart(s) != [] ==> !IsJsSpace(TrimStart(s)[0])
    decreases |s|
  {
    if s != [] && IsJsSpace(s[0]) {
      TrimStartFacts(s[1..]);
      assert Blank(s) <==> Blank(s[1..]) by {
        if Blank(s[1..]) {
          forall i | 1 <= i < |s| ensures IsJsSpace(s[i]) { assert s[i] == s[1..][i - 1]; }
        }
      }
    }
  }

  lemma {:induction false} TrimEndKeepsFirst(s: string)
    requires s != [] && !IsJsSpace(s[0])
    ensures TrimEnd(s) != [] && TrimEnd(s)[0] == s[0]
    decreases |s|
  {
    if IsJsSpace(s[|s| - 1]) {
      TrimEndKeepsFirst(s[..|s| - 1]);
    }
  }

  /** A title is missing exactly when it is empty or made only of white space. */
  lemma TrimEmptyIffBlank(s: string)
    ensures Trim(s) == "" <==> Blank(s)
  {
    TrimStartFacts(s);
    if TrimStart(s) != [] {
      TrimEndKeepsFirst(TrimStart(s));
    }
  }

  // ---------------------------------------------------------------------------
  // Classification, path and bucket
  // ---------------------------------------------------------------------------

  /** `toLowerCase` on ASCII letters; other characters are kept. */
  function LowerChar(c: char): (r: char)
    ensures r == '.' <==> c == '.'
  {
    if 'A' <= c <= 'Z' then (c as int + 32) as char else c
  }

  /** `toLowerCase`, character by character. */
  function Lower(s: string): string {
    seq(|s|, i requires 0 <= i < |s| => LowerChar(s[i]))
  }

  /** The extensions the video pattern accepts, without their dot. */
  const VideoExtensions: seq<string> := ["mp4", "avi", "mov", "wmv", "flv", "webm", "mkv"]

  /** `s` ends in a dot followed by one of `exts`. */
  predicate EndsWithAnyExtension(s: string, exts: seq<string>)
    decreases |exts|
  {
    exts != [] && (EndsWith(s, "." + exts[0]) || EndsWithAnyExtension(s, exts[1..]))
  }

  /** `name.toLowerCase().match(/\.(mp4|avi|mov|wmv|flv|webm|mkv)$/)`. */
  predicate HasVideoName(name: string) {
    EndsWithAnyExtension(Lower(name), VideoExtensions)
  }

  predicate IsVideo(f: File) {
    StartsWith(f.mimeType, "video/") || HasVideoName(f.name)
  }

  /** `name.split('.').pop()`: the text after the last dot, or the whole name when there is none. */
  function FileExt(name: string): string {
    name[LastIndexOf(name, '.') + 1..]
  }

  /** The extension holds no dot, and is the whole name when the name has none. */
  lemma FileExtFacts(name: string)
    ensures LastIndexOf(name, '.') < 0 ==> FileExt(name) == name
    ensures '.' !in FileExt(name)
  {
  }

  /** The storage object name: the time-and-random stem, a dot, and the extension. */
  function StoragePath(stem: string, name: string): string {
    stem + "." + FileExt(name)
  }

  /** The storage bucket, which is also the table the record goes to. */
  function Bucket(isVideo: bool): string {
    if isVideo then "videos" else "documents"
  }

  lemma LowerSlice(name: string, d: nat)
    requires d <= |name|
    ensures Lower(name)[d..] == Lower(name[d..])
  {
  }

  lemma LastDotOfLower(name: string)
    ensures LastIndexOf(Lower(name), '.') == LastIndexOf(name, '.')
    decreases |name|
  {
    if name != [] {
      var p := name[..|name| - 1];
      assert Lower(name)[..|name| - 1] == Lower(p);
      LastDotOfLower(p);
    }
  }

  /** Ending in one of several dot-free extensions is having one of them after the last dot. */
  lemma {:induction false} EndsWithAnyIffLast(s: string, exts: seq<string>)
    requires forall k :: 0 <= k < |exts| ==> '.' !in exts[k]
    ensures EndsWithAnyExtension(s, exts) <==>
            LastIndexOf(s, '.') >= 0 && s[LastIndexOf(s, '.') + 1..] in exts
    decreases |exts|
  {
    if exts != [] {
      var e := exts[0];
      assert ("." + e)[1..] == e;
      EndsWithDotSuffix(s, "." + e);
      EndsWithAnyIffLast(s, exts[1..]);
      assert exts == [e] + exts[1..];
    }
  }

  lemma VideoExtensionsDotFree()
    ensures forall k :: 0 <= k < |VideoExtensions| ==> '.' !in VideoExtensions[k]
  {
  }

  /** Lowercasing keeps the last dot where it is, and lowercases the extension after it. */
  lemma LowerExtension(name: string)
    ensures LastIndexOf(Lower(name), '.') == LastIndexOf(name, '.')
    ensures LastIndexOf(name, '.') >= 0 ==>
              Lower(name)[LastIndexOf(name, '.') + 1..] == Lower(FileExt(name))
  {
    LastDotOfLower(name);
    if LastIndexOf(name, '.') >= 0 {
      LowerSlice(name, LastIndexOf(name, '.') + 1);
    }
  }

  /** The lowercased name ends in one of several dot-free extensions exactly when its lowercased extension is one. */
  lemma LowerEndsWithAnyIffExtension(name: string, exts: seq<string>)
    requires forall k :: 0 <= k < |exts| ==> '.' !in exts[k]
    ensures EndsWithAnyExtension(Lower(name), exts) <==>
            LastIndexOf(name, '.') >= 0 && Lower(FileExt(name)) in exts
  {
    LowerExtension(name);
    EndsWithAnyIffLast(Lower(name), exts);
  }

  /** A name is a video name exactly when the extension stored with it, lowercased, is a video extension. */
  lemma VideoNameIffExtension(name: string)
    ensures HasVideoName(name) <==>
            LastIndexOf(name, '.') >= 0 && Lower(FileExt(name)) in VideoExtensions
  {
    VideoExtensionsDotFree();
    LowerEndsWithAnyIffExtension(name, VideoExtensions);
  }

  // ---------------------------------------------------------------------------
  // Records
  // ---------------------------------------------------------------------------

  /** A row inserted into the `videos` or the `documents` table. */
  datatype Row =
    | VideoRow(title: string, description: Option<string>, youtubeUrl: string, category: string,
               thumbnailUrl: Option<string>, youtubeVideoId: Option<string>, duration: Option<string>,
               viewCount: int, publishedAt: string)
    | DocumentRow(title: string, description: Option<string>, fileUrl: string, fileType: string,
                  fileSize: nat, category: string, uploadedBy: Option<string>)

  /** `s || null`. */
  function OrNull(s: string): Option<string> {
    if s == "" then None else Some(s)
  }

  /** `s || 'general'`. */
  function OrGeneral(s: string): string {
    if s == "" then "general" else s
  }

  function RowFor(f: File, title: string, description: string, category: string,
                  publicUrl: string, publishedAt: string): Row
  {
    if IsVideo(f) then
      VideoRow(title, OrNull(description), publicUrl, OrGeneral(category), None, None, None, 0, publishedAt)
    else
      DocumentRow(title, OrNull(description), publicUrl, f.mimeType, f.size, OrGeneral(category), None)
  }

  /** The row's kind follows the classification, and its fields take the form's values or their defaults. */
  lemma RowDefaults(f: File, title: string, description: string, category: string,
                    publicUrl: string, publishedAt: string)
    ensures var r := RowFor(f, title, description, category, publicUrl, publishedAt);
            && (r.VideoRow? <==> IsVideo(f))
            && r.title == title
            && (r.description == None <==> description == "")
            && (description != "" ==> r.description == Some(description))
            && (category == "" ==> r.category == "general")
            && (category != "" ==> r.category == category)
            && (r.VideoRow? ==> r.youtubeUrl == publicUrl && r.viewCount == 0 && r.thumbnailUrl == None)
            && (r.DocumentRow? ==> r.fileUrl == publicUrl && r.fileType == f.mimeType && r.fileSize == f.size)
  {
  }

  // ---------------------------------------------------------------------------
  // The form
  // ---------------------------------------------------------------------------

  datatype Toast = FileTooLarge | MissingInformation | VideoUploaded(name: string)
                 | DocumentUploaded(name: string) | UploadFailed

  /** The outcomes of the calls the upload makes, and the values they produce. */
  datatype Environment = Environment(stem: string, uploadOk: bool, publicUrl: string,
                                     insertOk: bool, publishedAt: string)

  /** The form's fields, the toasts shown, and what storage and the database received. */
  datatype Form = Form(file: Option<File>, title: string, description: string, category: string,
                       uploading: bool, toasts: seq<Toast>,
                       stored: seq<(string, string)>, inserted: seq<(string, Row)>)

  function EmptyForm(): Form {
    Form(None, "", "", "", false, [], [], [])
  }

  /** `handleFileChange`: no selection changes nothing; too large is refused; otherwise taken. */
  function AfterFileChange(s: Form, selected: Option<File>): Form {
    if selected.None? then s
    else
      var f := selected.value;
      if TooLarge(f) then s.(toasts := s.toasts + [FileTooLarge])
      else s.(file := Some(f), title := if s.title == "" then StripExtension(f.name) else s.title)
  }

  /** `handleUpload`. */
  function AfterUpload(s: Form, env: Environment): Form {
    if s.file.None? || Trim(s.title) == "" then s.(toasts := s.toasts + [MissingInformation])
    else
      var f := s.file.value;
      var bucket := FileBucket(f);
      if !env.uploadOk then s.(toasts := s.toasts + [UploadFailed], uploading := false)
      else
        var stored := s.stored + [(bucket, StoragePath(env.stem, f.name))];
        if !env.insertOk then s.(stored := stored, toasts := s.toasts + [UploadFailed], uploading := false)
        else
          var row := RowFor(f, s.title, s.description, s.category, env.publicUrl, env.publishedAt);
          Form(None, "", "", "", false, s.toasts + [UploadedToast(f)], stored, s.inserted + [(bucket, row)])
  }

  /** The storage bucket, and the table, a file goes to. */
  function FileBucket(f: File): string {
    Bucket(IsVideo(f))
  }

  /** The toast of a successful upload names the file and says whether it went to the videos. */
  function UploadedToast(f: File): Toast {
    if IsVideo(f) then VideoUploaded(f.name) else DocumentUploaded(f.name)
  }

  /** A file above 50 MiB is refused with the selection and title unchanged; 50 MiB exactly is taken. */
  lemma FileChangeSizeLimit(s: Form, f: File)
    ensures var t := AfterFileChange(s, Some(f));
            && (f.size > 50 * 1024 * 1024 ==> t == s.(toasts := s.toasts + [FileTooLarge]))
            && (f.size <= 50 * 1024 * 1024 ==> t.file == Some(f) && t.toasts == s.toasts)
    ensures AfterFileChange(s, Some(f.(size := 50 * 1024 * 1024))).file == Some(f.(size := 50 * 1024 * 1024))
  {
  }

  /** The title is derived from the file name only when it is empty. */
  lemma FileChangeTitle(s: Form, f: File)
    requires !TooLarge(f)
    ensures var t := AfterFileChange(s, Some(f));
            && (s.title == "" ==> t.title == StripExtension(f.name))
            && (s.title != "" ==> t.title == s.title)
            && t.description == s.description && t.category == s.category
  {
  }

  /** Without a file or with a blank title, the upload only shows the error toast. */
  lemma UploadGuard(s: Form, env: Environment)
    requires s.file.None? || Blank(s.title)
    ensures AfterUpload(s, env) == s.(toasts := s.toasts + [MissingInformation])
  {
    TrimEmptyIffBlank(s.title);
  }

  /** A successful upload stores the file in its bucket, inserts its row there, and resets the form. */
  lemma UploadSuccess(s: Form, env: Environment)
    requires s.file.Some? && Trim(s.title) != "" && env.uploadOk && env.insertOk
    ensures var f := s.file.value;
            var bucket := FileBucket(f);
            AfterUpload(s, env) ==
            Form(None, "", "", "", false,
                 s.toasts + [UploadedToast(f)],
                 s.stored + [(bucket, StoragePath(env.stem, f.name))],
                 s.inserted + [(bucket, RowFor(f, s.title, s.description, s.category, env.publicUrl, env.publishedAt))])
  {
  }

  /** A failed storage or insert call keeps the form's fields, inserts nothing, and clears `uploading`. */
  lemma UploadFailure(s: Form, env: Environment)
    requires s.file.Some? && Trim(s.title) != "" && !(env.uploadOk && env.insertOk)
    ensures var f := s.file.value;
            AfterUpload(s, env) ==
            s.(uploading := false, toasts := s.toasts + [UploadFailed],
               stored := if env.uploadOk then s.stored + [(FileBucket(f), StoragePath(env.stem, f.name))]
                         else s.stored)
  {
  }

  /** The component's state cells. */
  class UploadForm {
    var file: Option<File>
    var title: string
    var description: string
    var category: string
    var uploading: bool
    var toasts: seq<Toast>
    var stored: seq<(string, string)>
    var inserted: seq<(string, Row)>

    function State(): Form
      reads this
    {
      Form(file, title, description, category, uploading, toasts, stored, inserted)
    }

    constructor ()
      ensures State() == EmptyForm()
    {
      file, title, description, category, uploading := None, "", "", "", false;
      toasts, stored, inserted := [], [], [];
    }

    method SetTitle(v: string)
      modifies this
      ensures State() == old(State()).(title := v)
    {
      title := v;
    }

    method SetDescription(v: string)
      modifies this
      ensures State() == old(State()).(description := v)
    {
      description := v;
    }

    method SetCategory(v: string)
      modifies this
      ensures State() == old(State()).(category := v)
    {
      category := v;
    }

    method HandleFileChange(selected: Option<File>)
      modifies this
      ensures State() == AfterFileChange(old(State()), selected)
    {
      if selected.Some? {
        var f := selected.value;
        if f.size > MaxFileSize {
          toasts := toasts + [FileTooLarge];
          return;
        }
        file := Some(f);
        if title == "" {
          title := StripExtension(f.name);
        }
      }
    }

    /** `removeFile`. */
    method RemoveFile()
      modifies this
      ensures State() == old(State()).(file := None)
    {
      file := None;
    }

    method HandleUpload(env: Environment)
      modifies this
      ensures State() == AfterUpload(old(State()), env)
    {
      if file.None? || Trim(title) == "" {
        toasts := toasts + [MissingInformation];
        return;
      }
      ghost var s0 := State();
      uploading := true;
      var f := file.value;
      var bucket := FileBucket(f);
      var path := StoragePath(env.stem, f.name);
      if !env.uploadOk {
        UploadFailure(s0, env);
        toasts, uploading := toasts + [UploadFailed], false;
      } else if !env.insertOk {
        UploadFailure(s0, env);
        stored, toasts, uploading := stored + [(bucket, path)], toasts + [UploadFailed], false;
      } else {
        var row := RowFor(f, title, description, category, env.publicUrl, env.publishedAt);
        var toast := UploadedToast(f);
        stored, inserted, toasts := stored + [(bucket, path)], inserted + [(bucket, row)], toasts + [toast];
        file, title, description, category, uploading := None, "", "", "", false;
        UploadSuccess(s0, env);
      }
    }
  }
}
