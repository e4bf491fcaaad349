/** The bot's string and lookup helpers: file extensions and types, the size
    check, Telegram MarkdownV2 escaping and truncation. The process-wide
    settings object is the parameter `cfg`. */
module Helpers {
  import opened PyText

  /** The `FileType` enumeration. */
  datatype FileType = Document | Image | Audio | Video | Custom

  /** The settings the helpers read. */
  datatype Settings = Settings(
    allowedFileExtensions: seq<string>,
    imageExtensions: seq<string>,
    documentExtensions: seq<string>,
    maxFileSizeMb: int)

  const DefaultImageExtensions: seq<string> := ["jpg", "jpeg", "png", "gif", "webp", "svg"]
  const DefaultDocumentExtensions: seq<string> :=
    ["pdf", "txt", "md", "markdown", "html", "xlsx", "xls", "docx", "csv", "eml", "msg", "pptx", "ppt", "xml", "epub"]

  /** The defaults, with no environment overrides: the allowed list is the
      image list followed by the document list, and the limit is 15 MB. */
  const DefaultSettings: Settings :=
    Settings(DefaultImageExtensions + DefaultDocumentExtensions, DefaultImageExtensions, DefaultDocumentExtensions, 15)

  /** `max_file_size_bytes` */
  function MaxFileSizeBytes(cfg: Settings): int {
    cfg.maxFileSizeMb * 1024 * 1024
  }

  // ----- file names -----

  /** `s.split("/")` */
  function SplitSlash(s: string): (parts: seq<string>)
    ensures |parts| >= 1
    decreases |s|
  {
    var n := FindChar(s, 0, '/');
    if n == |s| then [s] else [s[..n]] + SplitSlash(s[n + 1..])
  }

  /** The path components a POSIX path keeps: empty and `.` ones are dropped. */
  function Components(parts: seq<string>): seq<string> {
    if parts == [] then []
    else (if parts[0] == [] || parts[0] == "." then [] else [parts[0]]) + Components(parts[1..])
  }

  /** `PurePosixPath(filename).name`: the last kept component, or `""`. */
  function Name(filename: string): string {
    var comps := Components(SplitSlash(filename));
    if comps == [] then [] else comps[|comps| - 1]
  }

  /** The index of the last `.` in `s`, or -1 (`str.rfind`). */
  function RFindDot(s: string): (r: int)
    ensures -1 <= r < |s|
    ensures r >= 0 ==> s[r] == '.'
    ensures forall k :: r < k < |s| ==> s[k] != '.'
  {
    if s == [] then -1 else if s[|s| - 1] == '.' then |s| - 1 else RFindDot(s[..|s| - 1])
  }

  /** `PurePosixPath.suffix`: from the last dot, when the dot is neither the
      first nor the last character of the name. */
  function Suffix(name: string): string {
    var i := RFindDot(name);
    if 0 < i < |name| - 1 then name[i..] else []
  }

  /** `get_file_extension`: the suffix of the path without its leading dot,
      lower-cased. */
  function GetFileExtension(filename: string): string {
    var suf := Suffix(Name(filename));
    if suf == [] then [] else Lower(suf[1..])
  }

  /** `is_allowed_file` */
  predicate IsAllowedFile(filename: string, cfg: Settings) {
    GetFileExtension(filename) in cfg.allowedFileExtensions
  }

  /** `get_file_type`: the image list is consulted first. */
  function GetFileType(filename: string, cfg: Settings): (t: FileType)
    ensures t != Audio && t != Video
    ensures t == Image <==> GetFileExtension(filename) in cfg.imageExtensions
    ensures t == Document <==> GetFileExtension(filename) !in cfg.imageExtensions && GetFileExtension(filename) in cfg.documentExtensions
  {
    var ext := GetFileExtension(filename);
    if ext in cfg.imageExtensions then Image
    else if ext in cfg.documentExtensions then Document
    else Custom
  }

  /** What `validate_file_size` reports when it fails: the size and the limit
      its message is formatted from. */
  datatype SizeError = SizeError(fileSize: int, maxFileSizeMb: int)

  /** `validate_file_size`: success exactly within the limit, and then no
      message. */
  function ValidateFileSize(fileSize: int, cfg: Settings): (r: (bool, Option<SizeError>))
    ensures r.0 <==> fileSize <= cfg.maxFileSizeMb * 1024 * 1024
    ensures r.0 <==> r.1 == None
    ensures !r.0 ==> r.1 == Some(SizeError(fileSize, cfg.maxFileSizeMb))
  {
    if fileSize > MaxFileSizeBytes(cfg) then (false, Some(SizeError(fileSize, cfg.maxFileSizeMb)))
    else (true, None)
  }

  // ----- file-name properties -----

  lemma {:induction false} NoSlashSplit(s: string)
    requires '/' !in s
    ensures SplitSlash(s) == [s]
  {
    FindCharSkips(s, 0, '/');
    assert FindChar(s, 0, '/') == |s|;
  }

  /** A one-component name `stem.ext` (non-empty stem and extension, no dot in
      the extension) has the lower-cased `ext` as its extension. */
  lemma {:induction false} ExtensionOfName(stem: string, ext: string)
    requires stem != [] && ext != [] && '/' !in stem && '/' !in ext && '.' !in ext
    ensures GetFileExtension(stem + "." + ext) == Lower(ext)
  {
    var f := stem + "." + ext;
    NoSlashSplit(f);
    assert f != "." by { assert |f| >= 3; }
    var one: seq<string> := [f];
    assert one[1..] == [];
    assert Components([f]) == [f];
    assert Name(f) == f;
    RFindDotAt(stem, ext);
    assert f[|stem|..][1..] == ext;
  }

  lemma {:induction false} RFindDotAt(stem: string, ext: string)
    requires '.' !in ext
    ensures RFindDot(stem + "." + ext) == |stem|
  {
    var f := stem + "." + ext;
    var r := RFindDot(f);
    assert f[|stem|] == '.';
  }

  /** A name with no dot, or whose only dots are its first character (a hidden
      file such as `.bashrc`) or its last one (`report.`), has no extension. */
  lemma {:induction false} NoExtensionWithoutInnerDot(name: string)
    requires '/' !in name && name != [] && name != "."
    requires forall k :: 0 < k < |name| - 1 ==> name[k] != '.'
    ensures GetFileExtension(name) == []
  {
    NoSlashSplit(name);
    var one: seq<string> := [name];
    assert one[1..] == [];
    assert Components(one) == one;
    assert Name(name) == name;
    var i := RFindDot(name);
    assert i <= 0 || i == |name| - 1;
  }

  /** Only the last component counts: directories are ignored, dotted or not. */
  lemma {:induction false} ExtensionIgnoresDirectory(dir: string, name: string)
    requires '/' !in name && name != [] && name != "."
    ensures GetFileExtension(dir + "/" + name) == GetFileExtension(name)
  {
    NoSlashSplit(name);
    var one: seq<string> := [name];
    assert one[1..] == [];
    assert Components(one) == one;
    assert Name(name) == name;
    SplitSlashAppend(dir, name);
    ComponentsAppend(SplitSlash(dir), [name]);
    var comps := Components(SplitSlash(dir)) + [name];
    assert comps[|comps| - 1] == name;
  }

  lemma {:induction false} SplitSlashAppend(dir: string, name: string)
    requires '/' !in name
    ensures SplitSlash(dir + "/" + name) == SplitSlash(dir) + [name]
    decreases |dir|
  {
    var s := dir + "/" + name;
    var n := FindChar(dir, 0, '/');
    FindCharSkips(dir, 0, '/');
    FindCharSkips(s, 0, '/');
    if n == |dir| {
      FindCharFirst(s, 0, '/', |dir|);
      assert s[..|dir|] == dir;
      assert s[|dir| + 1..] == name;
      NoSlashSplit(name);
    } else {
      FindCharFirst(s, 0, '/', n);
      assert s[..n] == dir[..n];
      assert s[n + 1..] == dir[n + 1..] + "/" + name;
      SplitSlashAppend(dir[n + 1..], name);
    }
  }

  lemma {:induction false} ComponentsAppend(a: seq<string>, b: seq<string>)
    ensures Components(a + b) == Components(a) + Components(b)
  {
    if a == [] {
      assert a + b == b;
    } else {
      assert (a + b)[0] == a[0];
      assert (a + b)[1..] == a[1..] + b;
      ComponentsAppend(a[1..], b);
    }
  }

  /** Extensions are lower-case. */
  lemma {:induction false} ExtensionLowerCase(filename: string)
    ensures forall k :: 0 <= k < |GetFileExtension(filename)| ==> !('A' <= GetFileExtension(filename)[k] <= 'Z')
  {
  }

  /** Under the default settings the allowed list is the image list plus the
      document list, so a file is allowed exactly when its type is not
      `Custom`. */
  lemma {:induction false} DefaultAllowedIffTyped(filename: string)
    ensures IsAllowedFile(filename, DefaultSettings) <==> GetFileType(filename, DefaultSettings) != Custom
  {
  }

  /** The default image and document lists share no extension, so the image
      list's precedence never decides a default classification. */
  lemma {:induction false} DefaultListsDisjoint(ext: string)
    ensures !(ext in DefaultImageExtensions && ext in DefaultDocumentExtensions)
  {
  }

  // ----- Markdown escaping -----

  /** The 18 characters MarkdownV2 reserves. */
  const EscapeChars: string := "_*[]()~`>#+-=|{}.!"

  /** The loop in `escape_markdown`: for each character of `chars` in turn,
      every occurrence of it in the text is prefixed with a backslash. */
  function EscapedBy(text: string, chars: string): string
    decreases |chars|
  {
    if chars == [] then text else EscapedBy(ReplaceAll(text, [chars[0]], ['\\', chars[0]]), chars[1..])
  }

  function Escaped(text: string): string {
    EscapedBy(text, EscapeChars)
  }

  /** `escape_markdown` */
  method EscapeMarkdown(text: string) returns (r: string)
    ensures r == Escaped(text)
    ensures r == EscapeIn(text, EscapeChars)
    ensures |r| == |text| + CountIn(text, EscapeChars)
  {
    r := text;
    assert EscapeChars[0..] == EscapeChars;
    for i := 0 to |EscapeChars|
      invariant EscapedBy(r, EscapeChars[i..]) == Escaped(text)
    {
      var c := EscapeChars[i];
      EscapedByStep(r, EscapeChars, i);
      r := ReplaceAll(r, [c], ['\\', c]);
    }
    assert EscapeChars[|EscapeChars|..] == [];
    EscapedFacts(text);
  }

  /** One turn of the loop. */
  lemma {:induction false} EscapedByStep(text: string, chars: string, i: nat)
    requires i < |chars|
    ensures EscapedBy(text, chars[i..]) == EscapedBy(ReplaceAll(text, [chars[i]], ['\\', chars[i]]), chars[i + 1..])
  {
    assert chars[i..][0] == chars[i] && chars[i..][1..] == chars[i + 1..];
  }

  /** What `escape_markdown` computes, stated by the one-pass reference. */
  lemma {:induction false} EscapedFacts(text: string)
    ensures Escaped(text) == EscapeIn(text, EscapeChars)
    ensures |Escaped(text)| == |text| + CountIn(text, EscapeChars)
  {
    EscapeMarkdownIsOnePass(text);
    EscapeLength(text, EscapeChars);
  }

  /** One character after escaping the characters in `cs` at once. */
  function EscChar(c: char, cs: string): string {
    if c in cs then ['\\', c] else [c]
  }

  /** The independent reference: each character in `cs` gets one backslash
      in front of it, all others stay. */
  function EscapeIn(s: string, cs: string): string {
    if s == [] then [] else EscChar(s[0], cs) + EscapeIn(s[1..], cs)
  }

  lemma {:induction false} EscapeInAppend(a: string, b: string, cs: string)
    ensures EscapeIn(a + b, cs) == EscapeIn(a, cs) + EscapeIn(b, cs)
  {
    if a == [] {
      assert a + b == b;
    } else {
      assert (a + b)[0] == a[0];
      assert (a + b)[1..] == a[1..] + b;
      EscapeInAppend(a[1..], b, cs);
    }
  }

  /** Replacing one character is escaping that character alone. */
  lemma {:induction false} ReplaceOneChar(s: string, c: char)
    ensures ReplaceAll(s, [c], ['\\', c]) == EscapeIn(s, [c])
  {
    if s != [] {
      ReplaceOneChar(s[1..], c);
      if s[0] == c {
        assert OccursAt(s, [c], 0) by { assert s[..1] == [c]; }
      } else {
        assert !OccursAt(s, [c], 0) by { assert s[..1][0] != c; }
      }
    }
  }

  /** Escaping `c` and then the characters in `cs` is escaping all of them at
      once, as neither the inserted backslash nor `c` is in `cs`. */
  lemma {:induction false} EscapeCompose(s: string, c: char, cs: string)
    requires c !in cs && '\\' !in cs
    ensures EscapeIn(EscapeIn(s, [c]), cs) == EscapeIn(s, [c] + cs)
  {
    if s != [] {
      var head := EscChar(s[0], [c]);
      EscapeCompose(s[1..], c, cs);
      EscapeInAppend(head, EscapeIn(s[1..], [c]), cs);
      if s[0] == c {
        assert EscapeIn(head, cs) == ['\\'] + EscapeIn([c], cs);
        assert EscapeIn([c], cs) == [c] + EscapeIn([], cs);
      } else {
        assert EscapeIn(head, cs) == EscChar(s[0], cs) + EscapeIn([], cs);
      }
    }
  }

  predicate Distinct(cs: string) {
    forall i, j :: 0 <= i < j < |cs| ==> cs[i] != cs[j]
  }

  /** The sequential replacements equal the one-pass escape. */
  lemma {:induction false} EscapedByIsEscapeIn(s: string, cs: string)
    requires Distinct(cs) && '\\' !in cs
    ensures EscapedBy(s, cs) == EscapeIn(s, cs)
    decreases |cs|
  {
    if cs == [] {
      EscapeInNone(s);
    } else {
      var c := cs[0];
      ReplaceOneChar(s, c);
      assert c !in cs[1..] by {
        forall j | 0 <= j < |cs[1..]| ensures cs[1..][j] != c {
          assert cs[1..][j] == cs[j + 1];
        }
      }
      assert Distinct(cs[1..]) by {
        forall i, j | 0 <= i < j < |cs[1..]| ensures cs[1..][i] != cs[1..][j] {
          assert cs[1..][i] == cs[i + 1] && cs[1..][j] == cs[j + 1];
        }
      }
      EscapedByIsEscapeIn(EscapeIn(s, [c]), cs[1..]);
      EscapeCompose(s, c, cs[1..]);
      assert [c] + cs[1..] == cs;
    }
  }

  lemma {:induction false} EscapeInNone(s: string)
    ensures EscapeIn(s, []) == s
  {
    if s != [] {
      EscapeInNone(s[1..]);
      assert [s[0]] + s[1..] == s;
    }
  }

  /** `escape_markdown` puts exactly one backslash before each of the 18
      characters and leaves every other character alone. */
  lemma {:induction false} EscapeMarkdownIsOnePass(s: string)
    ensures Escaped(s) == EscapeIn(s, EscapeChars)
  {
    assert Distinct(EscapeChars);
    EscapedByIsEscapeIn(s, EscapeChars);
  }

  /** How many characters of `s` are in `cs`. */
  function CountIn(s: string, cs: string): nat {
    if s == [] then 0 else (if s[0] in cs then 1 else 0) + CountIn(s[1..], cs)
  }

  /** The output is longer by the number of escaped characters. */
  lemma {:induction false} EscapeLength(s: string, cs: string)
    ensures |EscapeIn(s, cs)| == |s| + CountIn(s, cs)
  {
    if s != [] {
      EscapeLength(s[1..], cs);
    }
  }

  /** Dropping the backslash in front of each character of `cs`. */
  function Unescape(s: string, cs: string): string
    decreases |s|
  {
    if |s| >= 2 && s[0] == '\\' && s[1] in cs then [s[1]] + Unescape(s[2..], cs)
    else if s == [] then []
    else [s[0]] + Unescape(s[1..], cs)
  }

  /** An escaped text starts with no character of `cs`. */
  lemma {:induction false} EscapeInHead(s: string, cs: string)
    requires s != [] && '\\' !in cs
    ensures EscapeIn(s, cs)[0] !in cs
  {
  }

  /** Escaping loses nothing: unescaping gives the text back. */
  lemma {:induction false} UnescapeEscape(s: string, cs: string)
    requires '\\' !in cs
    ensures Unescape(EscapeIn(s, cs), cs) == s
  {
    if s != [] {
      var t := EscapeIn(s[1..], cs);
      UnescapeEscape(s[1..], cs);
      if s[0] in cs {
        assert EscapeIn(s, cs) == ['\\', s[0]] + t;
        assert (['\\', s[0]] + t)[2..] == t;
      } else {
        assert EscapeIn(s, cs) == [s[0]] + t;
        assert ([s[0]] + t)[1..] == t;
        if s[0] == '\\' && t != [] {
          EscapeInHead(s[1..], cs);
        }
      }
      assert [s[0]] + s[1..] == s;
    }
  }

  // ----- truncation -----

  /** `s[:n]` for any integer `n`: a negative `n` counts from the end. */
  function PyPrefix(s: string, n: int): (r: string)
    ensures |r| <= |s| && r == s[..|r|]
  {
    if n >= 0 then (if n <= |s| then s[..n] else s)
    else if |s| + n > 0 then s[..|s| + n]
    else []
  }

  /** The default `max_length` of `truncate_text`. */
  const DefaultMaxLength: int := 4000

  /** `truncate_text` */
  function TruncateText(text: string, maxLength: int := DefaultMaxLength): (r: string)
    ensures |text| <= maxLength ==> r == text
    ensures maxLength >= 3 && |text| > maxLength ==> r == text[..maxLength - 3] + "..." && |r| == maxLength
  {
    if |text| <= maxLength then text else PyPrefix(text, maxLength - 3) + "..."
  }

  /** With a limit of at least 3 the result never exceeds it. */
  lemma {:induction false} TruncateBound(text: string, maxLength: int)
    requires maxLength >= 3
    ensures |TruncateText(text, maxLength)| <= maxLength
  {
  }

  /** Truncating twice is truncating once. */
  lemma {:induction false} TruncateIdempotent(text: string, maxLength: int)
    requires maxLength >= 3
    ensures TruncateText(TruncateText(text, maxLength), maxLength) == TruncateText(text, maxLength)
  {
    TruncateBound(text, maxLength);
  }

  /** Below 3 the slice bound goes negative and the result, ellipsis
      included, is longer than the limit. */
  lemma {:induction false} TruncateSmallLimitExceeds(text: string, maxLength: int)
    requires maxLength < 3 && |text| > maxLength
    ensures |TruncateText(text, maxLength)| > maxLength
    ensures TruncateText(text, maxLength) == PyPrefix(text, maxLength - 3) + "..."
  {
  }
}
