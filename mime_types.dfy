/** `getMimeType`: the media type sent with every chunk of a file. */
module MimeTypes {
  import opened Wrappers
  import opened Text

  /** What `getMimeType` sees of a `File` or `Blob`: its declared type and, for a `File`, its name. */
  datatype MediaSource = MediaSource(declaredType: string, name: Option<string>)

  const GenericType: string := "application/octet-stream"
  const DefaultType: string := "audio/mp3"

  /** The extension table the resolver consults, one entry per case of its `switch`. */
  const ExtensionTable: map<string, string> := map[
    "mp3" := "audio/mpeg",
    "wav" := "audio/wav",
    "m4a" := "audio/mp4",
    "aac" := "audio/aac",
    "mp4" := "video/mp4",
    "mov" := "video/quicktime",
    "webm" := "video/webm"
  ]

  /** `name.split('.').pop()`: the text after the last dot, or the whole name when it has none. */
  function LastExtension(name: string): (ext: string)
    ensures '.' !in ext
    ensures |ext| <= |name| && ext == name[|name| - |ext|..]
    ensures |ext| == |name| || name[|name| - |ext| - 1] == '.'
  {
    SplitLast(name, '.');
    var parts := Split(name, '.');
    parts[|parts| - 1]
  }

  /** The `switch` over the lower-cased extension. */
  function TypeOfExtension(ext: string): (r: string)
    ensures r == if ext in ExtensionTable then ExtensionTable[ext] else DefaultType
    ensures r != "" && r != GenericType
  {
    if ext == "mp3" then "audio/mpeg"
    else if ext == "wav" then "audio/wav"
    else if ext == "m4a" then "audio/mp4"
    else if ext == "aac" then "audio/aac"
    else if ext == "mp4" then "video/mp4"
    else if ext == "mov" then "video/quicktime"
    else if ext == "webm" then "video/webm"
    else DefaultType
  }

  /**
   * A declared type that is neither empty nor `application/octet-stream` wins; otherwise
   * a named file is typed by its lower-cased last extension through the table, and a
   * nameless blob or an unknown extension gets `audio/mp3`.
   */
  function GetMimeType(src: MediaSource): (r: string)
    ensures src.declaredType != "" && src.declaredType != GenericType ==> r == src.declaredType
    ensures (src.declaredType == "" || src.declaredType == GenericType) && src.name.None? ==> r == DefaultType
    ensures (src.declaredType == "" || src.declaredType == GenericType) && src.name.Some? ==>
      r == TypeOfExtension(ToLower(LastExtension(src.name.value)))
    ensures r != "" && r != GenericType
  {
    if src.declaredType != "" && src.declaredType != GenericType then src.declaredType
    else match src.name
      case None => DefaultType
      case Some(name) => TypeOfExtension(ToLower(LastExtension(name)))
  }
  /** `LastExtension` is the one suffix with no dot that follows a dot or is the whole name. */
  lemma LastExtensionUnique(name: string, k: nat)
    requires k <= |name| && '.' !in name[k..]
    requires k == 0 || name[k - 1] == '.'
    ensures LastExtension(name) == name[k..]
  {
  }

  /** The extension of the lower-cased name is the lower-cased extension. */
  lemma LowerExtension(name: string)
    ensures LastExtension(ToLower(name)) == ToLower(LastExtension(name))
  {
    var t := ToLower(name);
    var k := |name| - |LastExtension(name)|;
    ToLowerKeepsDots(name);
    assert '.' !in t[k..] by {
      forall i | 0 <= i < |t| - k ensures t[k..][i] != '.' {
        assert t[k..][i] == t[k + i];
        assert name[k + i] == LastExtension(name)[i];
      }
    }
    LastExtensionUnique(t, k);
    ToLowerSuffix(name, k);
  }

  /**
   * The extension is matched without regard to ASCII case: two named files with the
   * same declared type whose names agree once lower-cased get the same media type.
   */
  lemma CaseInsensitiveExtension(a: MediaSource, b: MediaSource)
    requires a.declaredType == b.declaredType && a.name.Some? && b.name.Some?
    requires ToLower(a.name.value) == ToLower(b.name.value)
    ensures GetMimeType(a) == GetMimeType(b)
  {
    LowerExtension(a.name.value);
    LowerExtension(b.name.value);
  }
}
