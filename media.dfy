/**
 * The media service's acceptance rules: the size limit, the classification of
 * a content type as image, video or audio, the file extension and the
 * generated file name, and the status every failure is reported with.
 */
module MediaService {
  import opened Common
  import Text

  /** 10 MiB. */
  const MaxFileSize: nat := 10 * 1024 * 1024

  datatype MediaKind = Image | Video | Audio

  function KindName(kind: MediaKind): (name: string)
    ensures '/' !in name
  {
    match kind
    case Image => "image"
    case Video => "video"
    case Audio => "audio"
  }

  /** `s.startswith(prefix)`. */
  predicate StartsWith(s: string, prefix: string)
  {
    prefix <= s
  }

  /** The prefix tests of save_media, in their order. */
  function Classify(contentType: string): (r: Option<MediaKind>)
    ensures r == Some(Image) <==> StartsWith(contentType, "image/")
    ensures r == Some(Video) <==> StartsWith(contentType, "video/")
    ensures r == Some(Audio) <==> StartsWith(contentType, "audio/")
    ensures r.Some? ==> |contentType| >= 6 && contentType[5] == '/' && '/' in contentType
  {
    var c := contentType;
    assert StartsWith(c, "image/") ==> c[0] == 'i' && c[5] == '/' by {
      if StartsWith(c, "image/") { assert c[0] == "image/"[0] && c[5] == "image/"[5]; }
    }
    assert StartsWith(c, "video/") ==> c[0] == 'v' && c[5] == '/' by {
      if StartsWith(c, "video/") { assert c[0] == "video/"[0] && c[5] == "video/"[5]; }
    }
    assert StartsWith(c, "audio/") ==> c[0] == 'a' && c[5] == '/' by {
      if StartsWith(c, "audio/") { assert c[0] == "audio/"[0] && c[5] == "audio/"[5]; }
    }
    if StartsWith(c, "image/") then Some(Image)
    else if StartsWith(c, "video/") then Some(Video)
    else if StartsWith(c, "audio/") then Some(Audio)
    else None
  }

  /**
   * The extension save_media uses: `content_type.split("/")[1]`, with the
   * fallback "mp4" written into the audio branch for a type without '/'.
   */
  function Extension(contentType: string, kind: MediaKind): (ext: string)
    requires Classify(contentType) == Some(kind)
    ensures '/' !in ext
  {
    if kind == Audio then
      (if '/' in contentType then Text.SecondField(contentType) else "mp4")
    else Text.SecondField(contentType)
  }

  /**
   * The audio fallback cannot be taken: every accepted content type has its
   * extension from the text after the first '/', up to the next one.
   */
  lemma {:induction false} ExtensionIsSecondField(contentType: string, kind: MediaKind)
    requires Classify(contentType) == Some(kind)
    ensures '/' in contentType && Extension(contentType, kind) == Text.SecondField(contentType)
    ensures contentType[..6] + Extension(contentType, kind) <= contentType
  {
    var slash := Text.Find(contentType, '/', 0);
    assert slash <= 5;
    assert contentType[slash] == '/';
    assert slash == 5 by {
      var prefix := KindName(kind) + "/";
      assert prefix <= contentType;
      assert forall k :: 0 <= k < 5 ==> contentType[k] == prefix[k];
    }
    assert contentType[..5] + "/" == contentType[..6];
  }

  const SizeMessage: string := "Error saving file: 400: File size exceeds the limit of 10.0MB"
  const TypeMessage: string := "Error saving file: 400: Unsupported file type"

  /**
   * `save_media` for a file of `size` bytes and the given content type; the
   * fresh uuid is a parameter. The file is accepted as
   * "{kind}_{uuid}.{ext}"; a refusal raised inside is caught by the function's
   * own `except Exception` and re-raised as a 500.
   */
  function SaveMedia(size: nat, contentType: string, fileId: string): (r: Reply<string>)
    ensures r.Ok? <==> size <= MaxFileSize && Classify(contentType).Some?
    ensures size > MaxFileSize ==> r == Raised(500, SizeMessage)
    ensures size <= MaxFileSize && Classify(contentType).None? ==> r == Raised(500, TypeMessage)
    ensures r.Ok? ==> var kind := Classify(contentType).value;
      r.data == KindName(kind) + "_" + fileId + "." + Text.SecondField(contentType)
  {
    if size > MaxFileSize then Raised(500, SizeMessage)
    else
      match Classify(contentType)
      case None => Raised(500, TypeMessage)
      case Some(kind) =>
        ExtensionIsSecondField(contentType, kind);
        Ok(KindName(kind) + "_" + fileId + "." + Extension(contentType, kind))
  }

  /** The returned reference is a bare file name: it holds no '/' unless the uuid does. */
  lemma {:induction false} SavedNameIsBare(size: nat, contentType: string, fileId: string)
    requires SaveMedia(size, contentType, fileId).Ok?
    requires '/' !in fileId
    ensures '/' !in SaveMedia(size, contentType, fileId).data
  {
    var kind := Classify(contentType).value;
    var ext := Text.SecondField(contentType);
    var name := KindName(kind) + "_" + fileId + "." + ext;
    forall k | 0 <= k < |name| ensures name[k] != '/' {
      var a := |KindName(kind)|;
      var b := a + 1 + |fileId|;
      if k < a { assert name[k] == KindName(kind)[k]; }
      else if k == a { assert name[k] == '_'; }
      else if k < b { assert name[k] == fileId[k - a - 1]; }
      else if k == b { assert name[k] == '.'; }
      else { assert name[k] == ext[k - b - 1]; }
    }
  }

  /** Exactly 10 MiB of a supported type is accepted; one byte more is not. */
  lemma SizeBoundary(contentType: string, fileId: string)
    requires Classify(contentType).Some?
    ensures SaveMedia(MaxFileSize, contentType, fileId).Ok?
    ensures SaveMedia(MaxFileSize + 1, contentType, fileId) == Raised(500, SizeMessage)
  {
  }
}
