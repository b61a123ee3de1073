/**
 * `storeImage`, `sanitizeImage` and `deleteFile` of the sample server
 * (sample/main.go): turning a base64 string, optionally prefixed with a
 * data-URI header, into a file under `./temp/`, and the two helpers that
 * rewrite and remove such a file.
 *
 * The header handling is a loose form of the data URL scheme of RFC 2397
 * (`data:[<mediatype>][;base64],<data>`): only the `data:` prefix and the
 * first comma are looked for, and the media type is found by substring tests.
 */
module Staging {
  import opened Basics
  import opened Text
  import opened Files

  const DataScheme := "data:"
  const TempDir := "temp"
  const TempPrefix := "./temp/image_"

  const StatusBadRequest := 400
  const StatusUnsupportedMediaType := 415
  const StatusInternalServerError := 500

  /** The file extensions `storeImage` can choose, in the order it tests for them. */
  datatype Ext = Jpg | Png | Gif {
    function Name(): string {
      match this
      case Jpg => "jpg"
      case Png => "png"
      case Gif => "gif"
    }

    /** The media type whose presence in the header selects this extension. */
    function MediaType(): string {
      match this
      case Jpg => "image/jpeg"
      case Png => "image/png"
      case Gif => "image/gif"
    }

    /** Position in the test order: jpeg first, then png, then gif. */
    function Rank(): nat {
      match this
      case Jpg => 0
      case Png => 1
      case Gif => 2
    }
  }

  /** The errors `storeImage` returns, each a `fiber.Error` with a status and a message. */
  datatype StoreError =
    | InvalidFormat
    | UnsupportedType
    | DecodeFailed(detail: string)
    | MkdirFailed(detail: string)
    | WriteFailed(detail: string)
  {
    function Status(): int {
      match this
      case InvalidFormat => StatusBadRequest
      case UnsupportedType => StatusUnsupportedMediaType
      case DecodeFailed(_) => StatusBadRequest
      case MkdirFailed(_) => StatusInternalServerError
      case WriteFailed(_) => StatusInternalServerError
    }

    function Message(): string {
      match this
      case InvalidFormat => "Invalid base64 image format"
      case UnsupportedType => "Unsupported image type"
      case DecodeFailed(d) => "Failed to decode base64: " + d
      case MkdirFailed(d) => "Failed to create temp directory: " + d
      case WriteFailed(d) => "Failed to write image: " + d
    }

    /** Errors that can only come from the file system. */
    predicate IsIoError() {
      MkdirFailed? || WriteFailed?
    }
  }

  /** The chosen extension and the base64 text still to be decoded. */
  datatype Payload = Payload(ext: Ext, body: string)

  /** The extension and decoded bytes of an image that passed every check before I/O. */
  datatype Staged = Staged(ext: Ext, data: seq<byte>)

  /** A file `storeImage` wrote. */
  datatype Written = Written(path: string, data: seq<byte>)

  /** What the environment decides for one `storeImage` call. */
  datatype StageEnv = StageEnv(
    stamp: nat,                 // time.Now().UnixNano()
    mkdirFault: Option<string>, // failure of os.MkdirAll, if any
    writeFault: Option<string>) // failure of os.WriteFile, if any

  /** The base64 decoder (`base64.StdEncoding.DecodeString`, padded, RFC 4648 section 4). */
  type Base64Decoder = string -> Result<seq<byte>, string>

  /**
   * The extension chosen from a data-URI header: the first of jpeg, png and gif
   * (in that order) whose media type occurs in `meta`, or none.
   */
  function MediaExt(meta: string): (r: Option<Ext>)
    ensures r.None? <==> forall e: Ext :: !Contains(meta, e.MediaType())
    ensures r.Some? ==> Contains(meta, r.value.MediaType())
    ensures r.Some? ==> forall e: Ext :: e.Rank() < r.value.Rank() ==> !Contains(meta, e.MediaType())
  {
    if Contains(meta, Jpg.MediaType()) then Some(Jpg)
    else if Contains(meta, Png.MediaType()) then Some(Png)
    else if Contains(meta, Gif.MediaType()) then Some(Gif)
    else None
  }

  /** A header naming both jpeg and png is taken as jpeg. */
  lemma JpegBeforePng(meta: string)
    requires Contains(meta, "image/jpeg") && Contains(meta, "image/png")
    ensures MediaExt(meta) == Some(Jpg)
  {
  }

  /**
   * The header part of `storeImage`: without a `data:` prefix the whole input is
   * the payload and the extension stays `png`; with it, the header is split off
   * at the first comma and its media type picks the extension.
   */
  function ParseDataUri(s: string): (r: Result<Payload, StoreError>)
    ensures !HasPrefix(s, DataScheme) ==> r == Ok(Payload(Png, s))
    ensures r == Err(InvalidFormat) <==> HasPrefix(s, DataScheme) && ',' !in s
    ensures r.Err? ==> r.error == InvalidFormat || r.error == UnsupportedType
    ensures r.Ok? ==> |r.value.body| <= |s| && r.value.body == s[|s| - |r.value.body|..]
  {
    if !HasPrefix(s, DataScheme) then Ok(Payload(Png, s))
    else
      var parts := SplitOnce(s, ',');
      if |parts| != 2 then Err(InvalidFormat)
      else
        match MediaExt(parts[0])
        case None => Err(UnsupportedType)
        case Some(ext) =>
          assert s == parts[0] + [','] + parts[1];
          Ok(Payload(ext, parts[1]))
  }

  /**
   * With a `data:` header, the header is everything before the first comma and the
   * payload everything after it, later commas included.
   */
  lemma {:induction false} ParseSplitsAtFirstComma(header: string, body: string)
    requires HasPrefix(header, DataScheme) && ',' !in header
    ensures ParseDataUri(header + [','] + body) ==
            match MediaExt(header)
            case Some(ext) => Ok(Payload(ext, body))
            case None => Err(UnsupportedType)
  {
    var s := header + [','] + body;
    assert s[..|DataScheme|] == header[..|DataScheme|];
    SplitAtFirstSeparator(header, ',', body);
  }

  /** Every check `storeImage` makes before it touches the file system. */
  function Prepare(input: string, decode: Base64Decoder): (r: Result<Staged, StoreError>)
    ensures r.Err? ==> !r.error.IsIoError()
    ensures r.Ok? <==> ParseDataUri(input).Ok? && decode(ParseDataUri(input).value.body).Ok?
    ensures r.Ok? ==> r.value == Staged(ParseDataUri(input).value.ext, decode(ParseDataUri(input).value.body).value)
    ensures ParseDataUri(input).Err? ==> r == Err(ParseDataUri(input).error)
    ensures ParseDataUri(input).Ok? && decode(ParseDataUri(input).value.body).Err? ==>
      r == Err(DecodeFailed(decode(ParseDataUri(input).value.body).error))
  {
    match ParseDataUri(input)
    case Err(e) => Err(e)
    case Ok(p) =>
      match decode(p.body)
      case Err(d) => Err(DecodeFailed(d))
      case Ok(bytes) => Ok(Staged(p.ext, bytes))
  }

  /** `./temp/image_<stamp>.<ext>`. */
  function StagedPath(stamp: nat, ext: Ext): string {
    TempPrefix + Decimal(stamp) + "." + ext.Name()
  }

  /** Different time stamps or extensions never name the same staging file. */
  lemma {:induction false} StagedPathInjective(m: nat, e: Ext, n: nat, f: Ext)
    requires StagedPath(m, e) == StagedPath(n, f)
    ensures m == n && e == f
  {
    var a, b := Decimal(m) + "." + e.Name(), Decimal(n) + "." + f.Name();
    assert a == StagedPath(m, e)[|TempPrefix|..];
    assert b == StagedPath(n, f)[|TempPrefix|..];
    assert '.' !in Decimal(m) && '.' !in Decimal(n);
    SplitAtFirstSeparator(Decimal(m), '.', e.Name());
    SplitAtFirstSeparator(Decimal(n), '.', f.Name());
    DecimalInjective(m, n);
  }

  /**
   * The whole outcome of `storeImage` in a file system whose directories are
   * `dirs`: the error, or the file it writes.
   */
  function StoreOutcome(dirs: set<string>, input: string, decode: Base64Decoder, env: StageEnv): Result<Written, StoreError> {
    match Prepare(input, decode)
    case Err(e) => Err(e)
    case Ok(st) =>
      if TempDir !in dirs && env.mkdirFault.Some? then Err(MkdirFailed(env.mkdirFault.value))
      else if env.writeFault.Some? then Err(WriteFailed(env.writeFault.value))
      else Ok(Written(StagedPath(env.stamp, st.ext), st.data))
  }

  /**
   * An unknown media type, a missing comma or bad base64 is reported the same way
   * whatever the file system and the clock would have done.
   */
  lemma RejectsBeforeIo(dirs: set<string>, input: string, decode: Base64Decoder, env: StageEnv)
    requires Prepare(input, decode).Err?
    ensures StoreOutcome(dirs, input, decode, env) == Err(Prepare(input, decode).error)
    ensures !StoreOutcome(dirs, input, decode, env).error.IsIoError()
  {
  }

  /**
   * A stored image lands at `./temp/image_<stamp>.<ext>`, with the extension the
   * header chose, holding exactly the decoded payload.
   */
  lemma StoredFileShape(dirs: set<string>, input: string, decode: Base64Decoder, env: StageEnv)
    requires StoreOutcome(dirs, input, decode, env).Ok?
    ensures var w := StoreOutcome(dirs, input, decode, env).value;
      && HasPrefix(w.path, TempPrefix)
      && w.path == StagedPath(env.stamp, ParseDataUri(input).value.ext)
      && w.data == decode(ParseDataUri(input).value.body).value
  {
    var w := StoreOutcome(dirs, input, decode, env).value;
    var ext := Prepare(input, decode).value.ext;
    assert w.path == StagedPath(env.stamp, ext);
    assert w.path[..|TempPrefix|] == TempPrefix;
  }

  /**
   * `storeImage`: validate, decode, make sure `temp` exists, write the file and
   * return its path. Every rejection that does not come from the file system
   * happens before anything on disk changes.
   */
  method StoreImage(fs: FileSystem, input: string, decode: Base64Decoder, env: StageEnv)
    returns (r: Result<string, StoreError>)
    modifies fs
    ensures var o := StoreOutcome(old(fs.dirs), input, decode, env);
      && (o.Ok? ==> r == Ok(o.value.path) && fs.files == old(fs.files)[o.value.path := o.value.data])
      && (o.Err? ==> r == Err(o.error) && fs.files == old(fs.files))
    ensures fs.dirs == old(fs.dirs) +
      (if Prepare(input, decode).Ok? && (TempDir in old(fs.dirs) || env.mkdirFault.None?) then {TempDir} else {})
  {
    var ext := Png;
    var body := input;
    if HasPrefix(input, DataScheme) {
      var parts := SplitOnce(input, ',');
      if |parts| != 2 {
        return Err(InvalidFormat);
      }
      var meta := parts[0];
      body := parts[1];
      var chosen := MediaExt(meta);
      if chosen.None? {
        return Err(UnsupportedType);
      }
      ext := chosen.value;
    }

    var decoded := decode(body);
    if decoded.Err? {
      return Err(DecodeFailed(decoded.error));
    }

    var mkdirErr := fs.MkdirAll(TempDir, env.mkdirFault);
    if mkdirErr.Some? {
      return Err(MkdirFailed(mkdirErr.value));
    }

    var path := StagedPath(env.stamp, ext);
    var writeErr := fs.WriteFile(path, decoded.value, env.writeFault);
    if writeErr.Some? {
      return Err(WriteFailed(writeErr.value));
    }
    return Ok(path);
  }

  /** The files after `convert` ran over `path` with outcome `output`: rewritten only when it succeeded on an existing file. */
  function Sanitized(files: map<string, seq<byte>>, path: string, output: Option<seq<byte>>): (r: map<string, seq<byte>>)
    ensures r.Keys == files.Keys
    ensures forall p :: p in r && p != path ==> r[p] == files[p]
    ensures output.None? ==> r == files
  {
    if path in files && output.Some? then files[path := output.value] else files
  }

  /**
   * `sanitizeImage`: run `convert` over the file in place and only log a failure.
   * `output` is what the process would write, `None` when it fails.
   */
  method SanitizeImage(fs: FileSystem, path: string, output: Option<seq<byte>>)
    modifies fs
    ensures fs.files == Sanitized(old(fs.files), path, output)
    ensures path in fs.files && output.Some? ==> fs.files[path] == output.value
    ensures fs.dirs == old(fs.dirs)
  {
    var _ := fs.Convert(path, output);
  }

  /** `deleteFile`: remove the file; a failure (`fault`, or a missing file) is only logged. */
  method DeleteFile(fs: FileSystem, path: string, fault: Option<string>)
    modifies fs
    ensures fs.files == if fault.None? then old(fs.files) - {path} else old(fs.files)
    ensures fs.dirs == old(fs.dirs)
  {
    var _ := fs.Remove(path, fault);
  }

  /**
   * `StoreOutcome` for a `storeImage` that creates its file exclusively
   * (`O_EXCL`, as `os.CreateTemp` does) instead of truncating whatever is at
   * the path: a taken path is a write error.
   */
  function ExclusiveStoreOutcome(dirs: set<string>, files: map<string, seq<byte>>, input: string,
                                 decode: Base64Decoder, env: StageEnv): Result<Written, StoreError> {
    match Prepare(input, decode)
    case Err(e) => Err(e)
    case Ok(st) =>
      var path := StagedPath(env.stamp, st.ext);
      if TempDir !in dirs && env.mkdirFault.Some? then Err(MkdirFailed(env.mkdirFault.value))
      else if path in files then Err(WriteFailed(ExistsError(path)))
      else if env.writeFault.Some? then Err(WriteFailed(env.writeFault.value))
      else Ok(Written(path, st.data))
  }

  /**
   * An exclusive store never replaces a file: what it writes is at a path that
   * did not exist, and it differs from `storeImage` only by refusing a taken path.
   */
  lemma ExclusiveStoreIsFresh(dirs: set<string>, files: map<string, seq<byte>>, input: string,
                              decode: Base64Decoder, env: StageEnv)
    ensures var o := ExclusiveStoreOutcome(dirs, files, input, decode, env);
      o.Ok? ==> o.value.path !in files && o == StoreOutcome(dirs, input, decode, env)
    ensures var o := ExclusiveStoreOutcome(dirs, files, input, decode, env);
      o.Err? ==> o == StoreOutcome(dirs, input, decode, env)
                 || (Prepare(input, decode).Ok?
                     && var path := StagedPath(env.stamp, Prepare(input, decode).value.ext);
                     path in files && o.error == WriteFailed(ExistsError(path)))
  {
    match Prepare(input, decode)
    case Err(_) =>
    case Ok(st) =>
      assert StoreOutcome(dirs, input, decode, env) == if TempDir !in dirs && env.mkdirFault.Some? then Err(MkdirFailed(env.mkdirFault.value))
        else if env.writeFault.Some? then Err(WriteFailed(env.writeFault.value))
        else Ok(Written(StagedPath(env.stamp, st.ext), st.data));
  }

  /** `storeImage` with the write done by an exclusive create. */
  method StoreImageExclusive(fs: FileSystem, input: string, decode: Base64Decoder, env: StageEnv)
    returns (r: Result<string, StoreError>)
    modifies fs
    ensures var o := ExclusiveStoreOutcome(old(fs.dirs), old(fs.files), input, decode, env);
      && (o.Ok? ==> r == Ok(o.value.path) && fs.files == old(fs.files)[o.value.path := o.value.data])
      && (o.Err? ==> r == Err(o.error) && fs.files == old(fs.files))
    ensures fs.dirs == old(fs.dirs) +
      (if Prepare(input, decode).Ok? && (TempDir in old(fs.dirs) || env.mkdirFault.None?) then {TempDir} else {})
  {
    var ext := Png;
    var body := input;
    if HasPrefix(input, DataScheme) {
      var parts := SplitOnce(input, ',');
      if |parts| != 2 {
        return Err(InvalidFormat);
      }
      body := parts[1];
      var chosen := MediaExt(parts[0]);
      if chosen.None? {
        return Err(UnsupportedType);
      }
      ext := chosen.value;
    }

    var decoded := decode(body);
    if decoded.Err? {
      return Err(DecodeFailed(decoded.error));
    }

    var mkdirErr := fs.MkdirAll(TempDir, env.mkdirFault);
    if mkdirErr.Some? {
      return Err(MkdirFailed(mkdirErr.value));
    }

    var path := StagedPath(env.stamp, ext);
    var writeErr := fs.CreateExclusive(path, decoded.value, env.writeFault);
    if writeErr.Some? {
      return Err(WriteFailed(writeErr.value));
    }
    return Ok(path);
  }
}
