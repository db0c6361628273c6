/**
 How gobble chooses where the body goes: the output name `openOutfile`
 settles on, the file it opens, and `main`'s choice between that file and
 standard output.
 */
module OutputTarget {
  import opened GoIo
  import opened FilePath
  import opened Gobble

  datatype Result<+T> = Ok(value: T) | Err(error: Error)

  /** The output name `openOutfile` settles on, as written: a non-empty `-o`
      value verbatim, otherwise `filepath.Base` of the URL path, where
      `parsedPath` is what `url.Parse` made of the target. A name that comes
      out empty is refused with `NoFileName`. */
  function OutputName(explicit: string, parsedPath: Result<string>): (r: Result<string>)
    // an explicit name wins, whatever the URL
    ensures explicit != [] ==> r == Ok(explicit)
    // a URL that does not parse is reported as such
    ensures explicit == [] && parsedPath.Err? ==> r == Err(parsedPath.error)
    // otherwise the name is the base of the URL path: the emptiness check never fires
    ensures explicit == [] && parsedPath.Ok? ==> r == Ok(Base(parsedPath.value))
  {
    if explicit != [] then Ok(explicit)
    else
      match parsedPath
      case Err(e) => Err(e)
      case Ok(path) =>
        var name := Base(path);
        if name == [] then Err(NoFileName) else Ok(name)
  }

  /** `openOutfile()`: the chosen name is handed to `os.Create`, modelled by
      `create`; any failure comes back as the error, with no file. */
  function OpenOutfile(explicit: string, parsedPath: Result<string>, create: string -> Result<Writer>): (r: Result<Writer>)
    ensures r.Ok? <==> OutputName(explicit, parsedPath).Ok? && create(OutputName(explicit, parsedPath).value).Ok?
    // once a name is chosen, `os.Create`'s file or error comes back unchanged
    ensures OutputName(explicit, parsedPath).Ok? ==> r == create(OutputName(explicit, parsedPath).value)
    ensures OutputName(explicit, parsedPath).Err? ==> r == Err(OutputName(explicit, parsedPath).error)
  {
    match OutputName(explicit, parsedPath)
    case Err(e) => Err(e)
    case Ok(name) => create(name)
  }

  /** The file `openOutfile` creates: the `-o` name even when the URL does not
      parse; without `-o`, the parse error with nothing created, or the last
      element of the URL path. */
  lemma OpenOutfileCreates(dir: string, name: string, code: nat, create: string -> Result<Writer>)
    requires IsFileName(name)
    ensures OpenOutfile(name, Err(BadUrl(code)), create) == create(name)
    ensures OpenOutfile("", Err(BadUrl(code)), create) == Err(BadUrl(code))
    ensures OpenOutfile("", Ok(dir + "/" + name), create) == create(name)
  {
    BaseOfJoin(dir, name);
  }

  /** The `file` that `main` hands to `copyContent`: none (standard output)
      under `-s`; otherwise whatever `openOutfile` returned, its error
      discarded, so a failed open also leaves no file. */
  function Destination(toStdOut: bool, explicit: string, parsedPath: Result<string>,
                       create: string -> Result<Writer>): (file: Option<Writer>)
    ensures file.None? <==> toStdOut || OpenOutfile(explicit, parsedPath, create).Err?
    ensures file.Some? ==> file.value == OpenOutfile(explicit, parsedPath, create).value
  {
    if toStdOut then None
    else
      match OpenOutfile(explicit, parsedPath, create)
      case Ok(f) => Some(f)
      case Err(_) => None
  }

  /** Without `-s`, a failed open sends the body to standard output instead of
      stopping: every `bufWrite` then goes to standard output. */
  lemma FailedOpenWritesToStdout(explicit: string, parsedPath: Result<string>,
                                 create: string -> Result<Writer>, content: seq<byte>, stdout: Writer)
    requires OpenOutfile(explicit, parsedPath, create).Err?
    ensures var r := BufWrite(content, Destination(false, explicit, parsedPath, create), stdout);
            r.file.None? && r.stdout.calls == stdout.calls + [content]
  {
  }

  // ---------------------------------------------------------------------------
  // The emptiness check of `openOutfile`, as written and as intended

  /** `filepath.Base` never yields the empty string, so `OutputName` never
      refuses a URL for lacking a file name. */
  lemma NoFileNameUnreachable(explicit: string, parsedPath: Result<string>)
    requires parsedPath.Err? ==> parsedPath.error != NoFileName
    ensures OutputName(explicit, parsedPath) != Err(NoFileName)
  {
  }

  /** A URL with an empty path is named ".", the root path "/", and one
      ending in ".." is named "..": names of directories, not of a new file. */
  lemma DirectoryNamesGetThrough()
    ensures OutputName("", Ok("")) == Ok(".")
    ensures OutputName("", Ok("/")) == Ok("/")
    ensures OutputName("", Ok("/a/..")) == Ok("..")
  {
    assert Base("") == ".";
    assert AllSlashes("/");
    var p := "/a/..";
    assert !AllSlashes(p) by { assert p[1] != '/'; }
    assert p == "/a" + "/" + "..";
    LastElementAfterSlash("/a", "..");
    assert Base(p) == "..";
  }

  /** A name that `os.Create` can make as a new file in the working
      directory: one path element other than "." and "..". */
  predicate IsFileName(name: string)
  {
    IsElement(name) && name != "." && name != ".."
  }

  /** The evidently intended check: refuse a derived name that is not a file
      name, the empty one included. */
  function OutputNameChecked(explicit: string, parsedPath: Result<string>): (r: Result<string>)
    ensures explicit != [] ==> r == Ok(explicit)
    ensures explicit == [] && parsedPath.Err? ==> r == Err(parsedPath.error)
    // a derived name is always a file name, and it is the URL path's base
    ensures explicit == [] && r.Ok? ==> IsFileName(r.value) && parsedPath.Ok? && r.value == Base(parsedPath.value)
    // the derivation fails exactly when the base is not a file name
    ensures explicit == [] && parsedPath.Ok? ==> (r == Err(NoFileName) <==> !IsFileName(Base(parsedPath.value)))
  {
    if explicit != [] then Ok(explicit)
    else
      match parsedPath
      case Err(e) => Err(e)
      case Ok(path) =>
        var name := Base(path);
        if name == [] || name == "." || name == ".." || name == "/" then Err(NoFileName) else Ok(name)
  }

  /** For a URL path that names a file, the checked choice agrees with the
      one as written. */
  lemma CheckedAgreesOnFilePaths(dir: string, name: string)
    requires IsFileName(name)
    ensures OutputNameChecked("", Ok(dir + "/" + name)) == Ok(name)
    ensures OutputName("", Ok(dir + "/" + name)) == Ok(name)
  {
    BaseOfJoin(dir, name);
  }
}
