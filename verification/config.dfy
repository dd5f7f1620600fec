/**
 * The typed site configuration of utils/config.go and its loader, plus the
 * loosely typed YAML document that the build command and the legacy entry
 * point decode instead.
 */
module SiteConfig {
  import opened Paths
  import opened FileSystem

  datatype Theme = Theme(background: string, text: string, button: string, buttonText: string, buttonHover: string)

  datatype Social = Social(icon: string, url: string)

  datatype Link = Link(name: string, url: string)

  datatype Params = Params(
    avatar: string,
    name: string,
    headline: string,
    theme: Theme,
    socials: seq<Social>,
    links: seq<Link>)

  datatype Config = Config(params: Params)

  /** Config{}: every string empty, every list nil. */
  const ZeroConfig := Config(Params("", "", "", Theme("", "", "", "", ""), [], []))

  datatype LoadError = ReadError(path: Path) | ParseError(path: Path)

  /** Go's (value, error) pair. */
  datatype Loaded<T> = Loaded(value: T, err: Option<LoadError>)

  /**
   * LoadConfig(path): reads the file, then hands its bytes to the YAML
   * decoder `unmarshal`; on either failure the zero Config comes back with
   * the error.
   */
  function LoadConfig(fs: Entries, path: Path, readDenied: bool, unmarshal: Bytes -> Option<Config>): (r: Loaded<Config>)
    ensures r.err.Some? ==> r.value == ZeroConfig
    ensures r.err == Some(ReadError(path)) <==> ReadBytes(fs, path, readDenied).None?
    ensures r.err == Some(ParseError(path)) <==>
              ReadBytes(fs, path, readDenied).Some? && unmarshal(ReadBytes(fs, path, readDenied).value).None?
    ensures ReadBytes(fs, path, readDenied).Some? && unmarshal(ReadBytes(fs, path, readDenied).value).Some? ==>
              r == Loaded(unmarshal(ReadBytes(fs, path, readDenied).value).value, None)
    ensures r.err.None? <==>
              ReadBytes(fs, path, readDenied).Some? && unmarshal(ReadBytes(fs, path, readDenied).value) == Some(r.value)
  {
    match ReadBytes(fs, path, readDenied)
    case None => Loaded(ZeroConfig, Some(ReadError(path)))
    case Some(data) =>
      match unmarshal(data)
      case None => Loaded(ZeroConfig, Some(ParseError(path)))
      case Some(config) => Loaded(config, None)
  }

  /**
   * A YAML value decoded into interface{}: a string, another scalar (already
   * in its %v text), a mapping, a list; `StringMap` is the
   * map[string]string that theme resolution stores.
   */
  datatype Yaml =
    | Str(s: string)
    | Scalar(text: string)
    | Mapping(fields: map<string, Yaml>)
    | StringMap(pairs: map<string, string>)
    | Sequence(items: seq<Yaml>)

  /** map[string]interface{}; a nil map reads as empty. */
  type Document = map<string, Yaml>
}
