/**
  The encoding detector as the analyzer consumes it. Reading a file and the
  statistical sniffing of `chardet` are capabilities of the host, given as
  functions; `detect_encoding` only composes them and turns a failed read
  into "no label".
*/
module Detection {
  import opened Options

  newtype byte = x: int | 0 <= x < 256

  type Path = string

  /** An encoding name as the detector spells it, compared exactly. */
  type Label = string

  /** What opening and reading a file in binary mode gives. */
  datatype ReadResult = Bytes(data: seq<byte>) | ReadFailed

  /**
    The host capabilities the engine calls: `os.path.join`, reading a whole
    file, and `chardet.detect(...)['encoding']` (None below the detector's
    confidence floor, or when it raises).
  */
  datatype Host = Host(
    join: (Path, string) -> Path,
    read: Path -> ReadResult,
    sniff: seq<byte> -> Option<Label>)

  /** `detect_encoding`: the sniffer's verdict on the file's bytes; any read exception gives None. */
  function DetectEncoding(host: Host, path: Path): (r: Option<Label>)
    ensures host.read(path).ReadFailed? ==> r == None
    ensures host.read(path).Bytes? ==> r == host.sniff(host.read(path).data)
  {
    match host.read(path)
    case ReadFailed => None
    case Bytes(data) => host.sniff(data)
  }

  /** The loop's `if encoding:`: None and the empty name are both false. */
  predicate Accepted(e: Option<Label>)
  {
    e.Some? && e.value != ""
  }
}
