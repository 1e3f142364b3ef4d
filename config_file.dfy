/** The text of the `.backupconf` file that `BackupConfiguration.save` writes
    and `BackupConfiguration.load` reads: the identifier in hexadecimal on the
    first line, then one path per line. */
module ConfigFile {
  import opened Paths
  import opened Bytes
  import opened Uuids

  /** The name of the file, resolved against the configuration's root. */
  const ConfFile: Name := ".backupconf"

  /** The line separator `BufferedWriter.newLine` writes on Unix. */
  const NewLine: char := '\n'
  const CarriageReturn: char := '\r'

  predicate NoLineBreak(s: string)
  {
    NewLine !in s && CarriageReturn !in s
  }

  /** Every line followed by a line separator. */
  function WriteLines(lines: seq<string>): string
  {
    if lines == [] then "" else lines[0] + [NewLine] + WriteLines(lines[1..])
  }

  /** `Files.readAllLines`: a line ends at "\n", at "\r" or at "\r\n"; text
      after the last separator is a last line when it is not empty. */
  function ReadAllLines(text: string): seq<string>
  {
    LinesFrom(text, "")
  }

  /** ReadAllLines, where `cur` holds the characters of the line being read. */
  function LinesFrom(t: string, cur: string): seq<string>
    decreases |t|
  {
    if t == [] then (if cur == [] then [] else [cur])
    else if t[0] == NewLine then [cur] + LinesFrom(t[1..], "")
    else if t[0] == CarriageReturn then
      [cur] + LinesFrom(if |t| > 1 && t[1] == NewLine then t[2..] else t[1..], "")
    else LinesFrom(t[1..], cur + [t[0]])
  }

  lemma {:induction false} LinesFromLine(line: string, cur: string, rest: string)
    requires NoLineBreak(line)
    ensures LinesFrom(line + rest, cur) == LinesFrom(rest, cur + line)
  {
    if line == [] {
      assert line + rest == rest && cur + line == cur;
    } else {
      assert (line + rest)[1..] == line[1..] + rest;
      assert (line + rest)[0] == line[0];
      LinesFromLine(line[1..], cur + [line[0]], rest);
      assert cur + [line[0]] + line[1..] == cur + line;
    }
  }

  lemma {:induction false} WriteLinesAppend(a: seq<string>, b: seq<string>)
    ensures WriteLines(a + b) == WriteLines(a) + WriteLines(b)
  {
    if a == [] {
      assert a + b == b;
    } else {
      assert (a + b)[1..] == a[1..] + b;
      WriteLinesAppend(a[1..], b);
    }
  }

  /** Lines without separators are read back as they were written. */
  lemma {:induction false} ReadWriteLines(lines: seq<string>)
    requires forall i :: 0 <= i < |lines| ==> NoLineBreak(lines[i])
    ensures ReadAllLines(WriteLines(lines)) == lines
  {
    if lines != [] {
      var rest := [NewLine] + WriteLines(lines[1..]);
      assert WriteLines(lines) == lines[0] + rest;
      LinesFromLine(lines[0], "", rest);
      assert "" + lines[0] == lines[0];
      assert rest[1..] == WriteLines(lines[1..]);
      assert LinesFrom(rest, lines[0]) == [lines[0]] + LinesFrom(rest[1..], "");
      ReadWriteLines(lines[1..]);
      assert lines == [lines[0]] + lines[1..];
    }
  }

  /** A path that can be stored on a line of its own and read back. */
  predicate Storable(p: Path)
  {
    Printable(p) && forall i :: 0 <= i < |p.names| ==> NoLineBreak(p.names[i])
  }

  lemma JoinNoLineBreak(names: seq<Name>)
    requires forall i :: 0 <= i < |names| ==> NoLineBreak(names[i])
    ensures NoLineBreak(Join(names))
  {
    if |names| > 1 {
      JoinNoLineBreak(names[1..]);
    }
  }

  lemma HexNoLineBreak(bs: seq<Byte>)
    ensures NoLineBreak(PrintHexBinary(bs))
  {
    if bs != [] {
      HexNoLineBreak(bs[1..]);
    }
  }

  /** The first line: the 16 bytes of the identifier in hexadecimal. */
  function IdLine(id: Uuid): string
  {
    PrintHexBinary(ToBytes(id))
  }

  function PathLines(dirs: seq<Path>): (lines: seq<string>)
    ensures |lines| == |dirs|
  {
    seq(|dirs|, i requires 0 <= i < |dirs| => ToString(dirs[i]))
  }

  /** The text `save` writes for an identifier and the paths in TreeSet order. */
  function Encode(id: Uuid, dirs: seq<Path>): string
  {
    WriteLines([IdLine(id)] + PathLines(dirs))
  }

  datatype DecodeError =
    | MissingIdLine               // `lines.get(0)` on an empty file
    | MalformedId(line: string)   // `parseHexBinary` refuses the first line
    | ShortId(line: string)       // fewer than 16 bytes: the LongBuffer underflows
    | MalformedPath(line: string) // `Paths.get` refuses a line

  datatype Stored = Stored(id: Uuid, dirs: seq<Path>)

  datatype DecodeResult = Ok(value: Stored) | Err(error: DecodeError)

  datatype PathsResult = PathsOk(paths: seq<Path>) | PathsErr(line: string)

  /** `Paths.get` of every line in turn; the first line it refuses is reported. */
  function ParsePaths(lines: seq<string>): (r: PathsResult)
    ensures r.PathsOk? ==> |r.paths| == |lines|
    ensures r.PathsOk? <==> forall i :: 0 <= i < |lines| ==> Nul !in lines[i]
    ensures r.PathsErr? ==> r.line in lines && Nul in r.line
  {
    if lines == [] then PathsOk([])
    else match Parse(lines[0])
      case Invalid(_) => PathsErr(lines[0])
      case Parsed(p) =>
        var rest := ParsePaths(lines[1..]);
        if rest.PathsOk? then
          assert forall i :: 1 <= i < |lines| ==> Nul !in lines[i] by {
            forall i | 1 <= i < |lines| ensures Nul !in lines[i] {
              assert lines[i] == lines[1..][i - 1];
            }
          }
          PathsOk([p] + rest.paths)
        else
          rest
  }

  /** Parsing lines in two parts: the first line refused is in the first part
      if there is one there. */
  lemma {:induction false} ParsePathsAppend(a: seq<string>, b: seq<string>)
    ensures ParsePaths(a + b) ==
              match ParsePaths(a)
              case PathsErr(line) => PathsErr(line)
              case PathsOk(x) =>
                match ParsePaths(b)
                case PathsErr(line) => PathsErr(line)
                case PathsOk(y) => PathsOk(x + y)
  {
    if a == [] {
      assert a + b == b;
      match ParsePaths(b)
      case PathsErr(_) =>
      case PathsOk(y) => assert [] + y == y;
    } else {
      assert (a + b)[0] == a[0] && (a + b)[1..] == a[1..] + b;
      ParsePathsAppend(a[1..], b);
    }
  }

  /** What `load` makes of the text of an existing configuration file. */
  function Decode(text: string): (r: DecodeResult)
    ensures r.Err? && r.error == MissingIdLine <==> ReadAllLines(text) == []
    ensures r.Ok? ==> |r.value.dirs| == |ReadAllLines(text)| - 1
  {
    var lines := ReadAllLines(text);
    if |lines| == 0 then Err(MissingIdLine)
    else match ParseHexBinary(lines[0])
      case OddLength => Err(MalformedId(lines[0]))
      case IllegalCharacter => Err(MalformedId(lines[0]))
      case Decoded(bytes) =>
        match FromBytes(bytes)
        case BufferUnderflow => Err(ShortId(lines[0]))
        case Read(id) =>
          match ParsePaths(lines[1..])
          case PathsErr(line) => Err(MalformedPath(line))
          case PathsOk(paths) => Ok(Stored(id, paths))
  }

  lemma {:induction false} ParsePathLines(dirs: seq<Path>)
    requires forall i :: 0 <= i < |dirs| ==> Storable(dirs[i])
    ensures ParsePaths(PathLines(dirs)) == PathsOk(dirs)
  {
    if dirs != [] {
      ParseToString(dirs[0]);
      assert PathLines(dirs)[1..] == PathLines(dirs[1..]);
      ParsePathLines(dirs[1..]);
      assert dirs == [dirs[0]] + dirs[1..];
    }
  }

  /** Loading the text that was saved gives back the identifier and the paths,
      in the same order, provided no path has a line separator or a NUL in a
      name. */
  lemma DecodeEncode(id: Uuid, dirs: seq<Path>)
    requires forall i :: 0 <= i < |dirs| ==> Storable(dirs[i])
    ensures Decode(Encode(id, dirs)) == Ok(Stored(id, dirs))
  {
    var lines := [IdLine(id)] + PathLines(dirs);
    HexNoLineBreak(ToBytes(id));
    forall i | 0 <= i < |lines| ensures NoLineBreak(lines[i]) {
      if i > 0 {
        JoinNoLineBreak(dirs[i - 1].names);
      }
    }
    ReadWriteLines(lines);
    ParsePrintHexBinary(ToBytes(id));
    FromToBytes(id);
    assert lines[1..] == PathLines(dirs);
    ParsePathLines(dirs);
  }
}
