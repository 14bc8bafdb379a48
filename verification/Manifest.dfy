/** The local-file manifest: percent-encoded paths, hexadecimal digests, the line
    format, and reading a whole written document back. */
module Manifest {
  import opened Basics
  import opened Text

  const HEADER := "# glam local-file manifest v2"
  const PATH_COLUMN := "# percent-encoded platform path"
  const COLUMNS := PATH_COLUMN + " bytes<TAB>digest algorithm" + "<TAB>hex digest bytes"
  const ALGORITHM := "sha256"

  type Path = seq<byte>

  type Digest = d: seq<byte> | |d| == 32 witness seq(32, _ => 0)

  datatype Entry = Entry(path: Path, digest: Digest)

  // ---- Hexadecimal ----

  function HexDigitChar(n: int): char
    requires 0 <= n < 16
  {
    "0123456789abcdef"[n]
  }

  /** The value of one digit, either case. */
  function HexDigit(c: char): Option<int> {
    if '0' <= c <= '9' then Some(c as int - '0' as int)
    else if 'a' <= c <= 'f' then Some(c as int - 'a' as int + 10)
    else if 'A' <= c <= 'F' then Some(c as int - 'A' as int + 10)
    else None
  }

  lemma HexDigitRange(c: char)
    ensures HexDigit(c).Some? ==> 0 <= HexDigit(c).value < 16
  {
  }

  function HexByte(b: byte): string {
    [HexDigitChar(b as int / 16), HexDigitChar(b as int % 16)]
  }

  function Hex(bytes: seq<byte>): string {
    if bytes == [] then "" else HexByte(bytes[0]) + Hex(bytes[1..])
  }

  /** One byte from two digits. */
  function PairByte(high: char, low: char): Option<byte> {
    HexDigitRange(high);
    HexDigitRange(low);
    match (HexDigit(high), HexDigit(low))
    case (Some(h), Some(l)) => Some((16 * h + l) as byte)
    case _ => None
  }

  function Unhex(text: string): Option<seq<byte>> {
    if |text| < 2 then (if text == [] then Some([]) else None)
    else
      match (PairByte(text[0], text[1]), Unhex(text[2..]))
      case (Some(b), Some(rest)) => Some([b] + rest)
      case _ => None
  }

  predicate IsAscii(text: string) {
    forall i :: 0 <= i < |text| ==> text[i] as int < 128
  }

  lemma {:induction false} UnhexLength(text: string)
    ensures Unhex(text).Some? ==> 2 * |Unhex(text).value| == |text|
  {
    if |text| >= 2 {
      UnhexLength(text[2..]);
    }
  }

  /** Exactly 64 hexadecimal digits. */
  function ParseDigest(text: string): Option<Digest> {
    UnhexLength(text);
    if |text| != 64 || !IsAscii(text) then None
    else match Unhex(text) case Some(bytes) => Some(bytes) case None => None
  }

  lemma HexByteRoundTrip(b: byte)
    ensures PairByte(HexByte(b)[0], HexByte(b)[1]) == Some(b)
  {
    var h, l := b as int / 16, b as int % 16;
    HexCharRoundTrip(h);
    HexCharRoundTrip(l);
  }

  lemma HexCharRoundTrip(n: int)
    requires 0 <= n < 16
    ensures HexDigit(HexDigitChar(n)) == Some(n)
    ensures IsPlain(HexDigitChar(n))
  {
  }

  lemma {:induction false} HexRoundTrip(bytes: seq<byte>)
    ensures Unhex(Hex(bytes)) == Some(bytes)
    ensures |Hex(bytes)| == 2 * |bytes|
  {
    if bytes != [] {
      HexRoundTrip(bytes[1..]);
      HexByteRoundTrip(bytes[0]);
      assert Hex(bytes)[2..] == Hex(bytes[1..]);
      assert [bytes[0]] + bytes[1..] == bytes;
    }
  }

  lemma {:induction false} HexCoded(bytes: seq<byte>)
    ensures Coded(Hex(bytes))
  {
    if bytes != [] {
      HexCoded(bytes[1..]);
      HexCharRoundTrip(bytes[0] as int / 16);
      HexCharRoundTrip(bytes[0] as int % 16);
    }
  }

  lemma DigestRoundTrip(digest: Digest)
    ensures ParseDigest(Hex(digest)) == Some(digest)
  {
    HexRoundTrip(digest);
    HexCoded(digest);
  }

  // ---- Percent encoding ----

  predicate IsPlain(c: char) {
    'a' <= c <= 'z' || 'A' <= c <= 'Z' || '0' <= c <= '9' || c in ['/', '.', '_', '-', ':']
  }

  function EncodeByte(b: byte): string {
    if IsPlain(b as char) then [b as char] else ['%'] + HexByte(b)
  }

  function EncodePath(path: Path): string {
    if path == [] then "" else EncodeByte(path[0]) + EncodePath(path[1..])
  }

  datatype PathError = NotAscii | IncompleteEscape | InvalidEscape | Unescaped

  function DecodeBytes(text: string): Result<Path, PathError> {
    if text == [] then Ok([])
    else if text[0] == '%' then
      if |text| < 3 then Err(IncompleteEscape)
      else
        match PairByte(text[1], text[2])
        case None => Err(InvalidEscape)
        case Some(b) => Prepend([b], DecodeBytes(text[3..]))
    else if !IsPlain(text[0]) then Err(Unescaped)
    else Prepend([text[0] as byte], DecodeBytes(text[1..]))
  }

  function DecodePath(text: string): Result<Path, PathError> {
    if !IsAscii(text) then Err(NotAscii) else DecodeBytes(text)
  }

  /** The only scalars an encoded path or a digest is spelled with. */
  predicate IsCoded(c: char) {
    c == '%' || IsPlain(c)
  }

  predicate Coded(text: string) {
    forall i :: 0 <= i < |text| ==> IsCoded(text[i])
  }

  lemma DecodeEncodedByte(b: byte, rest: string)
    ensures DecodeBytes(EncodeByte(b) + rest) == Prepend([b], DecodeBytes(rest))
    ensures Coded(EncodeByte(b)) && EncodeByte(b) != []
  {
    var text := EncodeByte(b) + rest;
    if IsPlain(b as char) {
      assert text[0] == b as char && text[1..] == rest;
    } else {
      HexByteRoundTrip(b);
      HexCharRoundTrip(b as int / 16);
      HexCharRoundTrip(b as int % 16);
      assert text[0] == '%' && text[1] == HexByte(b)[0] && text[2] == HexByte(b)[1] && text[3..] == rest;
    }
  }

  lemma CodedAscii(text: string)
    requires Coded(text)
    ensures IsAscii(text)
  {
  }

  /** Percent encoding is undone by decoding, and uses no separator. */
  lemma {:induction false} PathRoundTrip(path: Path)
    ensures DecodePath(EncodePath(path)) == Ok(path)
    ensures Coded(EncodePath(path))
    ensures EncodePath(path) == [] <==> path == []
  {
    if path != [] {
      PathRoundTrip(path[1..]);
      DecodeEncodedByte(path[0], EncodePath(path[1..]));
      assert [path[0]] + path[1..] == path;
      CodedAscii(EncodePath(path));
    }
  }

  /** Two paths share an encoding only when they are the same bytes. */
  lemma EncodingInjective(a: Path, b: Path)
    requires EncodePath(a) == EncodePath(b)
    ensures a == b
  {
    PathRoundTrip(a);
    PathRoundTrip(b);
  }

  // ---- Lines and fields ----

  function StripReturn(line: string): string {
    if |line| > 0 && line[|line| - 1] == '\r' then line[..|line| - 1] else line
  }

  /** The lines of a text, without their ends; a return before a line feed belongs to the end. */
  function Lines(text: string): seq<string>
    decreases |text|
  {
    if text == [] then []
    else
      var k := FirstOf(text, '\n');
      if k == |text| then [text] else [StripReturn(text[..k])] + Lines(text[k + 1..])
  }

  /** The fields between separators; always at least one. */
  function Fields(text: string): seq<string>
    decreases |text|
  {
    var k := FirstOf(text, '\t');
    if k == |text| then [text] else [text[..k]] + Fields(text[k + 1..])
  }

  lemma LineThen(line: string, rest: string)
    requires Lacks(line, '\n') && Lacks(line, '\r')
    ensures Lines(line + "\n" + rest) == [line] + Lines(rest)
  {
    FirstOfUnique(line, '\n', rest);
    var text := line + "\n" + rest;
    assert text[..|line|] == line && text[|line| + 1..] == rest;
  }

  lemma FieldThen(field: string, rest: string)
    requires Lacks(field, '\t')
    ensures Fields(field + "\t" + rest) == [field] + Fields(rest)
  {
    FirstOfUnique(field, '\t', rest);
    var text := field + "\t" + rest;
    assert text[..|field|] == field && text[|field| + 1..] == rest;
  }

  lemma FieldLast(field: string)
    requires Lacks(field, '\t')
    ensures Fields(field) == [field]
  {
    FirstOfUnique(field, '\t', "");
  }

  // ---- Path identity ----

  /** The pieces with one more byte in front, a separator opening a new piece. */
  function AddByte(b: byte, pieces: seq<seq<byte>>): seq<seq<byte>>
    requires pieces != []
  {
    if b == 47 then [[]] + pieces else [[b] + pieces[0]] + pieces[1..]
  }

  function Pieces(path: Path): (pieces: seq<seq<byte>>)
    ensures pieces != []
  {
    if path == [] then [[]] else AddByte(path[0], Pieces(path[1..]))
  }

  /** Drops empty and current-directory pieces, which do not tell paths apart. */
  function Normal(pieces: seq<seq<byte>>): seq<seq<byte>> {
    if pieces == [] then []
    else if pieces[0] == [] || pieces[0] == [46] then Normal(pieces[1..])
    else [pieces[0]] + Normal(pieces[1..])
  }

  datatype PathKey = PathKey(rooted: bool, currentFirst: bool, components: seq<seq<byte>>)

  /** Paths are equal when their components are: repeated separators and inner `.`
      pieces are ignored, a leading `.` of a relative path is not. */
  function KeyOf(path: Path): PathKey {
    var pieces := Pieces(path);
    var rooted := path != [] && path[0] == 47;
    PathKey(rooted, !rooted && |pieces| > 0 && pieces[0] == [46], Normal(pieces))
  }

  // ---- The document ----

  function LineOf(entry: Entry): string {
    EncodePath(entry.path) + "\t" + ALGORITHM + "\t" + Hex(entry.digest)
  }

  function LinesOf(entries: seq<Entry>): seq<string> {
    if entries == [] then [] else [LineOf(entries[0])] + LinesOf(entries[1..])
  }

  function Body(entries: seq<Entry>): string {
    if entries == [] then "" else LineOf(entries[0]) + "\n" + Body(entries[1..])
  }

  /** The text written for a source system's observed digests, in map order. */
  function Write(entries: seq<Entry>): string {
    HEADER + "\n" + (COLUMNS + "\n" + Body(entries))
  }

  datatype LineError =
    | BadFields
    | UnsupportedAlgorithm(algorithm: string)
    | BadDigest
    | BadPath(error: PathError)
    | DuplicatePath(path: Path)

  datatype ManifestError =
    | EmptyManifest
    | UnsupportedHeader(header: string)
    | BadLine(number: nat, error: LineError)

  function ParseLine(line: string): Result<Entry, LineError> {
    var fields := Fields(line);
    if fields[0] == [] || |fields| != 3 then Err(BadFields)
    else if fields[1] != ALGORITHM then Err(UnsupportedAlgorithm(fields[1]))
    else
      match ParseDigest(fields[2])
      case None => Err(BadDigest)
      case Some(digest) =>
        match DecodePath(fields[0])
        case Err(e) => Err(BadPath(e))
        case Ok(path) => Ok(Entry(path, digest))
  }

  predicate Skipped(line: string) {
    line == [] || line[0] == '#'
  }

  /** Reads entry lines in order; `seen` holds the paths already listed. */
  function ReadLines(lines: seq<string>, number: nat, seen: set<PathKey>): Result<seq<Entry>, ManifestError> {
    if lines == [] then Ok([])
    else if Skipped(lines[0]) then ReadLines(lines[1..], number + 1, seen)
    else
      match ParseLine(lines[0])
      case Err(e) => Err(BadLine(number, e))
      case Ok(entry) =>
        if KeyOf(entry.path) in seen then Err(BadLine(number, DuplicatePath(entry.path)))
        else
          Prepend([entry], ReadLines(lines[1..], number + 1, seen + {KeyOf(entry.path)}))
  }

  function Read(text: string): Result<seq<Entry>, ManifestError> {
    var lines := Lines(text);
    if lines == [] then Err(EmptyManifest)
    else if lines[0] != HEADER then Err(UnsupportedHeader(lines[0]))
    else ReadLines(lines[1..], 2, {})
  }

  // ---- Reading back what was written ----

  lemma CodedLacks(text: string)
    requires Coded(text)
    ensures Lacks(text, '\t') && Lacks(text, '\n') && Lacks(text, '\r') && Lacks(text, '#')
  {
  }

  lemma ThreeFields(a: string, b: string, c: string)
    requires Lacks(a, '\t') && Lacks(b, '\t') && Lacks(c, '\t')
    ensures Fields(a + "\t" + b + "\t" + c) == [a, b, c]
  {
    FieldThen(a, b + "\t" + c);
    FieldThen(b, c);
    FieldLast(c);
    Reassociated(a, b, c);
  }

  lemma Reassociated(a: string, b: string, c: string)
    ensures a + "\t" + b + "\t" + c == a + "\t" + (b + "\t" + c)
  {
  }

  /** A written line has its three fields, no line end and no comment mark. */
  lemma LineShape(entry: Entry)
    ensures Fields(LineOf(entry)) == [EncodePath(entry.path), ALGORITHM, Hex(entry.digest)]
    ensures Lacks(LineOf(entry), '\n') && Lacks(LineOf(entry), '\r') && !Skipped(LineOf(entry))
  {
    PathRoundTrip(entry.path);
    HexCoded(entry.digest);
    LineScalars(EncodePath(entry.path), Hex(entry.digest));
    CodedLacks(EncodePath(entry.path));
    CodedLacks(Hex(entry.digest));
    CodedLacks(ALGORITHM);
    ThreeFields(EncodePath(entry.path), ALGORITHM, Hex(entry.digest));
  }

  lemma LineScalars(path: string, digest: string)
    requires Coded(path) && Coded(digest)
    ensures var line := path + "\t" + ALGORITHM + "\t" + digest;
            Lacks(line, '\n') && Lacks(line, '\r') && Lacks(line, '#') && line != []
  {
    CodedLacks(path);
    CodedLacks(digest);
    CodedLacks(ALGORITHM);
  }

  lemma ParseWrittenLine(entry: Entry)
    ensures ParseLine(LineOf(entry)) == if entry.path == [] then Err(BadFields) else Ok(entry)
  {
    LineShape(entry);
    PathRoundTrip(entry.path);
    DigestRoundTrip(entry.digest);
  }

  lemma {:induction false} LinesOfBody(entries: seq<Entry>)
    ensures Lines(Body(entries)) == LinesOf(entries)
  {
    if entries != [] {
      LinesOfBody(entries[1..]);
      LineShape(entries[0]);
      LineThen(LineOf(entries[0]), Body(entries[1..]));
    }
  }

  lemma WrittenLines(header: string, columns: string, entries: seq<Entry>)
    requires Lacks(header, '\n') && Lacks(header, '\r') && Lacks(columns, '\n') && Lacks(columns, '\r')
    ensures Lines(header + "\n" + (columns + "\n" + Body(entries))) == [header] + ([columns] + LinesOf(entries))
  {
    LinesOfBody(entries);
    LineThen(columns, Body(entries));
    LineThen(header, columns + "\n" + Body(entries));
  }

  lemma HeaderIsALine()
    ensures Lacks(HEADER, '\n') && Lacks(HEADER, '\r')
  {
  }

  lemma ColumnsAreAComment()
    ensures Lacks(COLUMNS, '\n') && Lacks(COLUMNS, '\r') && Skipped(COLUMNS)
  {
    assert Lacks(PATH_COLUMN, '\n') && Lacks(PATH_COLUMN, '\r') && PATH_COLUMN[0] == '#';
    assert Lacks(" bytes<TAB>digest algorithm", '\n') && Lacks(" bytes<TAB>digest algorithm", '\r');
    assert Lacks("<TAB>hex digest bytes", '\n') && Lacks("<TAB>hex digest bytes", '\r');
  }

  lemma ReadDocument(header: string, columns: string, entries: seq<Entry>)
    requires Skipped(columns)
    ensures ReadLines(([header] + ([columns] + LinesOf(entries)))[1..], 2, {})
         == ReadLines(LinesOf(entries), 3, {})
  {
    assert ([header] + ([columns] + LinesOf(entries)))[1..] == [columns] + LinesOf(entries);
    assert ([columns] + LinesOf(entries))[1..] == LinesOf(entries);
  }

  /** Every path is non-empty and none repeats one already seen. */
  ghost predicate Listable(entries: seq<Entry>, seen: set<PathKey>) {
    && (forall i :: 0 <= i < |entries| ==> entries[i].path != [] && KeyOf(entries[i].path) !in seen)
    && (forall i, j :: 0 <= i < j < |entries| ==> KeyOf(entries[i].path) != KeyOf(entries[j].path))
  }

  lemma ListableCons(entries: seq<Entry>, seen: set<PathKey>)
    requires entries != []
    ensures Listable(entries, seen) <==>
            && entries[0].path != [] && KeyOf(entries[0].path) !in seen
            && Listable(entries[1..], seen + {KeyOf(entries[0].path)})
  {
    var rest := entries[1..];
    assert forall i :: 0 <= i < |rest| ==> rest[i] == entries[i + 1];
    if Listable(rest, seen + {KeyOf(entries[0].path)}) && entries[0].path != [] && KeyOf(entries[0].path) !in seen {
      assert forall i :: 0 < i < |entries| ==> entries[i] == rest[i - 1];
    }
  }

  lemma {:induction false} ReadWrittenLines(entries: seq<Entry>, number: nat, seen: set<PathKey>)
    ensures ReadLines(LinesOf(entries), number, seen).Ok? <==> Listable(entries, seen)
    ensures Listable(entries, seen) ==> ReadLines(LinesOf(entries), number, seen) == Ok(entries)
  {
    if entries != [] {
      ListableCons(entries, seen);
      LineShape(entries[0]);
      ParseWrittenLine(entries[0]);
      ReadWrittenLines(entries[1..], number + 1, seen + {KeyOf(entries[0].path)});
      assert LinesOf(entries)[1..] == LinesOf(entries[1..]);
      assert [entries[0]] + entries[1..] == entries;
    }
  }

  /** A written manifest reads back exactly as its entries, in order, precisely when
      no path is empty and no two are the same path. */
  lemma ManifestRoundTrip(entries: seq<Entry>)
    ensures Read(Write(entries)).Ok? <==> Listable(entries, {})
    ensures Listable(entries, {}) ==> Read(Write(entries)) == Ok(entries)
  {
    HeaderIsALine();
    ColumnsAreAComment();
    WrittenLines(HEADER, COLUMNS, entries);
    ReadDocument(HEADER, COLUMNS, entries);
    ReadWrittenLines(entries, 3, {});
  }

  lemma AddByteJoin(b: byte, x: seq<seq<byte>>, y: seq<seq<byte>>)
    requires x != []
    ensures AddByte(b, x + y) == AddByte(b, x) + y
  {
    assert (x + y)[0] == x[0] && (x + y)[1..] == x[1..] + y;
  }

  lemma {:induction false} PiecesJoin(a: Path, b: Path)
    ensures Pieces(a + [47] + b) == Pieces(a) + Pieces(b)
  {
    if a == [] {
      assert (a + [47] + b)[1..] == b;
    } else {
      PiecesJoin(a[1..], b);
      assert (a + [47] + b)[1..] == a[1..] + [47] + b;
      AddByteJoin(a[0], Pieces(a[1..]), Pieces(b));
    }
  }

  lemma {:induction false} NormalJoin(a: seq<seq<byte>>, b: seq<seq<byte>>)
    ensures Normal(a + b) == Normal(a) + Normal(b)
  {
    if a == [] {
      assert a + b == b;
    } else {
      NormalJoin(a[1..], b);
      assert (a + b)[1..] == a[1..] + b;
      Associative([a[0]], Normal(a[1..]), Normal(b));
    }
  }

  /** Doubling a separator does not make another path. */
  lemma DoubledSeparator(a: Path, b: Path)
    ensures KeyOf(a + [47] + ([47] + b)) == KeyOf(a + [47] + b)
  {
    PiecesJoin(a, b);
    PiecesJoin(a, [47] + b);
    PiecesJoin([], b);
    assert [] + [47] + b == [47] + b;
    NormalJoin(Pieces(a), Pieces(b));
    NormalJoin(Pieces(a), Pieces([47] + b));
    NormalJoin(Pieces([]), Pieces(b));
    assert Normal([[]] + Pieces(b)) == Normal(Pieces(b));
  }

  /** Byte-distinct spellings of one path clash: the second is reported as a duplicate. */
  lemma RespelledPathClashes(a: Path, b: Path, digest: Digest)
    ensures var once, twice := a + [47] + b, a + [47] + ([47] + b);
            once != twice && Read(Write([Entry(once, digest), Entry(twice, digest)])).Err?
  {
    var once, twice := a + [47] + b, a + [47] + ([47] + b);
    assert |once| < |twice|;
    var entries := [Entry(once, digest), Entry(twice, digest)];
    DoubledSeparator(a, b);
    assert KeyOf(entries[0].path) == KeyOf(entries[1].path);
    ManifestRoundTrip(entries);
  }

  /** The line a reading error names is the line that could not be read. */
  ghost predicate NamesLine(lines: seq<string>, index: int, error: LineError) {
    && 0 <= index < |lines| && !Skipped(lines[index])
    && match ParseLine(lines[index])
       case Err(e) => e == error
       case Ok(entry) => error == DuplicatePath(entry.path)
  }

  lemma {:induction false} ErrorNamesLineFrom(lines: seq<string>, number: nat, seen: set<PathKey>)
    ensures ReadLines(lines, number, seen).Err? ==>
              var error := ReadLines(lines, number, seen).error;
              error.BadLine? && NamesLine(lines, error.number - number, error.error)
  {
    if lines != [] {
      if Skipped(lines[0]) {
        ErrorNamesLineFrom(lines[1..], number + 1, seen);
      } else if ParseLine(lines[0]).Ok? {
        ErrorNamesLineFrom(lines[1..], number + 1, seen + {KeyOf(ParseLine(lines[0]).value.path)});
      }
    }
  }

  lemma ErrorNamesLine(text: string)
    requires Read(text).Err? && Read(text).error.BadLine?
    ensures var error := Read(text).error;
            error.number >= 2 && NamesLine(Lines(text), error.number - 1, error.error)
  {
    ErrorNamesLineFrom(Lines(text)[1..], 2, {});
  }

  // ---- Checking files against a manifest ----

  datatype Observation = Observed(digest: Digest) | Unreadable(message: string)

  datatype Mismatch = Mismatch(path: Path, expected: Digest, observation: Observation)

  function Mismatches(entries: seq<Entry>, observe: Path -> Observation): seq<Mismatch> {
    if entries == [] then []
    else
      var init, last := Mismatches(entries[..|entries| - 1], observe), entries[|entries| - 1];
      if observe(last.path) == Observed(last.digest) then init
      else init + [Mismatch(last.path, last.digest, observe(last.path))]
  }

  function Check(text: string, observe: Path -> Observation): Result<seq<Mismatch>, ManifestError> {
    match Read(text)
    case Err(e) => Err(e)
    case Ok(entries) => Ok(Mismatches(entries, observe))
  }

  ghost predicate Reported(entries: seq<Entry>, observe: Path -> Observation, m: Mismatch) {
    exists i :: 0 <= i < |entries| && m == Mismatch(entries[i].path, entries[i].digest, observe(entries[i].path))
                && m.observation != Observed(m.expected)
  }

  /** A mismatch is listed exactly when an entry's observation is not its digest. */
  lemma {:induction false} MismatchesExact(entries: seq<Entry>, observe: Path -> Observation, m: Mismatch)
    ensures m in Mismatches(entries, observe) <==> Reported(entries, observe, m)
  {
    if entries != [] {
      var init, last := entries[..|entries| - 1], entries[|entries| - 1];
      MismatchesExact(init, observe, m);
      assert Reported(init, observe, m) ==> Reported(entries, observe, m) by {
        if i :| 0 <= i < |init| && m == Mismatch(init[i].path, init[i].digest, observe(init[i].path))
                && m.observation != Observed(m.expected) {
          assert entries[i] == init[i];
        }
      }
      if i :| 0 <= i < |entries| && m == Mismatch(entries[i].path, entries[i].digest, observe(entries[i].path))
              && m.observation != Observed(m.expected) {
        assert i < |init| ==> init[i] == entries[i];
      }
    }
  }

  /** Checking a manifest that was just written finds nothing exactly when every
      listed file still has the digest it was written with. */
  lemma CheckWritten(entries: seq<Entry>, observe: Path -> Observation)
    requires Listable(entries, {})
    ensures Check(Write(entries), observe) == Ok(Mismatches(entries, observe))
    ensures Check(Write(entries), observe) == Ok([]) <==>
            forall i :: 0 <= i < |entries| ==> observe(entries[i].path) == Observed(entries[i].digest)
  {
    ManifestRoundTrip(entries);
    NothingMismatched(entries, observe);
  }

  lemma {:induction false} NothingMismatched(entries: seq<Entry>, observe: Path -> Observation)
    ensures Mismatches(entries, observe) == [] <==>
            forall i :: 0 <= i < |entries| ==> observe(entries[i].path) == Observed(entries[i].digest)
  {
    if entries != [] {
      var init := entries[..|entries| - 1];
      NothingMismatched(init, observe);
      assert forall i :: 0 <= i < |init| ==> init[i] == entries[i];
    }
  }
}
