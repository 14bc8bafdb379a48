/** Which texts are manifests of which entries, and which paths are the same path,
    written out independently of how the reader decides them. */
module ManifestSyntax {
  import opened Basics
  import opened Text
  import opened Manifest

  // ---- Path identity ----

  predicate Solid(pieces: seq<seq<byte>>) {
    forall i :: 0 <= i < |pieces| ==> 47 !in pieces[i]
  }

  /** The pieces with a separator between each two of them. */
  function JoinPieces(pieces: seq<seq<byte>>): Path
    requires pieces != []
  {
    if |pieces| == 1 then pieces[0] else pieces[0] + [47] + JoinPieces(pieces[1..])
  }

  /** The pieces of a path are what stands between its separators. */
  predicate Splits(path: Path, pieces: seq<seq<byte>>) {
    pieces != [] && Solid(pieces) && JoinPieces(pieces) == path
  }

  predicate Proper(piece: seq<byte>) {
    piece != [] && piece != [46]
  }

  /** The pieces other than empty ones and `.`, in order. */
  function ProperPieces(pieces: seq<seq<byte>>): seq<seq<byte>> {
    if pieces == [] then []
    else
      var last := pieces[|pieces| - 1];
      ProperPieces(pieces[..|pieces| - 1]) + if Proper(last) then [last] else []
  }

  predicate Rooted(path: Path) {
    path != [] && path[0] == 47
  }

  /** Both or neither start at the root, both or neither start with a `.` piece, and
      the other pieces are the same. */
  ghost predicate SamePath(a: Path, b: Path) {
    exists x, y :: Splits(a, x) && Splits(b, y) && (Rooted(a) <==> Rooted(b)) &&
                   (x[0] == [46] <==> y[0] == [46]) && ProperPieces(x) == ProperPieces(y)
  }

  lemma {:induction false} SolidPath(path: Path)
    requires 47 !in path
    ensures Pieces(path) == [path]
  {
    if path != [] {
      SolidPath(path[1..]);
      assert [path[0]] + path[1..] == path;
    }
  }

  /** There is one way to split a path. */
  lemma {:induction false} SplitUnique(path: Path, pieces: seq<seq<byte>>)
    requires Splits(path, pieces)
    ensures Pieces(path) == pieces
    decreases |pieces|
  {
    SolidPath(pieces[0]);
    if |pieces| > 1 {
      SplitUnique(JoinPieces(pieces[1..]), pieces[1..]);
      PiecesJoin(pieces[0], JoinPieces(pieces[1..]));
    }
  }

  lemma AddByteSplits(b: byte, rest: Path, pieces: seq<seq<byte>>)
    requires Splits(rest, pieces)
    ensures Splits([b] + rest, AddByte(b, pieces))
  {
    var more := AddByte(b, pieces);
    if b == 47 {
      assert more[1..] == pieces;
      assert [] + [47] + rest == [b] + rest;
    } else if |pieces| > 1 {
      assert more[1..] == pieces[1..];
      assert [b] + pieces[0] + [47] + JoinPieces(pieces[1..]) == [b] + (pieces[0] + [47] + JoinPieces(pieces[1..]));
    }
  }

  lemma {:induction false} PiecesSplit(path: Path)
    ensures Splits(path, Pieces(path))
  {
    if path != [] {
      PiecesSplit(path[1..]);
      AddByteSplits(path[0], path[1..], Pieces(path[1..]));
      assert [path[0]] + path[1..] == path;
    }
  }

  lemma {:induction false} NormalIsProper(pieces: seq<seq<byte>>)
    ensures Normal(pieces) == ProperPieces(pieces)
  {
    if pieces != [] {
      var init, last := pieces[..|pieces| - 1], pieces[|pieces| - 1];
      NormalIsProper(init);
      NormalJoin(init, [last]);
      assert init + [last] == pieces;
      assert [last][1..] == [];
      assert Normal([last]) == if Proper(last) then [last] else [];
    }
  }

  lemma RootedPieces(path: Path)
    ensures Rooted(path) ==> Pieces(path)[0] == [] && |Pieces(path)| > 1
    ensures !Rooted(path) && path != [] ==> Pieces(path)[0] != []
  {
  }

  /** The reader takes two paths for the same exactly when they are. */
  lemma KeyExact(a: Path, b: Path)
    ensures KeyOf(a) == KeyOf(b) <==> SamePath(a, b)
  {
    PiecesSplit(a);
    PiecesSplit(b);
    NormalIsProper(Pieces(a));
    NormalIsProper(Pieces(b));
    RootedPieces(a);
    RootedPieces(b);
    if x, y :| Splits(a, x) && Splits(b, y) && (Rooted(a) <==> Rooted(b)) &&
               (x[0] == [46] <==> y[0] == [46]) && ProperPieces(x) == ProperPieces(y) {
      SplitUnique(a, x);
      SplitUnique(b, y);
    }
  }

  /** No piece is `.`, and none is empty but the one before a leading separator. */
  predicate PlainPieces(pieces: seq<seq<byte>>) {
    forall i :: 0 <= i < |pieces| ==> Proper(pieces[i]) || (i == 0 && pieces[i] == [])
  }

  ghost predicate Plain(path: Path) {
    exists pieces :: Splits(path, pieces) && PlainPieces(pieces)
  }

  lemma {:induction false} AllProper(pieces: seq<seq<byte>>)
    requires forall i :: 0 <= i < |pieces| ==> Proper(pieces[i])
    ensures Normal(pieces) == pieces
  {
    if pieces != [] {
      AllProper(pieces[1..]);
      assert [pieces[0]] + pieces[1..] == pieces;
    }
  }

  lemma PlainKey(path: Path)
    requires Plain(path)
    ensures var pieces := Pieces(path);
            Splits(path, pieces) && KeyOf(path).components == if pieces[0] == [] then pieces[1..] else pieces
  {
    var pieces :| Splits(path, pieces) && PlainPieces(pieces);
    SplitUnique(path, pieces);
    if pieces[0] == [] {
      AllProper(pieces[1..]);
    } else {
      AllProper(pieces);
    }
  }

  /** Plain paths are the same path only when they are the same bytes. */
  lemma PlainPathsDiffer(a: Path, b: Path)
    requires Plain(a) && Plain(b) && KeyOf(a) == KeyOf(b)
    ensures a == b
  {
    PlainKey(a);
    PlainKey(b);
    RootedPieces(a);
    RootedPieces(b);
    var x, y := Pieces(a), Pieces(b);
    assert x[0] == [] ==> x == [[]] + x[1..];
    assert y[0] == [] ==> y == [[]] + y[1..];
  }

  /** Every path is listed once. */
  ghost predicate Distinct(entries: seq<Entry>) {
    && (forall i :: 0 <= i < |entries| ==> entries[i].path != [])
    && forall i, j :: 0 <= i < j < |entries| ==> !SamePath(entries[i].path, entries[j].path)
  }

  lemma ListableExact(entries: seq<Entry>)
    ensures Listable(entries, {}) <==> Distinct(entries)
  {
    forall i, j | 0 <= i < j < |entries|
      ensures KeyOf(entries[i].path) == KeyOf(entries[j].path) <==> SamePath(entries[i].path, entries[j].path)
    {
      KeyExact(entries[i].path, entries[j].path);
    }
  }

  /** A written manifest reads back as its entries exactly when no path is empty and
      no two are the same path. */
  lemma WrittenReadsBack(entries: seq<Entry>)
    ensures Read(Write(entries)).Ok? <==> Distinct(entries)
    ensures Distinct(entries) ==> Read(Write(entries)) == Ok(entries)
  {
    ManifestRoundTrip(entries);
    ListableExact(entries);
  }

  /** In particular, plain paths that differ in their bytes read back. */
  lemma PlainManifestReadsBack(entries: seq<Entry>)
    requires forall i :: 0 <= i < |entries| ==> entries[i].path != [] && Plain(entries[i].path)
    requires forall i, j :: 0 <= i < j < |entries| ==> entries[i].path != entries[j].path
    ensures Read(Write(entries)) == Ok(entries)
  {
    forall i, j | 0 <= i < j < |entries|
      ensures KeyOf(entries[i].path) != KeyOf(entries[j].path)
    {
      if KeyOf(entries[i].path) == KeyOf(entries[j].path) {
        PlainPathsDiffer(entries[i].path, entries[j].path);
      }
    }
    ManifestRoundTrip(entries);
  }

  // ---- Hexadecimal digits ----

  /** A digit of either case. */
  predicate DigitOf(c: char, n: int) {
    0 <= n < 16 && (c == "0123456789abcdef"[n] || c == "0123456789ABCDEF"[n])
  }

  predicate SpellsByte(high: char, low: char, b: byte) {
    DigitOf(high, b as int / 16) && DigitOf(low, b as int % 16)
  }

  predicate SpellsDigest(text: string, digest: Digest) {
    |text| == 64 && forall i :: 0 <= i < 32 ==> SpellsByte(text[2 * i], text[2 * i + 1], digest[i])
  }

  lemma DigitExact(c: char, n: int)
    ensures HexDigit(c) == Some(n) <==> DigitOf(c, n)
    ensures DigitOf(c, n) ==> IsPlain(c)
  {
    HexDigitRange(c);
    if DigitOf(c, n) {
      assert c == "0123456789abcdef"[n] || c == "0123456789ABCDEF"[n];
    }
  }

  lemma Halves(h: int, l: int, b: int)
    requires 0 <= h < 16 && 0 <= l < 16 && 0 <= b
    ensures b == 16 * h + l <==> h == b / 16 && l == b % 16
  {
  }

  lemma ByteExact(high: char, low: char, b: byte)
    ensures PairByte(high, low) == Some(b) <==> SpellsByte(high, low, b)
  {
    DigitExact(high, b as int / 16);
    DigitExact(low, b as int % 16);
    HexDigitRange(high);
    HexDigitRange(low);
    if HexDigit(high).Some? && HexDigit(low).Some? {
      Halves(HexDigit(high).value, HexDigit(low).value, b as int);
    }
  }

  predicate SpellsBytes(text: string, bytes: seq<byte>) {
    |text| == 2 * |bytes| && forall i :: 0 <= i < |bytes| ==> SpellsByte(text[2 * i], text[2 * i + 1], bytes[i])
  }

  lemma SpellsBytesCons(text: string, bytes: seq<byte>)
    requires |text| >= 2 && bytes != []
    ensures SpellsBytes(text, bytes) <==> SpellsByte(text[0], text[1], bytes[0]) && SpellsBytes(text[2..], bytes[1..])
  {
    var t, b := text[2..], bytes[1..];
    if SpellsBytes(text, bytes) {
      forall i | 0 <= i < |b|
        ensures SpellsByte(t[2 * i], t[2 * i + 1], b[i])
      {
        assert SpellsByte(text[2 * (i + 1)], text[2 * (i + 1) + 1], bytes[i + 1]);
      }
      assert SpellsByte(text[2 * 0], text[2 * 0 + 1], bytes[0]);
    }
    if SpellsByte(text[0], text[1], bytes[0]) && SpellsBytes(t, b) {
      forall i | 0 <= i < |bytes|
        ensures SpellsByte(text[2 * i], text[2 * i + 1], bytes[i])
      {
        if i > 0 {
          assert SpellsByte(t[2 * (i - 1)], t[2 * (i - 1) + 1], b[i - 1]);
        }
      }
    }
  }

  lemma {:induction false} UnhexExact(text: string, bytes: seq<byte>)
    ensures Unhex(text) == Some(bytes) <==> SpellsBytes(text, bytes)
  {
    if |text| >= 2 && bytes != [] {
      SpellsBytesCons(text, bytes);
      ByteExact(text[0], text[1], bytes[0]);
      UnhexExact(text[2..], bytes[1..]);
      assert [bytes[0]] + bytes[1..] == bytes;
    }
  }

  lemma DigestAscii(text: string, digest: Digest)
    requires SpellsDigest(text, digest)
    ensures Coded(text)
  {
    forall i | 0 <= i < |text|
      ensures IsCoded(text[i])
    {
      var k := i / 2;
      assert SpellsByte(text[2 * k], text[2 * k + 1], digest[k]);
      DigitExact(text[2 * k], digest[k] as int / 16);
      DigitExact(text[2 * k + 1], digest[k] as int % 16);
    }
  }

  /** A digest is accepted exactly when it is 64 digits of either case, two for each
      byte, the high half first. */
  lemma DigestExact(text: string, digest: Digest)
    ensures ParseDigest(text) == Some(digest) <==> SpellsDigest(text, digest)
  {
    UnhexExact(text, digest);
    if SpellsDigest(text, digest) {
      DigestAscii(text, digest);
      CodedAscii(text);
    }
  }

  /** Digests and escapes are written in lower case. */
  lemma {:induction false} HexIsLower(bytes: seq<byte>)
    ensures forall c :: c in Hex(bytes) ==> '0' <= c <= '9' || 'a' <= c <= 'f'
  {
    if bytes != [] {
      HexIsLower(bytes[1..]);
    }
  }

  // ---- Paths ----

  datatype WrittenByte = Literal(b: byte) | Escaped(high: char, low: char, b: byte)

  /** The scalars that stand for their own byte. */
  predicate StandsForItself(c: char) {
    || 'a' <= c <= 'z' || 'A' <= c <= 'Z' || '0' <= c <= '9'
    || c == '/' || c == '.' || c == '_' || c == '-' || c == ':'
  }

  predicate ByteAllowed(w: WrittenByte) {
    match w
    case Literal(b) => StandsForItself(b as char)
    case Escaped(high, low, b) => SpellsByte(high, low, b)
  }

  function ByteText(w: WrittenByte): string {
    match w
    case Literal(b) => [b as char]
    case Escaped(high, low, _) => ['%', high, low]
  }

  function PathText(ws: seq<WrittenByte>): string {
    if ws == [] then "" else ByteText(ws[0]) + PathText(ws[1..])
  }

  function PathBytes(ws: seq<WrittenByte>): Path {
    seq(|ws|, i requires 0 <= i < |ws| => ws[i].b)
  }

  ghost predicate SpellsPath(text: string, path: Path) {
    exists ws :: (forall w :: w in ws ==> ByteAllowed(w)) && text == PathText(ws) && path == PathBytes(ws)
  }

  lemma PlainExact(c: char)
    ensures IsPlain(c) <==> StandsForItself(c)
    ensures StandsForItself(c) ==> c as int < 128 && c != '%' && c != '\t'
  {
  }

  lemma SpelledByteRead(w: WrittenByte, rest: string)
    requires ByteAllowed(w)
    ensures DecodeBytes(ByteText(w) + rest) == Prepend([w.b], DecodeBytes(rest))
    ensures Coded(ByteText(w)) && ByteText(w) != []
  {
    var text := ByteText(w) + rest;
    match w
    case Literal(b) =>
      PlainExact(b as char);
      assert text[0] == b as char && text[1..] == rest;
    case Escaped(high, low, b) =>
      ByteExact(high, low, b);
      DigitExact(high, b as int / 16);
      DigitExact(low, b as int % 16);
      assert text[0] == '%' && text[1] == high && text[2] == low && text[3..] == rest;
  }

  lemma PathBytesCons(ws: seq<WrittenByte>)
    requires ws != []
    ensures PathBytes(ws) == [ws[0].b] + PathBytes(ws[1..])
  {
  }

  lemma {:induction false} SpelledPathRead(ws: seq<WrittenByte>)
    requires forall w :: w in ws ==> ByteAllowed(w)
    ensures DecodeBytes(PathText(ws)) == Ok(PathBytes(ws)) && Coded(PathText(ws))
    ensures PathText(ws) == [] <==> ws == []
  {
    if ws == [] {
      assert PathBytes(ws) == [];
    } else {
      SpelledPathRead(ws[1..]);
      SpelledByteRead(ws[0], PathText(ws[1..]));
      PathBytesCons(ws);
    }
  }

  lemma {:induction false} PathSpelled(text: string) returns (ws: seq<WrittenByte>)
    requires DecodeBytes(text).Ok?
    ensures (forall w :: w in ws ==> ByteAllowed(w)) && text == PathText(ws) && DecodeBytes(text).value == PathBytes(ws)
    decreases |text|
  {
    if text == [] {
      ws := [];
    } else {
      var w, k := FirstSpelled(text);
      var rest := PathSpelled(text[k..]);
      ws := [w] + rest;
      assert ws[1..] == rest;
      PathBytesCons(ws);
    }
  }

  lemma FirstSpelled(text: string) returns (w: WrittenByte, k: nat)
    requires text != [] && DecodeBytes(text).Ok?
    ensures 0 < k <= |text| && ByteAllowed(w) && text == ByteText(w) + text[k..]
    ensures DecodeBytes(text[k..]).Ok? && DecodeBytes(text).value == [w.b] + DecodeBytes(text[k..]).value
  {
    if text[0] == '%' {
      var b := PairByte(text[1], text[2]).value;
      ByteExact(text[1], text[2], b);
      w, k := Escaped(text[1], text[2], b), 3;
    } else {
      PlainExact(text[0]);
      w, k := Literal(text[0] as byte), 1;
    }
  }

  /** An encoded path is accepted exactly when each scalar stands for itself or belongs
      to an escape of two hexadecimal digits of either case. */
  lemma PathExact(text: string, path: Path)
    ensures DecodePath(text) == Ok(path) <==> SpellsPath(text, path)
    ensures SpellsPath(text, path) ==> Coded(text) && (text == [] <==> path == [])
  {
    if DecodePath(text) == Ok(path) {
      var ws := PathSpelled(text);
    }
    if ws :| (forall w :: w in ws ==> ByteAllowed(w)) && text == PathText(ws) && path == PathBytes(ws) {
      SpelledPathRead(ws);
      CodedAscii(text);
    }
  }

  lemma ShortestByte(w: WrittenByte)
    requires ByteAllowed(w)
    ensures |EncodeByte(w.b)| <= |ByteText(w)|
  {
    PlainExact(w.b as char);
  }

  lemma {:induction false} ShortestFrom(ws: seq<WrittenByte>)
    requires forall w :: w in ws ==> ByteAllowed(w)
    ensures |EncodePath(PathBytes(ws))| <= |PathText(ws)|
  {
    if ws != [] {
      ShortestFrom(ws[1..]);
      PathBytesCons(ws);
      var path := PathBytes(ws);
      assert path[0] == ws[0].b && path[1..] == PathBytes(ws[1..]);
      ShortestByte(ws[0]);
    } else {
      assert PathBytes(ws) == [];
    }
  }

  /** No spelling of a path is shorter than the one that is written. */
  lemma EncodingIsShortest(text: string, path: Path)
    requires DecodePath(text) == Ok(path)
    ensures |EncodePath(path)| <= |text|
  {
    var ws := PathSpelled(text);
    ShortestFrom(ws);
  }

  // ---- Entry lines ----

  ghost predicate SpellsEntry(line: string, entry: Entry) {
    exists path, digest :: && line == path + "\t" + "sha256" + "\t" + digest && path != []
                           && SpellsPath(path, entry.path) && SpellsDigest(digest, entry.digest)
  }

  lemma FirstField(line: string) returns (rest: string)
    requires |Fields(line)| > 1
    ensures line == Fields(line)[0] + "\t" + rest && Fields(line)[1..] == Fields(rest)
  {
    var k := FirstOf(line, '\t');
    rest := line[k + 1..];
  }

  lemma OnlyField(line: string)
    requires |Fields(line)| == 1
    ensures line == Fields(line)[0]
  {
  }

  lemma FieldsJoin(line: string, fields: seq<string>)
    requires Fields(line) == fields && |fields| == 3
    ensures line == fields[0] + "\t" + fields[1] + "\t" + fields[2]
  {
    var rest := FirstField(line);
    var last := FirstField(rest);
    OnlyField(last);
    Reassociated(fields[0], fields[1], fields[2]);
  }

  lemma SpelledEntryRead(path: string, digest: string, entry: Entry)
    requires path != [] && SpellsPath(path, entry.path) && SpellsDigest(digest, entry.digest)
    ensures ParseLine(path + "\t" + "sha256" + "\t" + digest) == Ok(entry)
  {
    PathExact(path, entry.path);
    DigestExact(digest, entry.digest);
    DigestAscii(digest, entry.digest);
    CodedLacks(path);
    CodedLacks(digest);
    CodedLacks("sha256");
    ThreeFields(path, "sha256", digest);
  }

  /** A line is an entry exactly when it is a path, the algorithm and a digest, with one
      tab between each two. */
  lemma EntryExact(line: string, entry: Entry)
    ensures ParseLine(line) == Ok(entry) <==> SpellsEntry(line, entry)
  {
    if ParseLine(line) == Ok(entry) {
      var fields := Fields(line);
      FieldsJoin(line, fields);
      PathExact(fields[0], entry.path);
      DigestExact(fields[2], entry.digest);
    }
    if path, digest :| && line == path + "\t" + "sha256" + "\t" + digest && path != []
                       && SpellsPath(path, entry.path) && SpellsDigest(digest, entry.digest) {
      SpelledEntryRead(path, digest, entry);
    }
  }

  // ---- Documents ----

  datatype WrittenLine = WrittenLine(content: string, ending: string)

  predicate LineAllowed(w: WrittenLine, last: bool) {
    && Lacks(w.content, '\n')
    && (w.ending == "\r\n" || (w.ending == "\n" && !EndsWithReturn(w.content)) ||
        (w.ending == "" && last && w.content != []))
  }

  predicate EndsWithReturn(content: string) {
    content != [] && content[|content| - 1] == '\r'
  }

  predicate LinesAllowed(ws: seq<WrittenLine>) {
    forall i :: 0 <= i < |ws| ==> LineAllowed(ws[i], i == |ws| - 1)
  }

  function DocumentText(ws: seq<WrittenLine>): string {
    if ws == [] then "" else ws[0].content + ws[0].ending + DocumentText(ws[1..])
  }

  function Contents(ws: seq<WrittenLine>): seq<string> {
    seq(|ws|, i requires 0 <= i < |ws| => ws[i].content)
  }

  /** Lines end with a line feed, with a return before it or not; only the last one may
      lack its end. */
  ghost predicate SpellsLines(text: string, lines: seq<string>) {
    exists ws :: LinesAllowed(ws) && text == DocumentText(ws) && lines == Contents(ws)
  }

  lemma ContentsCons(ws: seq<WrittenLine>)
    requires ws != []
    ensures Contents(ws) == [ws[0].content] + Contents(ws[1..])
    ensures LinesAllowed(ws) <==> LineAllowed(ws[0], |ws| == 1) && LinesAllowed(ws[1..])
  {
    var rest := ws[1..];
    if LineAllowed(ws[0], |ws| == 1) && LinesAllowed(rest) {
      forall i | 0 <= i < |ws|
        ensures LineAllowed(ws[i], i == |ws| - 1)
      {
        assert i > 0 ==> ws[i] == rest[i - 1];
      }
    }
    if LinesAllowed(ws) {
      forall i | 0 <= i < |rest|
        ensures LineAllowed(rest[i], i == |rest| - 1)
      {
        assert rest[i] == ws[i + 1];
      }
    }
  }

  lemma LineFeed(body: string, rest: string)
    requires Lacks(body, '\n')
    ensures Lines(body + "\n" + rest) == [StripReturn(body)] + Lines(rest)
  {
    FirstOfUnique(body, '\n', rest);
    var text := body + "\n" + rest;
    assert text[..|body|] == body && text[|body| + 1..] == rest;
  }

  lemma EndedLine(content: string, ending: string, rest: string)
    requires LineAllowed(WrittenLine(content, ending), false)
    ensures Lines(content + ending + rest) == [content] + Lines(rest)
  {
    var body := if ending == "\n" then content else content + "\r";
    LineFeed(body, rest);
    assert content + ending == body + "\n";
    assert StripReturn(body) == content;
  }

  lemma {:induction false} SpelledLinesRead(ws: seq<WrittenLine>)
    requires LinesAllowed(ws)
    ensures Lines(DocumentText(ws)) == Contents(ws)
  {
    if ws != [] {
      ContentsCons(ws);
      SpelledLinesRead(ws[1..]);
      if ws[0].ending == "" {
        assert ws[1..] == [];
        FirstOfUnique(ws[0].content, '\n', "");
        assert DocumentText(ws) == ws[0].content;
      } else {
        EndedLine(ws[0].content, ws[0].ending, DocumentText(ws[1..]));
      }
    }
  }

  lemma FirstLineSpelled(text: string, k: nat) returns (w: WrittenLine)
    requires k < |text| && text[k] == '\n' && Lacks(text[..k], '\n')
    ensures LineAllowed(w, false) && w.content == StripReturn(text[..k])
    ensures text == w.content + w.ending + text[k + 1..]
  {
    var content := StripReturn(text[..k]);
    w := WrittenLine(content, if EndsWithReturn(text[..k]) then "\r\n" else "\n");
  }

  lemma {:induction false} LinesSpelled(text: string) returns (ws: seq<WrittenLine>)
    ensures LinesAllowed(ws) && text == DocumentText(ws) && Lines(text) == Contents(ws)
    decreases |text|
  {
    ws := [];
    if text != [] {
      var k := FirstOf(text, '\n');
      if k == |text| {
        ws := [WrittenLine(text, "")];
        assert text[..k] == text && ws[1..] == [];
      } else {
        var w := FirstLineSpelled(text, k);
        var rest := LinesSpelled(text[k + 1..]);
        ws := [w] + rest;
        assert ws[1..] == rest;
        ContentsCons(ws);
      }
    }
  }

  lemma LinesExact(text: string, lines: seq<string>)
    ensures Lines(text) == lines <==> SpellsLines(text, lines)
  {
    var ws := LinesSpelled(text);
    if vs :| LinesAllowed(vs) && text == DocumentText(vs) && lines == Contents(vs) {
      SpelledLinesRead(vs);
    }
  }

  /** Empty lines and lines that start with `#` say nothing; every other line is one entry. */
  ghost predicate SpellsEntries(lines: seq<string>, entries: seq<Entry>) {
    if lines == [] then entries == []
    else if lines[0] == "" || lines[0][0] == '#' then SpellsEntries(lines[1..], entries)
    else entries != [] && SpellsEntry(lines[0], entries[0]) && SpellsEntries(lines[1..], entries[1..])
  }

  ghost predicate SpellsManifest(text: string, entries: seq<Entry>) {
    exists lines :: && SpellsLines(text, lines)
                    && lines != [] && lines[0] == "# glam local-file manifest v2"
                    && SpellsEntries(lines[1..], entries) && Distinct(entries)
  }

  lemma EntryPath(line: string, entry: Entry)
    requires SpellsEntry(line, entry)
    ensures entry.path != []
  {
    var path, digest :| && line == path + "\t" + "sha256" + "\t" + digest && path != []
                        && SpellsPath(path, entry.path) && SpellsDigest(digest, entry.digest);
    PathExact(path, entry.path);
  }

  lemma {:induction false} EntriesExact(lines: seq<string>, number: nat, seen: set<PathKey>, entries: seq<Entry>)
    ensures ReadLines(lines, number, seen) == Ok(entries) <==> SpellsEntries(lines, entries) && Listable(entries, seen)
  {
    if lines != [] {
      if Skipped(lines[0]) {
        EntriesExact(lines[1..], number + 1, seen, entries);
      } else if entries != [] {
        EntryExact(lines[0], entries[0]);
        if SpellsEntry(lines[0], entries[0]) {
          EntryPath(lines[0], entries[0]);
        }
        ListableCons(entries, seen);
        EntriesExact(lines[1..], number + 1, seen + {KeyOf(entries[0].path)}, entries[1..]);
        assert [entries[0]] + entries[1..] == entries;
      }
    }
  }

  /** A text is read as a list of entries exactly when it spells them: the header, one
      line for each entry in order, and no path twice. */
  lemma ManifestExact(text: string, entries: seq<Entry>)
    ensures Read(text) == Ok(entries) <==> SpellsManifest(text, entries)
  {
    var lines := Lines(text);
    LinesExact(text, lines);
    ListableExact(entries);
    if lines != [] {
      EntriesExact(lines[1..], 2, {}, entries);
    }
    if other :| && SpellsLines(text, other)
                && other != [] && other[0] == "# glam local-file manifest v2"
                && SpellsEntries(other[1..], entries) && Distinct(entries) {
      LinesExact(text, other);
    }
  }

  /** Mismatches are listed in the order of their entries, one for each. */
  lemma {:induction false} MismatchesInOrder(a: seq<Entry>, b: seq<Entry>, observe: Path -> Observation)
    ensures Mismatches(a + b, observe) == Mismatches(a, observe) + Mismatches(b, observe)
    decreases |b|
  {
    if b == [] {
      assert a + b == a;
    } else {
      var init, last := b[..|b| - 1], b[|b| - 1];
      MismatchesInOrder(a, init, observe);
      assert (a + b)[..|a + b| - 1] == a + init && (a + b)[|a + b| - 1] == last;
    }
  }
}
