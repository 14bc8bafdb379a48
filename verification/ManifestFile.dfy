/** The loops that spell, read, write and check a local-file manifest. */
module ManifestFile {
  import opened Basics
  import opened Manifest

  lemma HexAppend(bytes: seq<byte>, b: byte)
    ensures Hex(bytes + [b]) == Hex(bytes) + HexByte(b)
  {
    if bytes == [] {
      assert bytes + [b] == [b];
    } else {
      HexAppend(bytes[1..], b);
      assert (bytes + [b])[1..] == bytes[1..] + [b];
    }
  }

  method HexText(bytes: seq<byte>) returns (text: string)
    ensures text == Hex(bytes)
  {
    text := "";
    for i := 0 to |bytes|
      invariant text == Hex(bytes[..i])
    {
      HexAppend(bytes[..i], bytes[i]);
      assert bytes[..i + 1] == bytes[..i] + [bytes[i]];
      text := text + [HexDigitChar(bytes[i] as int / 16)];
      text := text + [HexDigitChar(bytes[i] as int % 16)];
    }
    assert bytes[..|bytes|] == bytes;
  }

  lemma EncodeAppend(path: Path, b: byte)
    ensures EncodePath(path + [b]) == EncodePath(path) + EncodeByte(b)
  {
    if path == [] {
      assert path + [b] == [b];
    } else {
      EncodeAppend(path[1..], b);
      assert (path + [b])[1..] == path[1..] + [b];
      Associative(EncodeByte(path[0]), EncodePath(path[1..]), EncodeByte(b));
    }
  }

  lemma HexOfOne(b: byte)
    ensures Hex([b]) == HexByte(b)
  {
    HexAppend([], b);
    assert [] + [b] == [b] && Hex([]) + HexByte(b) == HexByte(b);
  }

  method PercentEncode(path: Path) returns (encoded: string)
    ensures encoded == EncodePath(path)
  {
    encoded := "";
    for i := 0 to |path|
      invariant encoded == EncodePath(path[..i])
    {
      EncodeAppend(path[..i], path[i]);
      assert path[..i + 1] == path[..i] + [path[i]];
      if IsPlain(path[i] as char) {
        encoded := encoded + [path[i] as char];
      } else {
        var pair := HexText([path[i]]);
        HexOfOne(path[i]);
        encoded := encoded + (['%'] + pair);
      }
    }
    assert path[..|path|] == path;
  }

  method DecodeManifestPath(encoded: string) returns (r: Result<Path, PathError>)
    ensures r == DecodePath(encoded)
  {
    if !IsAscii(encoded) {
      return Err(NotAscii);
    }
    var decoded: Path := [];
    var index := 0;
    PrependTwice([], [], DecodeBytes(encoded));
    assert encoded[0..] == encoded;
    while index < |encoded|
      invariant index <= |encoded|
      invariant DecodeBytes(encoded) == Prepend(decoded, DecodeBytes(encoded[index..]))
    {
      ghost var here := encoded[index..];
      if encoded[index] == '%' {
        if |encoded| < index + 3 {
          return Err(IncompleteEscape);
        }
        var b := PairByte(encoded[index + 1], encoded[index + 2]);
        if b == None {
          return Err(InvalidEscape);
        }
        assert here[3..] == encoded[index + 3..];
        PrependTwice(decoded, [b.value], DecodeBytes(here[3..]));
        decoded := decoded + [b.value];
        index := index + 3;
      } else {
        if !IsPlain(encoded[index]) {
          return Err(Unescaped);
        }
        assert here[1..] == encoded[index + 1..];
        PrependTwice(decoded, [encoded[index] as byte], DecodeBytes(here[1..]));
        decoded := decoded + [encoded[index] as byte];
        index := index + 1;
      }
    }
    assert encoded[index..] == [] && decoded + [] == decoded;
    r := Ok(decoded);
  }

  lemma UnhexBad(text: string, i: nat)
    requires |text| % 2 == 0 && 2 * i < |text| && PairByte(text[2 * i], text[2 * i + 1]) == None
    ensures Unhex(text) == None
  {
    if i > 0 {
      var rest := text[2..];
      assert rest[2 * (i - 1)] == text[2 * i] && rest[2 * (i - 1) + 1] == text[2 * i + 1];
      UnhexBad(rest, i - 1);
    }
  }

  lemma UnhexAppend(text: string, high: char, low: char)
    requires Unhex(text).Some? && PairByte(high, low).Some?
    ensures Unhex(text + [high, low]) == Some(Unhex(text).value + [PairByte(high, low).value])
  {
    if |text| >= 2 {
      UnhexAppend(text[2..], high, low);
      assert (text + [high, low])[2..] == text[2..] + [high, low];
      Associative([PairByte(text[0], text[1]).value], Unhex(text[2..]).value, [PairByte(high, low).value]);
    } else {
      assert text + [high, low] == [high, low];
      assert [high, low][2..] == [];
      var b := PairByte(high, low).value;
      assert [b] + [] == [b] == [] + [b];
    }
  }

  method ParseDigestHex(text: string) returns (r: Option<Digest>)
    ensures r == ParseDigest(text)
  {
    if |text| != 64 || !IsAscii(text) {
      return None;
    }
    var bytes: seq<byte> := [];
    for i := 0 to 32
      invariant Unhex(text[..2 * i]) == Some(bytes)
      invariant |bytes| == i
    {
      var b := PairByte(text[2 * i], text[2 * i + 1]);
      if b == None {
        UnhexBad(text, i);
        return None;
      }
      UnhexAppend(text[..2 * i], text[2 * i], text[2 * i + 1]);
      assert text[..2 * (i + 1)] == text[..2 * i] + [text[2 * i], text[2 * i + 1]];
      bytes := bytes + [b.value];
    }
    assert text[..64] == text;
    r := Some(bytes);
  }

  lemma BodyAppend(entries: seq<Entry>, entry: Entry)
    ensures Body(entries + [entry]) == Body(entries) + (LineOf(entry) + "\n")
  {
    if entries == [] {
      assert entries + [entry] == [entry];
    } else {
      BodyAppend(entries[1..], entry);
      assert (entries + [entry])[1..] == entries[1..] + [entry];
      Associative(LineOf(entries[0]) + "\n", Body(entries[1..]), LineOf(entry) + "\n");
    }
  }

  method WriteManifest(entries: seq<Entry>) returns (manifest: string)
    ensures manifest == Write(entries)
  {
    var body := "";
    for i := 0 to |entries|
      invariant body == Body(entries[..i])
    {
      BodyAppend(entries[..i], entries[i]);
      assert entries[..i + 1] == entries[..i] + [entries[i]];
      var path := PercentEncode(entries[i].path);
      var digest := HexText(entries[i].digest);
      body := body + (path + "\t" + ALGORITHM + "\t" + digest + "\n");
    }
    assert entries[..|entries|] == entries;
    manifest := HEADER + "\n" + (COLUMNS + "\n" + body);
  }

  lemma MismatchesAppend(entries: seq<Entry>, entry: Entry, observe: Path -> Observation)
    ensures Mismatches(entries + [entry], observe) ==
            Mismatches(entries, observe) +
            if observe(entry.path) == Observed(entry.digest) then []
            else [Mismatch(entry.path, entry.digest, observe(entry.path))]
  {
    assert (entries + [entry])[..|entries|] == entries;
  }

  /** What one line adds to the reading of the lines after it. */
  lemma ReadLinesStep(lines: seq<string>, number: nat, seen: set<PathKey>, done: seq<Entry>)
    requires lines != [] && !Skipped(lines[0]) && ParseLine(lines[0]).Ok?
    requires KeyOf(ParseLine(lines[0]).value.path) !in seen
    ensures var entry := ParseLine(lines[0]).value;
            Prepend(done, ReadLines(lines, number, seen)) ==
            Prepend(done + [entry], ReadLines(lines[1..], number + 1, seen + {KeyOf(entry.path)}))
  {
    var entry := ParseLine(lines[0]).value;
    PrependTwice(done, [entry], ReadLines(lines[1..], number + 1, seen + {KeyOf(entry.path)}));
  }

  method CheckLocalManifest(text: string, observe: Path -> Observation)
    returns (r: Result<seq<Mismatch>, ManifestError>)
    ensures r == Check(text, observe)
  {
    var lines := Lines(text);
    if lines == [] {
      return Err(EmptyManifest);
    }
    if lines[0] != HEADER {
      return Err(UnsupportedHeader(lines[0]));
    }
    var seen: set<PathKey> := {};
    var mismatches: seq<Mismatch> := [];
    ghost var done: seq<Entry> := [];
    var i := 1;
    PrependTwice([], [], ReadLines(lines[1..], 2, {}));
    while i < |lines|
      invariant 1 <= i <= |lines|
      invariant Read(text) == Prepend(done, ReadLines(lines[i..], i + 1, seen))
      invariant mismatches == Mismatches(done, observe)
    {
      assert lines[i..][0] == lines[i] && lines[i..][1..] == lines[i + 1..];
      if !Skipped(lines[i]) {
        var parsed := ParseLine(lines[i]);
        if parsed.Err? {
          return Err(BadLine(i + 1, parsed.error));
        }
        var entry := parsed.value;
        if KeyOf(entry.path) in seen {
          return Err(BadLine(i + 1, DuplicatePath(entry.path)));
        }
        ReadLinesStep(lines[i..], i + 1, seen, done);
        MismatchesAppend(done, entry, observe);
        seen := seen + {KeyOf(entry.path)};
        if observe(entry.path) != Observed(entry.digest) {
          mismatches := mismatches + [Mismatch(entry.path, entry.digest, observe(entry.path))];
        }
        done := done + [entry];
      }
      i := i + 1;
    }
    assert lines[i..] == [] && done + [] == done;
    r := Ok(mismatches);
  }
}
