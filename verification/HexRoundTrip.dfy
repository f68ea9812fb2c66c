/** Loading what tools/hexfile/hexfile.py wrote, and what loading means in general. */
module HexRoundTrip {
  import opened Words
  import opened IntelHex
  import opened HexRecords

  // ---------------------------------------------------------------------- digits

  lemma {:induction false} DigitsAreHex(v: nat)
    ensures AllHex(HexDigits(v))
  {
    if v < 16 {
      DigitRoundTrip(v);
    } else {
      DigitsAreHex(v / 16);
      DigitRoundTrip(v % 16);
    }
  }

  lemma {:induction false} Hex02IsHex(v: nat)
    ensures AllHex(Hex02(v))
  {
    hide HexDigits;
    DigitsAreHex(v);
  }

  lemma {:induction false} TwoDigits(v: Byte)
    ensures |Hex02(v)| == 2 && AllHex(Hex02(v))
    ensures 16 * DigitValue(Hex02(v)[0]) + DigitValue(Hex02(v)[1]) == v
  {
    hide DigitValue, DigitChar, IsHex;
    DigitRoundTrip(0);
    ZeroDigit();
    DigitRoundTrip(v / 16);
    DigitRoundTrip(v % 16);
    OneDigit(v / 16);
    if v < 16 {
      assert Hex02(v) == [DigitChar(0), DigitChar(v)];
    } else {
      assert Hex02(v) == [DigitChar(v / 16), DigitChar(v % 16)];
    }
  }

  lemma {:induction false} OneDigit(d: nat)
    requires d < 16
    ensures HexDigits(d) == [DigitChar(d)]
  {
  }

  lemma {:induction false} ZeroDigit()
    ensures DigitChar(0) == '0'
  {
  }

  lemma {:induction false} HexAppend(a: string, b: string)
    ensures AllHex(a + b) <==> AllHex(a) && AllHex(b)
  {
    hide IsHex;
    if AllHex(a + b) {
      assert forall i :: 0 <= i < |a| ==> a[i] == (a + b)[i];
      assert forall i :: 0 <= i < |b| ==> b[i] == (a + b)[|a| + i];
    }
  }

  /** Two digits are read as the byte they were made from. */
  lemma {:induction false} FirstPair(v: Byte, rest: string)
    requires AllHex(rest)
    ensures AllHex(Hex02(v) + rest) && Pairs(Hex02(v) + rest) == [v] + Pairs(rest)
  {
    hide Hex02, DigitValue, IsHex;
    TwoDigits(v);
    HexAppend(Hex02(v), rest);
    assert (Hex02(v) + rest)[2..] == rest;
  }

  lemma {:induction false} ChunkPairs(chunk: Bytes, rest: string)
    requires AllHex(rest)
    ensures AllHex(Hex02All(chunk) + rest) && Pairs(Hex02All(chunk) + rest) == chunk + Pairs(rest)
    ensures |Hex02All(chunk)| == 2 * |chunk|
  {
    hide Hex02, Pairs, AllHex;
    if chunk == [] {
      assert Hex02All(chunk) + rest == rest;
    } else {
      ChunkPairs(chunk[1..], rest);
      FirstPair(chunk[0], Hex02All(chunk[1..]) + rest);
      assert Hex02All(chunk) + rest == Hex02(chunk[0]) + (Hex02All(chunk[1..]) + rest);
      TwoDigits(chunk[0]);
    }
  }

  lemma {:induction false} OnePair(v: Byte)
    ensures AllHex(Hex02(v)) && Pairs(Hex02(v)) == [v]
  {
    hide Hex02, DigitValue, IsHex;
    TwoDigits(v);
    assert Hex02(v)[2..] == [];
  }

  // --------------------------------------------------------------------- records

  function Fields(address: nat, chunk: Bytes): string {
    Hex02(|chunk|) + (Hex02(address / 256) + (Hex02(address % 256) + (Hex02(0) + (Hex02All(chunk)
    + Hex02(Checksum(|chunk| + address % 256 + address / 256 + Sum(chunk)))))))
  }

  lemma {:induction false} TextIsFields(address: nat, chunk: Bytes)
    ensures RecordText(address, chunk) == ":" + Fields(address, chunk)
  {
    hide HexDigits, Checksum;
    assert Hex02(0) == "00" by {
      ZeroDigit();
      ZeroText();
    }
  }

  lemma {:induction false} ZeroText()
    ensures HexDigits(0) == [DigitChar(0)]
  {
  }

  /** Which records a loader can read back. */
  predicate Fits(address: nat, chunk: Bytes) {
    |chunk| < 256 && address < 0x1_0000
  }

  lemma {:induction false} FieldBytes(address: nat, chunk: Bytes)
    requires Fits(address, chunk)
    ensures AllHex(Fields(address, chunk))
    ensures Pairs(Fields(address, chunk))
      == [|chunk|, address / 256, address % 256, 0] + chunk
         + [Checksum(|chunk| + address % 256 + address / 256 + Sum(chunk))]
  {
    hide Hex02, Hex02All, Pairs, AllHex, Checksum;
    var c := Checksum(|chunk| + address % 256 + address / 256 + Sum(chunk));
    OnePair(c);
    ChunkPairs(chunk, Hex02(c));
    FirstPair(0, Hex02All(chunk) + Hex02(c));
    FirstPair(address % 256, Hex02(0) + (Hex02All(chunk) + Hex02(c)));
    FirstPair(address / 256, Hex02(address % 256) + (Hex02(0) + (Hex02All(chunk) + Hex02(c))));
    FirstPair(|chunk|, Hex02(address / 256) + (Hex02(address % 256) + (Hex02(0) + (Hex02All(chunk) + Hex02(c)))));
  }

  lemma {:induction false} SumAppend(a: Bytes, b: Bytes)
    ensures Sum(a + b) == Sum(a) + Sum(b)
  {
    if a == [] {
      assert a + b == b;
    } else {
      SumAppend(a[1..], b);
      assert (a + b)[1..] == a[1..] + b;
    }
  }

  lemma {:induction false} SumOne(x: Byte)
    ensures Sum([x]) == x
  {
    assert [x][1..] == [];
  }

  lemma {:induction false} SumFour(a: Byte, b: Byte, c: Byte, d: Byte)
    ensures Sum([a, b, c, d]) == a as int + b as int + c as int + d as int
  {
    var s3: Bytes, s2: Bytes, s1: Bytes := [b, c, d], [c, d], [d];
    assert [a, b, c, d][1..] == s3 && s3[1..] == s2 && s2[1..] == s1;
    SumOne(d);
    assert Sum(s2) == c + d;
    assert Sum(s3) == b + c + d;
  }

  lemma {:induction false} GoodBytes(address: nat, chunk: Bytes, b: Bytes, c: Byte)
    requires Fits(address, chunk) && c == Checksum(|chunk| + address % 256 + address / 256 + Sum(chunk))
    requires b == [|chunk|, address / 256, address % 256, 0] + chunk + [c]
    ensures ParseBytes(b) == Data(address, chunk)
  {
    hide Sum, Checksum;
    SumAppend([|chunk|, address / 256, address % 256, 0] + chunk, [c]);
    SumAppend([|chunk|, address / 256, address % 256, 0], chunk);
    SumFour(|chunk|, address / 256, address % 256, 0);
    SumOne(c);
    assert b[4..|b| - 1] == chunk;
  }

  lemma {:induction false} StrippedText(t: string)
    requires t != [] && !IsSpace(t[0]) && !IsSpace(t[|t| - 1])
    ensures StripRight(StripLeft(t + "\n")) == t
  {
    var line := t + "\n";
    assert StripLeft(line) == line;
    assert line[..|line| - 1] == t;
  }

  lemma {:induction false} HexIsNotSpace(s: string)
    requires s != [] && AllHex(s)
    ensures !IsSpace(s[|s| - 1])
  {
    assert IsHex(s[|s| - 1]);
  }

  lemma {:induction false} LineOf(s: string)
    requires AllHex(s) && |s| >= 8
    ensures ParseLine(":" + s + "\n") == ParseBytes(Pairs(s))
  {
    hide AllHex, ParseBytes, Pairs, StripLeft, StripRight;
    HexIsNotSpace(s);
    var t := ":" + s;
    StrippedText(t);
    assert t[1..] == s;
  }

  /** A record that fits is parsed as what it was made from. */
  lemma {:induction false} RecordRoundTrip(address: nat, chunk: Bytes)
    requires Fits(address, chunk)
    ensures ParseLine(RecordLine(address, chunk)) == Data(address, chunk)
  {
    hide ParseLine, ParseBytes, Pairs, Fields, RecordText, Checksum, AllHex;
    TextIsFields(address, chunk);
    FieldBytes(address, chunk);
    var b := Pairs(Fields(address, chunk));
    GoodBytes(address, chunk, b, b[|b| - 1]);
    LineOf(Fields(address, chunk));
  }

  lemma {:induction false} EndIsEnd()
    ensures ParseLine(END_LINE) == End
  {
    hide ParseLine;
    assert END_LINE == ":" + "00000001FF" + "\n";
    var s := "00000001FF";
    LineOf(s);
    EndPairs();
    SumEnd();
  }

  lemma {:induction false} EndPairs()
    ensures AllHex("00000001FF") && Pairs("00000001FF") == [0, 0, 0, 1, 255]
  {
    LeadingPair('F', 'F', "");
    LeadingPair('0', '1', "FF");
    LeadingPair('0', '0', "01FF");
    LeadingPair('0', '0', "0001FF");
    LeadingPair('0', '0', "000001FF");
    hide Pairs;
    assert "FF" == ['F', 'F'] + "";
    assert "01FF" == ['0', '1'] + "FF";
    assert "0001FF" == ['0', '0'] + "01FF";
    assert "000001FF" == ['0', '0'] + "0001FF";
    assert "00000001FF" == ['0', '0'] + "000001FF";
  }

  lemma {:induction false} LeadingPair(a: char, b: char, rest: string)
    ensures IsHex(a) && IsHex(b) && AllHex(rest) ==>
      AllHex([a, b] + rest) && Pairs([a, b] + rest) == [16 * DigitValue(a) + DigitValue(b)] + Pairs(rest)
  {
    assert ([a, b] + rest)[2..] == rest;
  }

  lemma {:induction false} SumEnd()
    ensures Sum([0, 0, 0, 1, 255]) == 256
  {
    assert [0, 0, 0, 1, 255][1..] == [0, 0, 1, 255];
    SumFour(0, 0, 1, 255);
  }

  /** A record that fits, by its digits: length, address, type 0, the bytes, and a sum of 0. */
  lemma {:induction false} WrittenIsSound(address: nat, chunk: Bytes)
    requires Fits(address, chunk)
    ensures var line := Stripped(RecordLine(address, chunk));
      && IsSound(line) && ByteAt(line, 0) == |chunk| && ByteAt(line, 3) == 0
      && 256 * ByteAt(line, 1) as int + ByteAt(line, 2) as int == address
      && forall i :: 0 <= i < |chunk| ==> ByteAt(line, 4 + i) == chunk[i]
  {
    hide Stripped, RecordLine, ParseLine, IsSound, ByteAt;
    RecordRoundTrip(address, chunk);
    LineIff(RecordLine(address, chunk));
    SoundLength(Stripped(RecordLine(address, chunk)));
  }

  lemma {:induction false} SoundLength(line: string)
    requires IsSound(line)
    ensures ByteCount(line) >= 4 && ByteAt(line, 0) == ByteCount(line) - 5
  {
    hide ByteAt, SumTo;
  }

  // ------------------------------------------------------ records that do not fit

  lemma {:induction false} FieldsAreHex(address: nat, chunk: Bytes)
    ensures AllHex(Fields(address, chunk))
    ensures |Fields(address, chunk)|
      >= |Hex02(|chunk|)| + |Hex02(address / 256)| + 2 + 2 + 2 * |chunk| + 2
  {
    hide Hex02, Hex02All, AllHex, Checksum;
    var c := Checksum(|chunk| + address % 256 + address / 256 + Sum(chunk));
    var tail := Hex02All(chunk) + Hex02(c);
    Hex02IsHex(c);
    ChunkPairs(chunk, Hex02(c));
    Hex02IsHex(0);
    HexAppend(Hex02(0), tail);
    Hex02IsHex(address % 256);
    HexAppend(Hex02(address % 256), Hex02(0) + tail);
    Hex02IsHex(address / 256);
    HexAppend(Hex02(address / 256), Hex02(address % 256) + (Hex02(0) + tail));
    Hex02IsHex(|chunk|);
    HexAppend(Hex02(|chunk|), Hex02(address / 256) + (Hex02(address % 256) + (Hex02(0) + tail)));
  }

  lemma {:induction false} FirstOfFields(address: nat, chunk: Bytes)
    requires |chunk| < 256
    ensures AllHex(Fields(address, chunk)) && Pairs(Fields(address, chunk))[0] == |chunk|
  {
    FieldsAreHex(address, chunk);
    hide Hex02, Hex02All, AllHex, Checksum, Pairs;
    var rest := Fields(address, chunk)[|Hex02(|chunk|)|..];
    assert Fields(address, chunk) == Hex02(|chunk|) + rest;
    HexAppend(Hex02(|chunk|), rest);
    FirstPair(|chunk|, rest);
  }

  /** A chunk or an address too long for its field makes the loader give up. */
  lemma {:induction false} RecordTooLong(address: nat, chunk: Bytes)
    requires !Fits(address, chunk)
    ensures ParseLine(RecordLine(address, chunk)) == Bad
  {
    hide ParseLine, Pairs, Fields, RecordText, AllHex, Hex02;
    TextIsFields(address, chunk);
    FieldsAreHex(address, chunk);
    LineOf(Fields(address, chunk));
    var b := Pairs(Fields(address, chunk));
    if |chunk| < 256 {
      FirstOfFields(address, chunk);
    }
    assert |b| - 5 >= |chunk| + 1;
  }

  // ----------------------------------------------------------------------- files

  /** The chunk of the data at an address. */
  function Chunk(data: Bytes, address: nat, size: nat): Bytes
    requires address < |data|
  {
    data[address..Min(address + size, |data|)]
  }

  predicate AllFit(data: Bytes, address: nat, size: nat)
    requires size > 0
    decreases |data| - address
  {
    address >= |data| || (Fits(address, Chunk(data, address, size)) && AllFit(data, address + size, size))
  }

  lemma {:induction false} OverlayAtEnd(data: Bytes, address: nat, size: nat)
    requires address < |data| && size > 0
    ensures Overlay(Numbers(data[..address]), address, Chunk(data, address, size))
      == Numbers(data[..Min(address + size, |data|)])
  {
  }

  /** The rest of a file is loaded after what stands before it, exactly when all its records fit. */
  lemma {:induction false} LoadRestIff(data: Bytes, address: nat, size: nat)
    requires size > 0
    ensures Load(Numbers(data[..Min(address, |data|)]), HexLines(data, address, size)) == Some(Numbers(data))
      <==> AllFit(data, address, size)
    decreases |data| - address
  {
    hide Overlay, Numbers, RecordLine, ParseLine, Fits;
    var lines := HexLines(data, address, size);
    if address >= |data| {
      assert data[..|data|] == data;
      EndIsEnd();
    } else {
      var chunk := Chunk(data, address, size);
      if Fits(address, chunk) {
        RecordRoundTrip(address, chunk);
        OverlayAtEnd(data, address, size);
        LoadRestIff(data, address + size, size);
        assert lines[1..] == HexLines(data, address + size, size);
      } else {
        RecordTooLong(address, chunk);
      }
    }
  }

  /** The address of the last record. */
  function LastAddress(n: nat, address: nat, size: nat): (r: nat)
    requires size > 0
    ensures r >= address
    decreases n - address
  {
    if address + size >= n then address else LastAddress(n, address + size, size)
  }

  lemma {:induction false} LastIsMultiple(n: nat, k: nat, size: nat) returns (last: nat)
    requires size > 0 && k * size < n
    ensures LastAddress(n, k * size, size) == last * size
    ensures last * size < n <= last * size + size
    decreases n - k * size
  {
    assert k * size + size == (k + 1) * size;
    last := k;
    if (k + 1) * size < n {
      last := LastIsMultiple(n, k + 1, size);
    }
  }

  lemma {:induction false} AllFitIff(data: Bytes, address: nat, size: nat)
    requires size > 0 && address < |data|
    ensures AllFit(data, address, size)
      <==> Min(size, |data| - address) < 256 && LastAddress(|data|, address, size) < 0x1_0000
    decreases |data| - address
  {
    if address + size < |data| {
      AllFitIff(data, address + size, size);
    }
  }

  /** Is the file of n bytes in chunks of this size one the loader reads back? */
  predicate Loadable(n: nat, size: nat)
    requires size > 0
  {
    n == 0 || (Min(size, n) < 256 && (n - 1) / size * size < 0x1_0000)
  }

  // ------------------------------------------------------------- the text in lines

  function LineLength(text: string): (n: nat)
    ensures n <= |text| && (text != [] ==> n > 0)
  {
    if text == "" then 0 else if text[0] == '\n' then 1 else 1 + LineLength(text[1..])
  }

  /** The lines a file is read in, each with its end. */
  function Lines(text: string): seq<string>
    decreases |text|
  {
    if text == "" then [] else [text[..LineLength(text)]] + Lines(text[LineLength(text)..])
  }

  predicate OneLine(line: string) {
    line != "" && line[|line| - 1] == '\n' && forall i :: 0 <= i < |line| - 1 ==> line[i] != '\n'
  }

  lemma {:induction false} LineEnds(line: string, rest: string)
    requires OneLine(line)
    ensures LineLength(line + rest) == |line|
  {
    if |line| > 1 {
      LineEnds(line[1..], rest);
      assert (line + rest)[1..] == line[1..] + rest;
    }
  }

  lemma {:induction false} LinesRoundTrip(lines: seq<string>)
    requires forall i :: 0 <= i < |lines| ==> OneLine(lines[i])
    ensures Lines(Flatten(lines)) == lines
  {
    hide OneLine;
    if lines != [] {
      var rest := Flatten(lines[1..]);
      var text := lines[0] + rest;
      LinesRoundTrip(lines[1..]);
      LineEnds(lines[0], rest);
      NotEmpty(lines[0]);
      assert text[..|lines[0]|] == lines[0] && text[|lines[0]|..] == rest;
    }
  }

  lemma {:induction false} NotEmpty(line: string)
    requires OneLine(line)
    ensures |line| > 0
  {
  }

  lemma {:induction false} RecordIsOneLine(address: nat, chunk: Bytes)
    ensures OneLine(RecordLine(address, chunk))
  {
    TextIsFields(address, chunk);
    FieldsAreHex(address, chunk);
    hide RecordText, Fields;
    var s := Fields(address, chunk);
    var line := ":" + s + "\n";
    forall i | 0 <= i < |line| - 1
      ensures line[i] != '\n'
    {
      assert i > 0 ==> line[i] == s[i - 1] && IsHex(s[i - 1]);
    }
  }

  lemma {:induction false} HexLinesAreLines(data: Bytes, address: nat, size: nat)
    requires size > 0
    ensures forall i :: 0 <= i < |HexLines(data, address, size)| ==> OneLine(HexLines(data, address, size)[i])
    decreases |data| - address
  {
    hide OneLine, RecordLine;
    if address >= |data| {
      EndIsOneLine();
    } else {
      RecordIsOneLine(address, Chunk(data, address, size));
      HexLinesAreLines(data, address + size, size);
    }
  }

  lemma {:induction false} EndIsOneLine()
    ensures OneLine(END_LINE)
  {
  }

  /** Loading the text written gives the data back exactly when its last record still has a 16-bit address. */
  lemma {:induction false} FileRoundTripIff(data: Bytes, size: nat)
    requires size > 0
    ensures Load([], Lines(HexText(data, size).value)) == Some(Numbers(data)) <==> Loadable(|data|, size)
  {
    hide Load, Lines, HexLines, Numbers, OneLine, AllFit, LastAddress;
    HexLinesAreLines(data, 0, size);
    LinesRoundTrip(HexLines(data, 0, size));
    LoadRestIff(data, 0, size);
    NoNumbers(data[..0]);
    if data == [] {
      NothingToFit(data, size);
    } else {
      AllFitIff(data, 0, size);
      var last := LastIsMultiple(|data|, 0, size);
      var n := |data| - 1;
      DivRem(size, last, n - last * size);
    }
  }

  lemma {:induction false} NoNumbers(s: Bytes)
    ensures s == [] ==> Numbers(s) == []
  {
  }

  lemma {:induction false} NothingToFit(data: Bytes, size: nat)
    requires size > 0 && data == []
    ensures AllFit(data, 0, size)
  {
  }

  /** In particular up to 65536 bytes, in chunks of 1 to 255. */
  lemma {:induction false} FileRoundTrip(data: Bytes, size: nat)
    requires 1 <= size <= 255 && |data| <= 0x1_0000
    ensures HexText(data, size).Some?
    ensures Load([], Lines(HexText(data, size).value)) == Some(Numbers(data))
  {
    hide Load, Lines, HexLines, Numbers;
    FileRoundTripIff(data, size);
    if data != [] {
      DivMod(|data| - 1, size);
    }
  }

  // ------------------------------------------------------------ what loading means

  predicate Covers(r: Record, i: nat) {
    r.Data? && r.address <= i < r.address + |r.bytes|
  }

  /** The byte that the last record to cover an address puts there. */
  function LastOver(records: seq<Record>, i: nat): Option<Byte> {
    if records == [] then
      None
    else
      var r := records[|records| - 1];
      if Covers(r, i) then Some(r.bytes[i - r.address]) else LastOver(records[..|records| - 1], i)
  }

  /** Where the farthest record ends. */
  function Extent(records: seq<Record>): nat {
    if records == [] then
      0
    else
      var r := records[|records| - 1];
      var e := Extent(records[..|records| - 1]);
      if r.Data? && r.address + |r.bytes| > e then r.address + |r.bytes| else e
  }

  function CellOf(b: Option<Byte>): Cell {
    match b
    case None => Nul
    case Some(v) => Num(v)
  }

  /** Do the cells hold, at each address up to the extent, what the last covering record puts there? */
  ghost predicate Shows(cells: seq<Cell>, records: seq<Record>) {
    |cells| == Extent(records) && forall i :: 0 <= i < |cells| ==> cells[i] == CellOf(LastOver(records, i))
  }

  lemma {:induction false} NothingBeyond(records: seq<Record>, i: nat)
    requires i >= Extent(records)
    ensures LastOver(records, i) == None
  {
    if records != [] {
      NothingBeyond(records[..|records| - 1], i);
    }
  }

  lemma {:induction false} OverlayAt(cells: seq<Cell>, address: nat, bytes: Bytes, i: nat)
    ensures |Overlay(cells, address, bytes)|
      == if address + |bytes| > |cells| then address + |bytes| else |cells|
    ensures i < |Overlay(cells, address, bytes)| ==>
      Overlay(cells, address, bytes)[i]
      == if address <= i < address + |bytes| then Num(bytes[i - address])
         else if i < |cells| then cells[i] else Nul
  {
  }

  lemma {:induction false} ShowsOverlay(cells: seq<Cell>, records: seq<Record>, address: U16, bytes: Bytes)
    requires Shows(cells, records)
    ensures Shows(Overlay(cells, address, bytes), records + [Data(address, bytes)])
  {
    hide Overlay;
    var all := records + [Data(address, bytes)];
    assert all[..|all| - 1] == records;
    var d := Overlay(cells, address, bytes);
    OverlayAt(cells, address, bytes, 0);
    forall i | 0 <= i < |d|
      ensures d[i] == CellOf(LastOver(all, i))
    {
      OverlayAt(cells, address, bytes, i);
      if i >= |cells| {
        NothingBeyond(records, i);
      }
    }
  }

  /** The records up to the end record, or up to the last line. */
  function Scan(lines: seq<string>): Option<seq<Record>> {
    if lines == [] then
      Some([])
    else
      match ParseLine(lines[0])
      case Bad => None
      case End => Some([])
      case r =>
        match Scan(lines[1..])
        case None => None
        case Some(more) => Some([r] + more)
  }

  lemma {:induction false} ShowsOther(cells: seq<Cell>, records: seq<Record>)
    requires Shows(cells, records)
    ensures Shows(cells, records + [Other])
  {
    var all := records + [Other];
    assert all[..|all| - 1] == records;
  }

  /** Loading fails with a bad line before the end record; else every cell shows the last record over it. */
  lemma {:induction false} LoadShows(cells: seq<Cell>, before: seq<Record>, lines: seq<string>)
    requires Shows(cells, before)
    ensures Load(cells, lines).Some? <==> Scan(lines).Some?
    ensures Load(cells, lines).Some? ==> Shows(Load(cells, lines).value, before + Scan(lines).value)
    decreases |lines|
  {
    hide ParseLine, Overlay, Shows;
    var none: seq<Record> := [];
    assert before + none == before;
    if lines != [] {
      match ParseLine(lines[0])
      case Bad =>
      case End =>
      case Data(address, bytes) =>
        ShowsOverlay(cells, before, address, bytes);
        LoadShows(Overlay(cells, address, bytes), before + [Data(address, bytes)], lines[1..]);
        Regroup(before, Data(address, bytes), lines);
      case Other =>
        ShowsOther(cells, before);
        LoadShows(cells, before + [Other], lines[1..]);
        Regroup(before, Other, lines);
    }
  }

  lemma {:induction false} Regroup(before: seq<Record>, r: Record, lines: seq<string>)
    requires lines != [] && ParseLine(lines[0]) == r && !r.Bad? && !r.End?
    ensures Scan(lines).Some? <==> Scan(lines[1..]).Some?
    ensures Scan(lines).Some? ==> before + Scan(lines).value == before + [r] + Scan(lines[1..]).value
  {
    hide ParseLine;
  }

  /** A loaded file: at every address the byte of the last record over it, NUL where there is none. */
  lemma {:induction false} LoadMeaning(lines: seq<string>)
    ensures Load([], lines).Some? <==> Scan(lines).Some?
    ensures Load([], lines).Some? ==> Shows(Load([], lines).value, Scan(lines).value)
  {
    hide Load, Scan;
    var none: seq<Record> := [];
    LoadShows([], none, lines);
    if Load([], lines).Some? {
      assert none + Scan(lines).value == Scan(lines).value;
    }
  }
}
