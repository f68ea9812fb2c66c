/** tools/hexfile/hexfile.py: Intel hex text and the list of cells it stands for. */
module IntelHex {
  import opened Words
  import opened HexRecords

  /** A cell of a loaded file: a number, or the NUL character that fills a gap. */
  datatype Cell = Num(value: Byte) | Nul

  // ------------------------------------------------------------------ hex digits

  function DigitChar(d: nat): char
    requires d < 16
  {
    "0123456789abcdef"[d]
  }

  predicate IsHex(c: char) {
    '0' <= c <= '9' || 'a' <= c <= 'f' || 'A' <= c <= 'F'
  }

  function DigitValue(c: char): (d: nat)
    requires IsHex(c)
    ensures d < 16
  {
    if '0' <= c <= '9' then c as int - '0' as int
    else if 'a' <= c <= 'f' then c as int - 'a' as int + 10
    else c as int - 'A' as int + 10
  }

  lemma {:induction false} DigitRoundTrip(d: nat)
    requires d < 16
    ensures IsHex(DigitChar(d)) && DigitValue(DigitChar(d)) == d
  {
  }

  predicate AllHex(s: string) {
    forall i :: 0 <= i < |s| ==> IsHex(s[i])
  }

  function HexDigits(v: nat): (s: string)
    ensures s != []
    ensures v >= 16 ==> |s| >= 2
    ensures v >= 256 ==> |s| >= 3
  {
    if v < 16 then [DigitChar(v)] else HexDigits(v / 16) + [DigitChar(v % 16)]
  }

  /** The format %02x: at least two digits. */
  function Hex02(v: nat): (s: string)
    ensures |s| >= 2 && (v >= 256 ==> |s| >= 3)
  {
    if v < 16 then "0" + HexDigits(v) else HexDigits(v)
  }

  /** Two digits for a byte, letters in lower case. */
  lemma {:induction false} TwoDigits(v: Byte)
    ensures Hex02(v) == ["0123456789abcdef"[v / 16], "0123456789abcdef"[v % 16]]
  {
    if v >= 16 {
      assert HexDigits(v / 16) == [DigitChar(v / 16)];
    }
  }

  function Hex02All(s: Bytes): string {
    if s == [] then "" else Hex02(s[0]) + Hex02All(s[1..])
  }

  /** int(line[i:i+2], 16) for every other i: a last digit without a partner counts as it is. */
  function Pairs(s: string): (r: Bytes)
    requires AllHex(s)
    ensures |r| == (|s| + 1) / 2
  {
    if s == [] then []
    else if |s| == 1 then [DigitValue(s[0])]
    else [16 * DigitValue(s[0]) + DigitValue(s[1])] + Pairs(s[2..])
  }

  // --------------------------------------------------------------------- records

  datatype Record = Bad | End | Data(address: U16, bytes: Bytes) | Other

  /** One line: the record it holds, Bad for the lines that make the loader give up. */
  function ParseLine(text: string): Record {
    var line := Stripped(text);
    if |line| < 9 || !AllHex(line[1..]) then
      Bad
    else
      ParseBytes(Pairs(line[1..]))
  }

  function ParseBytes(b: Bytes): Record
    requires |b| >= 4
  {
    if b[0] != |b| - 5 || Sum(b) % 256 != 0 then
      Bad
    else if b[3] == 1 then
      if b[0] != 0 || b[1] != 0 || b[2] != 0 then Bad else End
    else if b[3] == 0 then
      Data(b[1] as int * 256 + b[2] as int, b[4..|b| - 1])
    else
      Other
  }

  lemma {:induction false} DigitIs(line: string, i: nat)
    requires i < |line|
    ensures IsHex(line[i]) <==> line[i] in "0123456789abcdefABCDEF"
    ensures IsHex(line[i]) ==> DigitValue(line[i]) == DigitAt(line, i)
  {
  }

  lemma {:induction false} RecordDigits(line: string)
    requires |line| >= 9
    ensures IsRecord(line) <==> AllHex(line[1..])
  {
    hide IsHex;
    forall i | 1 <= i < |line|
      ensures IsHex(line[1..][i - 1]) <==> line[i] in "0123456789abcdefABCDEF"
    {
      DigitIs(line, i);
    }
    if IsRecord(line) {
      forall i | 0 <= i < |line| - 1
        ensures IsHex(line[1..][i])
      {
        assert line[i + 1] in "0123456789abcdefABCDEF";
      }
    }
  }

  lemma {:induction false} PairAt(s: string, i: nat)
    requires AllHex(s) && i < |Pairs(s)|
    ensures Pairs(s)[i]
      == if 2 * i + 1 < |s| then 16 * DigitValue(s[2 * i]) + DigitValue(s[2 * i + 1]) else DigitValue(s[2 * i])
    decreases i
  {
    hide DigitValue, IsHex;
    if i > 0 {
      PairAt(s[2..], i - 1);
    }
  }

  lemma {:induction false} ByteIsPair(line: string, i: nat)
    requires |line| > 1 && AllHex(line[1..]) && i < ByteCount(line)
    ensures |Pairs(line[1..])| == ByteCount(line) && Pairs(line[1..])[i] == ByteAt(line, i)
  {
    hide Pairs, DigitAt, DigitValue, IsHex;
    var s := line[1..];
    PairAt(s, i);
    DigitIs(line, 2 * i + 1);
    assert s[2 * i] == line[2 * i + 1] && IsHex(s[2 * i]);
    if 2 * i + 2 < |line| {
      DigitIs(line, 2 * i + 2);
      assert s[2 * i + 1] == line[2 * i + 2] && IsHex(s[2 * i + 1]);
    }
  }

  lemma {:induction false} SumOfPairs(line: string, n: nat)
    requires |line| > 1 && AllHex(line[1..]) && n <= ByteCount(line)
    ensures n <= |Pairs(line[1..])| && Sum(Pairs(line[1..])[..n]) == SumTo(line, n)
  {
    hide Pairs, ByteAt, AllHex;
    var b := Pairs(line[1..]);
    if n > 0 {
      SumOfPairs(line, n - 1);
      ByteIsPair(line, n - 1);
      assert b[..n] == b[..n - 1] + [b[n - 1]];
      SumAppends(b[..n - 1], b[n - 1]);
    }
  }

  lemma {:induction false} SumAppends(s: Bytes, c: Byte)
    ensures Sum(s + [c]) == Sum(s) + c as int
  {
    if s == [] {
      assert s + [c] == [c] && [c][1..] == [];
    } else {
      assert (s + [c])[1..] == s[1..] + [c];
      SumAppends(s[1..], c);
    }
  }

  /** What a line is taken for, by its digits. */
  lemma {:induction false} LineIff(text: string)
    ensures var line, record := Stripped(text), ParseLine(text);
      && (record.Bad? <==> IsFaulty(line))
      && (record.End? <==> IsEnd(line) && !IsFaulty(line))
      && (record.Data? <==> IsSound(line) && ByteAt(line, 3) == 0)
      && (record.Data? ==>
            && record.address as int == 256 * ByteAt(line, 1) as int + ByteAt(line, 2) as int
            && |record.bytes| == ByteAt(line, 0)
            && forall i :: 0 <= i < |record.bytes| ==> record.bytes[i] == ByteAt(line, 4 + i))
  {
    var line := Stripped(text);
    hide Stripped, Pairs, AllHex, IsRecord, SumTo, ByteAt, Sum;
    if |line| >= 9 {
      RecordDigits(line);
      if IsRecord(line) {
        var n, b := ByteCount(line), Pairs(line[1..]);
        SumOfPairs(line, n);
        assert b[..n] == b;
        ByteIsPair(line, 0);
        ByteIsPair(line, 1);
        ByteIsPair(line, 2);
        ByteIsPair(line, 3);
        forall i | 4 <= i < n
          ensures b[i] == ByteAt(line, i)
        {
          ByteIsPair(line, i);
        }
      }
    } else {
      ShortLine(line);
    }
  }

  lemma {:induction false} ShortLine(line: string)
    requires |line| < 9
    ensures !IsRecord(line)
  {
  }

  /** An end record before line k stops the loader there. */
  ghost predicate Unended(lines: seq<string>, k: nat)
    requires k <= |lines|
  {
    forall j :: 0 <= j < k ==> !IsEnd(Stripped(lines[j]))
  }

  /** Loading fails exactly when there is a faulty line and no end record before it. */
  lemma {:induction false} LoadFails(data: seq<Cell>, lines: seq<string>)
    ensures Load(data, lines).None? <==>
      exists k :: 0 <= k < |lines| && IsFaulty(Stripped(lines[k])) && Unended(lines, k)
    decreases |lines|
  {
    hide Stripped, ParseLine, IsFaulty, IsEnd, Overlay;
    if lines != [] {
      LineIff(lines[0]);
      var rest := lines[1..];
      match ParseLine(lines[0])
      case Bad =>
        assert Unended(lines, 0);
      case End =>
        assert forall k :: 0 < k <= |lines| ==> !Unended(lines, k);
      case Data(address, bytes) =>
        LoadFails(Overlay(data, address, bytes), rest);
        FaultLater(lines);
      case Other =>
        LoadFails(data, rest);
        FaultLater(lines);
    }
  }

  lemma {:induction false} FaultLater(lines: seq<string>)
    requires lines != [] && !IsFaulty(Stripped(lines[0])) && !IsEnd(Stripped(lines[0]))
    ensures (exists k :: 0 <= k < |lines| && IsFaulty(Stripped(lines[k])) && Unended(lines, k))
      <==> exists k :: 0 <= k < |lines[1..]| && IsFaulty(Stripped(lines[1..][k])) && Unended(lines[1..], k)
  {
    hide Stripped, IsFaulty, IsEnd;
    var rest := lines[1..];
    forall k | 0 <= k < |rest|
      ensures rest[k] == lines[k + 1] && (Unended(rest, k) <==> Unended(lines, k + 1))
    {
      assert Unended(lines, k + 1) ==> forall j :: 0 <= j < k ==> rest[j] == lines[j + 1];
    }
    if k :| 0 <= k < |lines| && IsFaulty(Stripped(lines[k])) && Unended(lines, k) {
      assert rest[k - 1] == lines[k];
    }
    if k :| 0 <= k < |rest| && IsFaulty(Stripped(rest[k])) && Unended(rest, k) {
      assert lines[k + 1] == rest[k];
    }
  }

  function Nuls(n: int): seq<Cell> {
    seq(if n > 0 then n else 0, _ => Nul)
  }

  function Numbers(s: Bytes): (r: seq<Cell>)
    ensures |r| == |s|
  {
    seq(|s|, i requires 0 <= i < |s| => Num(s[i]))
  }

  /** A data record laid over the cells, after NULs up to its end. */
  function Overlay(data: seq<Cell>, address: nat, bytes: Bytes): seq<Cell> {
    var d := data + Nuls(address + |bytes| - |data|);
    d[..address] + Numbers(bytes) + d[address + |bytes|..]
  }

  function Load(data: seq<Cell>, lines: seq<string>): Option<seq<Cell>>
    decreases |lines|
  {
    if lines == [] then
      Some(data)
    else
      match ParseLine(lines[0])
      case Bad => None
      case End => Some(data)
      case Data(address, bytes) => Load(Overlay(data, address, bytes), lines[1..])
      case Other => Load(data, lines[1..])
  }

  method LoadHexFile(lines: seq<string>) returns (r: Option<seq<Cell>>)
    ensures r == Load([], lines)
    ensures r.None? <==> exists k :: 0 <= k < |lines| && IsFaulty(Stripped(lines[k])) && Unended(lines, k)
    ensures (exists k :: 0 <= k < |lines| && IsDamaged(Stripped(lines[k])) && Unended(lines, k)) ==> r.None?
  {
    hide Load, ParseLine, Overlay, Stripped, IsFaulty, IsEnd, IsDamaged, Unended;
    LoadFails([], lines);
    DamageFails(lines);
    var data: seq<Cell> := [];
    var i := 0;
    assert lines[0..] == lines;
    while i < |lines|
      invariant i <= |lines| && Load([], lines) == Load(data, lines[i..])
    {
      LoadStep(data, lines, i);
      var record := ParseLine(lines[i]);
      match record {
        case Bad => return None;
        case End => return Some(data);
        case Data(address, bytes) => data := LayOver(data, address, bytes);
        case Other =>
      }
      i := i + 1;
    }
    EndOfLines(data, lines);
    r := Some(data);
  }

  lemma {:induction false} DamageFails(lines: seq<string>)
    ensures (exists k :: 0 <= k < |lines| && IsDamaged(Stripped(lines[k])) && Unended(lines, k)) ==>
      exists k :: 0 <= k < |lines| && IsFaulty(Stripped(lines[k])) && Unended(lines, k)
  {
    hide Stripped, IsEnd, IsDamaged, IsSound, Unended;
    if k :| 0 <= k < |lines| && IsDamaged(Stripped(lines[k])) && Unended(lines, k) {
      DamageIsFound(Stripped(lines[k]));
      assert IsFaulty(Stripped(lines[k]));
    }
  }

  method LayOver(cells: seq<Cell>, address: nat, bytes: Bytes) returns (data: seq<Cell>)
    ensures data == Overlay(cells, address, bytes)
  {
    data := cells;
    var paddingSize := address + |bytes| - |data|;
    if paddingSize > 0 {
      data := data + Nuls(paddingSize);
    }
    data := data[..address] + Numbers(bytes) + data[address + |bytes|..];
  }

  lemma {:induction false} EndOfLines(data: seq<Cell>, lines: seq<string>)
    ensures Load(data, lines[|lines|..]) == Some(data)
  {
  }

  lemma {:induction false} LoadStep(data: seq<Cell>, lines: seq<string>, i: nat)
    requires i < |lines|
    ensures Load(data, lines[i..])
      == match ParseLine(lines[i])
         case Bad => None
         case End => Some(data)
         case Data(address, bytes) => Load(Overlay(data, address, bytes), lines[i + 1..])
         case Other => Load(data, lines[i + 1..])
  {
    hide ParseLine, Overlay;
    assert lines[i..][1..] == lines[i + 1..];
  }

  // --------------------------------------------------------------------- writing

  /** The record of a chunk at an address, without the end of the line. */
  function RecordText(address: nat, chunk: Bytes): string {
    var low, high := address % 256, address / 256;
    ":" + Hex02(|chunk|) + Hex02(high) + Hex02(low) + "00" + Hex02All(chunk)
    + Hex02(Checksum(|chunk| + low + high + Sum(chunk)))
  }

  /** The byte that brings a sum to a multiple of 256. */
  function Checksum(sum: nat): (c: Byte)
    ensures (sum + c) % 256 == 0
  {
    var r := sum % 256;
    if r == 0 then 0 else 256 - r
  }

  function RecordLine(address: nat, chunk: Bytes): string {
    RecordText(address, chunk) + "\n"
  }

  const END_LINE := ":00000001FF\n"

  /** The lines of the data from an address on. */
  function HexLines(data: Bytes, address: nat, size: nat): seq<string>
    requires size > 0
    decreases |data| - address
  {
    if address >= |data| then
      [END_LINE]
    else
      [RecordLine(address, data[address..Min(address + size, |data|)])] + HexLines(data, address + size, size)
  }

  /** The text of the file; xrange refuses a step of 0, and finds nothing to do with a negative one. */
  function HexText(data: Bytes, size: int): Option<string> {
    if size == 0 then None
    else if size < 0 then Some(END_LINE)
    else Some(Flatten(HexLines(data, 0, size)))
  }

  method WriteHexFile(data: Bytes, chunkSize: int) returns (r: Option<string>)
    ensures r == HexText(data, chunkSize)
  {
    if chunkSize == 0 {
      return None;
    }
    if chunkSize < 0 {
      return Some(END_LINE);
    }
    var text := WriteRecords(data, chunkSize);
    text := text + END_LINE;
    r := Some(text);
  }

  method WriteRecords(data: Bytes, chunkSize: nat) returns (text: string)
    requires chunkSize > 0
    ensures text + END_LINE == Flatten(HexLines(data, 0, chunkSize))
  {
    hide RecordLine, HexLines, Flatten;
    text := "";
    var address: nat := 0;
    while address < |data|
      invariant text + Flatten(HexLines(data, address, chunkSize)) == Flatten(HexLines(data, 0, chunkSize))
      decreases |data| - address
    {
      LinesStep(data, address, chunkSize, text);
      var chunk := data[address..Min(address + chunkSize, |data|)];
      var line := WriteRecord(address, chunk);
      text := text + line;
      address := address + chunkSize;
    }
    LastLine(data, address, chunkSize);
  }

  method WriteRecord(address: nat, chunk: Bytes) returns (line: string)
    ensures line == RecordLine(address, chunk)
  {
    hide Hex02;
    var low, high := address % 256, address / 256;
    line := ":" + Hex02(|chunk|) + Hex02(high) + Hex02(low) + "00";
    var digits, sum: nat := "", 0;
    assert chunk[0..] == chunk;
    for i := 0 to |chunk|
      invariant digits + Hex02All(chunk[i..]) == Hex02All(chunk)
      invariant sum + Sum(chunk[i..]) == Sum(chunk)
    {
      assert chunk[i..][1..] == chunk[i + 1..];
      digits := digits + Hex02(chunk[i]);
      sum := sum + chunk[i];
    }
    line := line + digits;
    line := line + Hex02((0 - (|chunk| + low + high + sum)) % 256);
    line := line + "\n";
  }

  lemma {:induction false} LinesStep(data: Bytes, address: nat, size: nat, text: string)
    requires address < |data| && size > 0
    ensures text + Flatten(HexLines(data, address, size))
      == text + RecordLine(address, data[address..Min(address + size, |data|)])
         + Flatten(HexLines(data, address + size, size))
  {
    hide RecordLine;
    var lines := HexLines(data, address, size);
    assert lines[1..] == HexLines(data, address + size, size);
  }

  lemma {:induction false} LastLine(data: Bytes, address: nat, size: nat)
    requires address >= |data| && size > 0
    ensures Flatten(HexLines(data, address, size)) == END_LINE
  {
    var none: seq<string> := [];
    assert [END_LINE][1..] == none;
  }
}
