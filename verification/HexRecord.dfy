/** Intel hex lines by their digits: what makes a record, and when it is damaged. */
module HexRecords {
  import opened Words

  predicate IsSpace(c: char) {
    c == ' ' || 9 as char <= c <= 13 as char
  }

  function StripLeft(s: string): string {
    if s != [] && IsSpace(s[0]) then StripLeft(s[1..]) else s
  }

  function StripRight(s: string): string {
    if s != [] && IsSpace(s[|s| - 1]) then StripRight(s[..|s| - 1]) else s
  }

  /** The line without the white space around it. */
  function Stripped(text: string): string {
    StripRight(StripLeft(text))
  }

  /** Nine characters or more, and digits from the second on. */
  predicate IsRecord(line: string) {
    |line| >= 9 && forall i :: 1 <= i < |line| ==> line[i] in "0123456789abcdefABCDEF"
  }

  function DigitAt(line: string, i: nat): (d: nat)
    requires i < |line|
    ensures d < 16
  {
    if '0' <= line[i] <= '9' then line[i] as int - '0' as int
    else if 'a' <= line[i] <= 'f' then 10 + (line[i] as int - 'a' as int)
    else if 'A' <= line[i] <= 'F' then 10 + (line[i] as int - 'A' as int)
    else 0
  }

  /** The bytes after the first character; a last digit without a partner counts as one. */
  function ByteCount(line: string): nat {
    |line| / 2
  }

  function ByteAt(line: string, i: nat): Byte
    requires i < ByteCount(line)
  {
    if 2 * i + 2 < |line| then 16 * DigitAt(line, 2 * i + 1) + DigitAt(line, 2 * i + 2) else DigitAt(line, 2 * i + 1)
  }

  /** The first n bytes added up. */
  function SumTo(line: string, n: nat): nat
    requires n <= ByteCount(line)
  {
    if n == 0 then 0 else SumTo(line, n - 1) + ByteAt(line, n - 1) as int
  }

  /** A record that states its own length and whose bytes add up to a multiple of 256. */
  predicate IsSound(line: string) {
    && IsRecord(line)
    && ByteAt(line, 0) == ByteCount(line) - 5
    && SumTo(line, ByteCount(line)) % 256 == 0
  }

  /** A record of type 1. */
  predicate IsEnd(line: string) {
    IsSound(line) && ByteAt(line, 3) == 1
  }

  /** A line that makes the loader give up: an unsound one, or an end record with a length or an address. */
  predicate IsFaulty(line: string) {
    !IsSound(line)
    || (ByteAt(line, 3) == 1 && (ByteAt(line, 0) != 0 || ByteAt(line, 1) != 0 || ByteAt(line, 2) != 0))
  }

  /** In a sound record the digits of one byte have been changed to others. */
  ghost predicate IsDamaged(line: string) {
    exists good: string, at: nat :: Damages(good, line, at)
  }

  ghost predicate Damages(good: string, line: string, at: nat) {
    && IsSound(good) && IsRecord(line) && |line| == |good| && at < ByteCount(good)
    && ByteAt(line, at) != ByteAt(good, at)
    && forall i :: 0 <= i < ByteCount(good) && i != at ==> ByteAt(line, i) == ByteAt(good, i)
  }

  lemma {:induction false} SumChanges(good: string, line: string, at: nat, n: nat)
    requires |line| == |good| && at < ByteCount(good) && n <= ByteCount(good)
    requires forall i :: 0 <= i < ByteCount(good) && i != at ==> ByteAt(line, i) == ByteAt(good, i)
    ensures SumTo(line, n) - SumTo(good, n) == if at < n then ByteAt(line, at) as int - ByteAt(good, at) as int else 0
  {
    hide ByteAt;
    if n > 0 {
      SumChanges(good, line, at, n - 1);
    }
  }

  /** The check byte finds every such change. */
  lemma {:induction false} DamageIsFound(line: string)
    requires IsDamaged(line)
    ensures !IsSound(line)
  {
    var good: string, at: nat :| Damages(good, line, at);
    var n := ByteCount(good);
    SumChanges(good, line, at, n);
    hide ByteAt, SumTo, IsRecord;
    OffByLess(SumTo(line, n), SumTo(good, n), ByteAt(line, at), ByteAt(good, at));
  }

  lemma {:induction false} OffByLess(x: nat, y: nat, a: Byte, b: Byte)
    requires x - y == a as int - b as int && a != b && y % 256 == 0
    ensures x % 256 != 0
  {
  }
}
