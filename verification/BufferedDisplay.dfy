/**
 * devices/buffered_display.h: a page of text copied to the LCD difference by difference.
 * remote[] is a shadow of a display that is never read back.
 */
module BufferedDisplays {
  import opened Words
  import opened RingBuffers
  import opened LcdDevice
  import opened Hd44780Lcds

  const SPACE: Byte := 0x20
  const QUESTION_MARK: Byte := 0x3f

  /** How often an eight-bit counter has wrapped after so many steps from zero. */
  function Wraps(steps: nat): nat {
    steps / 0x100
  }

  class BufferedDisplay {
    const lcd: Hd44780Lcd
    const width: nat
    const height: nat
    const local: array<Byte>
    const remote: array<Byte>
    var scanPosition: Byte
    var scanRow: Byte
    var scanColumn: Byte
    var scanPositionLastWrite: Byte
    var blink: Byte
    var previousBlinkCounter: Byte
    var cursorPosition: Byte
    var cursorCharacter: Byte
    var status: Byte
    ghost var sent: set<nat>  // positions transmitted since Init
    ghost var followed: nat   // the LCD driver's interrupts when its counter was last taken over
    ghost var missed: int     // wraps of that counter between the two looks that a Tick takes at it

    constructor (lcd: Hd44780Lcd)
      requires lcd.Valid() && 0 < lcd.width <= 40 && 0 < lcd.height <= 2
      requires lcd.height == 2 ==> lcd.Settled().twoLines
      ensures this.lcd == lcd && width == lcd.width && height == lcd.height
      ensures fresh(local) && fresh(remote) && Shaped()
    {
      this.lcd, width, height := lcd, lcd.width, lcd.height;
      local := new Byte[lcd.width * lcd.height + 1](_ => 0);
      remote := new Byte[lcd.width * lcd.height](_ => 0);
      scanPosition, scanRow, scanColumn, scanPositionLastWrite := 0, 0, 0, 0;
      blink, previousBlinkCounter, cursorPosition, cursorCharacter, status := 0, 0, 0, 0xff, 0;
      sent, followed, missed := {}, lcd.ticks - lcd.ticks % 0x100, 0;
      new;
      SizeFits();
    }

    /** The positions of the screen, of one or two lines. */
    function Size(): nat { if height == 2 then width + width else width }

    lemma {:induction false} SizeFits()
      requires 0 < width <= 40 && 0 < height <= 2
      ensures Size() == width * height
    {
    }

    /** Geometry, separateness of the parts, and the scan cursor. */
    ghost predicate Shaped()
      reads `scanPosition, `scanRow, `scanColumn, `previousBlinkCounter, `followed
      reads lcd, lcd.queue, lcd.queue.buffer
      ensures Shaped() ==> lcd.Valid()
    {
      && 0 < width <= 40 && 0 < height <= 2
      && local.Length == Size() + 1 && remote.Length == Size()
      && local != remote && local != lcd.queue.buffer && remote != lcd.queue.buffer
      && lcd.Valid() && (height == 2 ==> lcd.Settled().twoLines)
      && scanColumn < width && scanRow < height
      && scanPosition == scanColumn + (if scanRow == 0 then 0 else width)
      && Clocked()
    }

    /** The counter's last value taken over is that of an interrupt in the past. */
    ghost predicate Clocked()
      reads `previousBlinkCounter, `followed, lcd`ticks
    {
      previousBlinkCounter == followed % 0x100 && followed <= lcd.ticks
    }

    /** The controller's address of a screen position. */
    function Place(p: nat): nat {
      if p < width then p else 0x40 + (p - width)
    }

    /** A shadow that is true of a controller wherever something was transmitted, and untouched elsewhere. */
    ghost predicate Mirrors(d: Device, shadow: seq<Byte>, sent: set<nat>) {
      |shadow| == Size() && d.Valid() && forall p :: 0 <= p < Size() ==>
        if p in sent then Place(p) < 0x80 && d.ddram[Place(p)] == shadow[p] else shadow[p] == QUESTION_MARK
    }

    ghost predicate Mirrored()
      requires Shaped()
      reads `scanPosition, `scanRow, `scanColumn, `previousBlinkCounter, `followed, `sent, remote
      reads lcd, lcd.queue, lcd.queue.buffer
    {
      Mirrors(lcd.Settled(), remote[..], sent)
    }

    /** Position p has a next position on its line. */
    predicate Followed(p: nat) {
      p + 1 < Size() && p + 1 != width
    }

    /** Wherever Tick may leave out the cursor move, the controller's address follows the last character written. */
    ghost predicate Links(d: Device, last: Byte) {
      last != 255 ==> last < Size() && (Followed(last) ==> d.address == Place(last + 1))
    }

    ghost predicate Linked()
      requires Shaped()
      reads `scanPosition, `scanRow, `scanColumn, `previousBlinkCounter, `followed, `scanPositionLastWrite
      reads lcd, lcd.queue, lcd.queue.buffer
    {
      Links(lcd.Settled(), scanPositionLastWrite)
    }

    ghost predicate Valid()
      reads `scanPosition, `scanRow, `scanColumn, `previousBlinkCounter, `followed, `scanPositionLastWrite, `sent
      reads lcd, lcd.queue, lcd.queue.buffer, remote
      ensures Valid() ==> lcd.Valid()
    {
      Shaped() && Mirrored() && Linked()
    }

    method Clear()
      requires local.Length == Size() + 1
      modifies local
      ensures forall p :: 0 <= p < Size() ==> local[p] == SPACE
      ensures local[Size()] == old(local[Size()])
    {
      forall p | 0 <= p < Size() {
        local[p] := SPACE;
      }
    }

    method ClearPage()
      requires Valid()
      modifies local
      ensures Valid() && forall p :: 0 <= p < Size() ==> local[p] == SPACE
    {
      hide Feed, Window, PowerOfTwo, NextAddress;
      Clear();
    }

    method Init()
      requires 0 < width <= 40 && 0 < height <= 2
      requires local.Length == Size() + 1 && remote.Length == Size()
      requires local != remote && local != lcd.queue.buffer && remote != lcd.queue.buffer
      requires lcd.Valid() && (height == 2 ==> lcd.Settled().twoLines) && Clocked()
      modifies this, local, remote
      ensures Valid() && sent == {} && scanPosition == 0 && blink == 0 && cursorPosition == 255
      ensures status == old(status) && followed == old(followed) && missed == old(missed)
      ensures forall p :: 0 <= p < Size() ==> local[p] == SPACE && remote[p] == QUESTION_MARK
    {
      hide Hd44780Lcd.Valid, Hd44780Lcd.Settled, Hd44780Lcd.Writable, Mirrors, Links;
      Clear();
      forall p | 0 <= p < Size() {
        remote[p] := QUESTION_MARK;
      }
      scanPosition := 0;
      scanRow := 0;
      scanColumn := 0;
      scanPositionLastWrite := 255;
      cursorPosition := 255;
      blink := 0;
      sent := {};
      NothingSent(lcd.Settled(), remote[..]);
    }

    lemma {:induction false} NothingSent(d: Device, shadow: seq<Byte>)
      requires d.Valid() && |shadow| == Size() && forall p :: 0 <= p < |shadow| ==> shadow[p] == QUESTION_MARK
      ensures Mirrors(d, shadow, {}) && Links(d, 255)
    {
    }

    /** Copies text to a line, up to its end, its terminating zero or the line's width. */
    method Print(line: nat, text: seq<Byte>)
      requires Valid() && line < height
      modifies local
      ensures Valid()
      ensures ghost var n := TextLength(text, width);
        forall p :: 0 <= p < local.Length ==>
          local[p] == if line * width <= p < line * width + n then text[p - line * width] else old(local[p])
    {
      hide Feed, Window, PowerOfTwo;
      var row := width;
      var destination := line * width;
      var i := 0;
      while i < |text| && text[i] != 0 && row > 0
        invariant 0 <= i <= |text| && i + row == width && destination == line * width + i
        invariant TextLength(text, width) == i + TextLength(text[i..], row)
        invariant forall p :: 0 <= p < local.Length ==>
          local[p] == if line * width <= p < line * width + i then text[p - line * width] else old(local[p])
        decreases row
      {
        assert text[i..][1..] == text[i + 1..];
        local[destination] := text[i];
        destination := destination + 1;
        i := i + 1;
        row := row - 1;
      }
    }

    /** The characters that Print copies: up to a zero, and no more than there is room for. */
    function TextLength(text: seq<Byte>, room: nat): (n: nat)
      ensures n <= |text| && n <= room && (n == |text| || n == room || text[n] == 0)
      ensures forall i :: 0 <= i < n ==> text[i] != 0
    {
      if text == [] || text[0] == 0 || room == 0 then 0 else 1 + TextLength(text[1..], room - 1)
    }

    method SetCursorPosition(cursor: Byte)
      requires Shaped()
      modifies `cursorPosition
      ensures Shaped() && (old(Valid()) ==> Valid()) && cursorPosition == cursor
    {
      hide Feed, Window, PowerOfTwo;
      cursorPosition := cursor;
    }

    method SetCursorCharacter(character: Byte)
      requires Shaped()
      modifies `cursorCharacter
      ensures Shaped() && (old(Valid()) ==> Valid()) && cursorCharacter == character
    {
      hide Feed, Window, PowerOfTwo;
      cursorCharacter := character;
    }

    method SetStatus(newStatus: Byte)
      requires Shaped()
      modifies `status
      ensures Shaped() && (old(Valid()) ==> Valid()) && status == Wrap8(newStatus + 1)
    {
      hide Feed, Window, PowerOfTwo;
      status := Wrap8(newStatus + 1);
    }

    /** Is the cursor shown in this phase? */
    function Lit(phase: Byte): bool {
      phase / 2 % 2 == 1
    }

    /** It is shown for two phases and hidden for two, also where the phase wraps around. */
    lemma {:induction false} BlinkPeriod(phase: Byte)
      ensures Lit(Wrap8(phase + 2)) == !Lit(phase)
      ensures Lit(Wrap8(phase + 1)) != Lit(phase) ==> Lit(Wrap8(phase + 2)) == Lit(Wrap8(phase + 1))
    {
    }

    /** The character the page should show at a position: cursor, status indicator or text. */
    function Rendered(p: nat): Byte
      requires p < local.Length
      reads `cursorPosition, `cursorCharacter, `blink, `status, local
    {
      if p == cursorPosition && Lit(blink) then cursorCharacter
      else if status != 0 && (p == 0 || p == width - 1) && local[p] == SPACE then status - 1
      else local[p]
    }

    /** Where the next character goes: to the controller's own address when the cursor is not moved. */
    ghost function Target(): nat
      requires Shaped()
      reads this, lcd, lcd.queue, lcd.queue.buffer
    {
      TargetFrom(lcd.Settled().address)
    }

    function TargetFrom(address: nat): nat
      reads `scanPosition, `scanPositionLastWrite, `scanColumn
    {
      if scanPosition as int == scanPositionLastWrite as int + 1 && scanColumn > 0 then address else Place(scanPosition)
    }

    /** The controller after a character was stored at an address. */
    function StoredAt(d: Device, at: nat, character: Byte): Device
      requires d.Valid() && at < 0x80
    {
      d.(ddram := d.ddram[at := character], address := NextAddress(at, d.twoLines))
    }

    /** Queues one character for the scan position, moving the cursor only where it must. */
    method SendCharacter(character: Byte)
      requires Shaped() && lcd.Writable() >= 4
      modifies lcd, lcd.queue, lcd.queue.buffer
      ensures Shaped() && old(Target()) < 0x80
      ensures lcd.Settled() == StoredAt(old(lcd.Settled()), old(Target()), character)
    {
      hide Feed, Window, PowerOfTwo, Execute;
      ghost var before := lcd.Settled();
      ScanPlace();
      WriteEffect(before.(address := Target()), character);
      if scanPosition as int == scanPositionLastWrite as int + 1 && scanColumn > 0 {
        assert before.(address := Target()) == before;
        var done := lcd.WriteData(character);
      } else {
        lcd.MoveCursor(scanRow, scanColumn);
        lcd.Interrupts();
        var done := lcd.WriteData(character);
      }
    }

    /** A character that differs from the shadow is sent, and the shadow and link updated. */
    method Transmit(character: Byte)
      requires Shaped() && lcd.Writable() >= 4
      modifies `scanPositionLastWrite, `sent, remote, lcd, lcd.queue, lcd.queue.buffer
      ensures Shaped() && (old(Valid()) ==> Valid()) && old(Target()) < 0x80
      ensures lcd.Settled() == StoredAt(old(lcd.Settled()), old(Target()), character)
      ensures scanPositionLastWrite == scanPosition
      ensures remote[scanPosition] == character
      ensures forall p :: 0 <= p < Size() && p != scanPosition ==> remote[p] == old(remote[p])
      ensures sent == old(sent) + {scanPosition as int}
    {
      hide Feed, Window, PowerOfTwo, NextAddress, Mirrors, Links, StoredAt, Execute;
      StoreKeeps(lcd.Settled(), remote[..], sent, scanPosition, character);
      ScanPlace();
      if Linked() {
        Elision();
      }
      SendCharacter(character);
      remote[scanPosition] := character;
      scanPositionLastWrite := scanPosition;
      sent := sent + {scanPosition as int};
    }

    /** A character stored in its place, with the shadow and the record of positions brought up to date. */
    lemma {:induction false} StoreKeeps(d: Device, shadow: seq<Byte>, sent: set<nat>, p: Byte, c: Byte)
      requires 0 < width <= 40 && 0 < height <= 2 && (height == 2 ==> d.twoLines)
      requires d.Valid() && p < Size() && |shadow| == Size()
      ensures Place(p) < 0x80
      ensures Mirrors(d, shadow, sent) ==>
        Mirrors(StoredAt(d, Place(p), c), shadow[p as int := c], sent + {p as int})
      ensures Links(StoredAt(d, Place(p), c), p)
    {
      PlacesDiffer();
      NextPlace(d.twoLines);
      hide NextAddress, Place;
    }

    /** Along a line the controller moves on as the positions do. */
    lemma {:induction false} NextPlace(twoLines: bool)
      requires 0 < width <= 40 && 0 < height <= 2 && (height == 2 ==> twoLines)
      ensures forall p: nat :: Followed(p) ==> NextAddress(Place(p), twoLines) == Place(p + 1)
    {
    }

    lemma {:induction false} ScanInside()
      requires Shaped()
      ensures scanPosition < Size() == remote.Length && local.Length == remote.Length + 1 && local != remote
      ensures local != lcd.queue.buffer && remote != lcd.queue.buffer
    {
      hide Hd44780Lcd.Valid, Hd44780Lcd.Settled;
    }

    lemma {:induction false} ScanPlace()
      requires Shaped()
      ensures Place(scanPosition) == scanColumn + 0x40 * scanRow < 0x80
    {
      hide Feed, Window, PowerOfTwo;
    }

    lemma {:induction false} WriteEffect(d: Device, character: Byte)
      requires d.Valid()
      ensures Execute(d, true, character)
        == d.(ddram := d.ddram[d.address := character], address := NextAddress(d.address, d.twoLines))
    {
    }

    /** Why the cursor need not be moved: the controller already points where we want it. */
    lemma {:induction false} Elision()
      requires Shaped() && Linked()
      ensures Target() == Place(scanPosition)
    {
      hide Feed, Window, PowerOfTwo;
    }

    /** The wraps of the LCD driver's counter that Ticks have seen. */
    ghost function Turns(): int
      reads `followed, `missed
    {
      Wraps(followed) - missed
    }

    /** Fewer than 256 interrupts have passed since the counter was last looked at. */
    ghost predicate Timely()
      reads `followed, lcd`ticks
    {
      lcd.ticks < followed + 0x100
    }

    /** Follows the LCD driver's tick counter; on its wrap-around the blink phase moves and the status goes out. */
    method FollowBlink()
      requires Shaped()
      modifies `blink, `status, `previousBlinkCounter, `followed, `missed, lcd, lcd.queue
      ensures Shaped() && (old(Valid()) ==> Valid())
      ensures lcd.Settled() == old(lcd.Settled()) && lcd.Writable() >= old(lcd.Writable())
      ensures BlinkFollowed()
    {
      hide Shaped, Valid, Wraps, Wrap8, Hd44780Lcd.Valid, Hd44780Lcd.Settled, Hd44780Lcd.Writable;
      hide PowerOfTwo, Feed, Window;
      MoveOn(previousBlinkCounter > lcd.blinkCounter);
      assert Shaped() && (old(Valid()) ==> Valid());
      assert lcd.Settled() == old(lcd.Settled()) && lcd.Writable() == old(lcd.Writable());
      TakeOver();
    }

    method MoveOn(turned: bool)
      modifies `blink, `status
      ensures blink == Wrap8(old(blink) + if turned then 1 else 0) && status == if turned then 0 else old(status)
    {
      if turned {
        blink := Wrap8(blink + 1);
        status := 0;
      }
    }

    /** The second look at the counter, with interrupts since the first. */
    method TakeOver()
      requires Shaped()
      modifies `previousBlinkCounter, `followed, `missed, lcd, lcd.queue
      ensures Shaped() && (old(Valid()) ==> Valid())
      ensures lcd.Settled() == old(lcd.Settled()) && lcd.Writable() >= old(lcd.Writable())
      ensures old(lcd.ticks) <= followed <= lcd.ticks
      ensures missed == old(missed) + (Wraps(followed) - Wraps(old(lcd.ticks)))
    {
      hide Mirrors, Links, Shaped, Valid, Wraps, Hd44780Lcd.Valid, Hd44780Lcd.Settled, Hd44780Lcd.Writable;
      hide PowerOfTwo, Feed, Window;
      ghost var looked := lcd.ticks;
      LcdInterrupts();
      TakeCounter();
      missed := missed + (Wraps(followed) - Wraps(looked));
    }

    method TakeCounter()
      requires Shaped()
      modifies `previousBlinkCounter, `followed
      ensures Shaped() && (old(Valid()) ==> Valid()) && followed == lcd.ticks
    {
      hide Mirrors, Links, Size, Hd44780Lcd.Valid, Hd44780Lcd.Settled, Hd44780Lcd.Writable;
      hide PowerOfTwo, Feed, Window;
      previousBlinkCounter := lcd.blinkCounter;
      followed := lcd.ticks;
    }

    /**
     * Exactly when the counter is found below where it was left, the phase moves on and the
     * status goes out. The counter is then taken over; wraps since it was looked at are missed.
     */
    twostate predicate BlinkFollowed()
      reads this, lcd`ticks
    {
      var turned := old(previousBlinkCounter) > old(lcd.blinkCounter);
      && blink == Wrap8(old(blink) + if turned then 1 else 0)
      && status == (if turned then 0 else old(status))
      && old(lcd.ticks) <= followed <= lcd.ticks
      && missed == old(missed) + (Wraps(followed) - Wraps(old(lcd.ticks)))
    }

    /** A call that has nothing to do with blinking. */
    twostate predicate BlinkKept()
      reads this
    {
      blink == old(blink) && previousBlinkCounter == old(previousBlinkCounter)
      && followed == old(followed) && missed == old(missed)
    }

    method ChooseCharacter() returns (character: Byte)
      requires Shaped()
      ensures character == Rendered(scanPosition)
    {
      ScanInside();
      hide Shaped, Size;
      if scanPosition == cursorPosition && Lit(blink) {
        character := cursorCharacter;
      } else {
        if status != 0 && (scanPosition == 0 || scanPosition == width - 1) && local[scanPosition] == SPACE {
          character := status - 1;
        } else {
          character := local[scanPosition];
        }
      }
    }

    method AdvanceScan()
      requires Shaped()
      modifies `scanColumn, `scanRow, `scanPosition
      ensures Shaped() && (old(Valid()) ==> Valid())
      ensures scanPosition == if old(scanPosition) + 1 == Size() then 0 else old(scanPosition) + 1
    {
      hide Feed, Window, PowerOfTwo, NextAddress;
      scanColumn := scanColumn + 1;
      scanPosition := scanPosition + 1;
      if scanColumn == width {
        scanColumn := 0;
        scanRow := scanRow + 1;
        if scanRow == height {
          scanRow := 0;
          scanPosition := 0;
        }
      }
    }

    /** Sends what the page should show at the scan position, if the shadow differs. */
    method Refresh()
      requires Shaped() && lcd.Writable() >= 4
      modifies `scanPositionLastWrite, `sent, remote, lcd, lcd.queue, lcd.queue.buffer
      ensures Shaped() && (old(Valid()) ==> Valid())
      ensures old(sent) <= sent <= old(sent) + {scanPosition as int}
      ensures remote[scanPosition] == Rendered(scanPosition)
      ensures forall p :: 0 <= p < Size() && p != scanPosition ==> remote[p] == old(remote[p])
      ensures if remote[scanPosition] == old(remote[scanPosition]) then
          lcd.Settled() == old(lcd.Settled()) && scanPositionLastWrite == old(scanPositionLastWrite)
        else
          && old(Target()) < 0x80 && scanPosition as int in sent
          && lcd.Settled() == StoredAt(old(lcd.Settled()), old(Target()), remote[scanPosition])
    {
      ScanInside();
      hide Shaped, Mirrored, Linked, StoredAt, Size, Target, Rendered;
      var character := ChooseCharacter();
      if character != remote[scanPosition] {
        Transmit(character);
      }
    }

    /** Blinks, and brings the scan position up to date. */
    method Examine()
      requires Shaped() && lcd.Writable() >= 4
      modifies `blink, `status, `previousBlinkCounter, `followed, `missed, `scanPositionLastWrite, `sent, remote
      modifies lcd, lcd.queue, lcd.queue.buffer
      ensures Shaped() && (old(Valid()) ==> Valid())
      ensures old(sent) <= sent <= old(sent) + {scanPosition as int}
      ensures BlinkFollowed()
      ensures remote[scanPosition] == Rendered(scanPosition)
      ensures forall p :: 0 <= p < Size() && p != scanPosition ==> remote[p] == old(remote[p])
      ensures if remote[scanPosition] == old(remote[scanPosition]) then
          lcd.Settled() == old(lcd.Settled()) && scanPositionLastWrite == old(scanPositionLastWrite)
        else
          && old(Target()) < 0x80 && scanPosition as int in sent
          && lcd.Settled() == StoredAt(old(lcd.Settled()), old(Target()), remote[scanPosition])
    {
      ScanInside();
      hide Shaped, Mirrored, Linked, Hd44780Lcd.Valid, Hd44780Lcd.Settled, StoredAt, Size, Rendered, TargetFrom;
      FollowBlink();
      Refresh();
    }

    /** The background process: examines one position, sends it if the shadow differs, moves on. */
    method Tick()
      requires Shaped()
      modifies this, remote, lcd, lcd.queue, lcd.queue.buffer
      ensures Shaped() && (old(Valid()) ==> Valid())
      ensures cursorPosition == old(cursorPosition) && cursorCharacter == old(cursorCharacter)
      ensures old(sent) <= sent <= old(sent) + {old(scanPosition) as int}
      ensures old(lcd.Writable()) < 4 ==>
        && scanPosition == old(scanPosition) && blink == old(blink) && status == old(status)
        && remote[..] == old(remote[..]) && lcd.Settled() == old(lcd.Settled()) && BlinkKept()
      ensures old(lcd.Writable()) >= 4 ==>
        && BlinkFollowed()
        && scanPosition == (if old(scanPosition) + 1 == Size() then 0 else old(scanPosition) + 1)
        && remote[old(scanPosition)] == Rendered(old(scanPosition))
        && (forall p :: 0 <= p < Size() && p != old(scanPosition) ==> remote[p] == old(remote[p]))
        && (if remote[old(scanPosition)] == old(remote[scanPosition]) then
              lcd.Settled() == old(lcd.Settled()) && scanPositionLastWrite == old(scanPositionLastWrite)
            else
              && old(Target()) < 0x80 && old(scanPosition) as int in sent
              && lcd.Settled() == StoredAt(old(lcd.Settled()), old(Target()), remote[old(scanPosition)]))
    {
      ScanInside();
      hide Shaped, Mirrored, Linked, Hd44780Lcd.Valid, Hd44780Lcd.Settled, StoredAt, Size, Rendered, Target;
      if lcd.Writable() < 4 {
        return;
      }
      Examine();
      AdvanceScan();
    }

    /** ForceStatus leaves no trap behind when no later Tick can leave out a cursor move because of the last write. */
    predicate Harmless()
      reads `scanPositionLastWrite
    {
      scanPositionLastWrite == 255 || scanPositionLastWrite == 0 || !Followed(scanPositionLastWrite)
    }

    /**
     * Shows a status at once, at the first position. The shadow stays true, and it stays so
     * for good exactly when the last character written was at the first position, at the end
     * of a line, or nowhere.
     */
    method ForceStatus(newStatus: Byte)
      requires Valid()
      modifies `status, `scanPosition, `scanRow, `scanColumn, `sent, remote, lcd.queue, lcd.queue.buffer
      ensures Shaped() && Mirrored() && scanPositionLastWrite == old(scanPositionLastWrite)
      ensures old(lcd.Writable()) < 4 ==> Valid() && status == old(status)
      ensures old(lcd.Writable()) >= 4 ==>
        && scanPosition == 0 && remote[..] == old(remote[..])[0 := newStatus] && status == Wrap8(newStatus + 1)
        && lcd.Settled() == StoredAt(old(lcd.Settled()), 0, newStatus)
        && (Linked() <==> Harmless())
    {
      hide Mirrors, Links, StoredAt, NextAddress, Followed, Hd44780Lcd.Valid, Hd44780Lcd.Settled, Hd44780Lcd.Writable;
      hide PowerOfTwo, Feed, Window;
      if lcd.Writable() < 4 {
        return;
      }
      ForcedLink(lcd.Settled(), newStatus, scanPositionLastWrite);
      status := Wrap8(newStatus + 1);
      BackAgain(newStatus);
      ForceFirst(Wrap8(status - 1));
    }

    /** A character shown at the first position at once, where the scan then goes on. */
    method ForceFirst(character: Byte)
      requires Valid() && lcd.Writable() >= 4
      modifies `scanPosition, `scanRow, `scanColumn, `sent, remote, lcd.queue, lcd.queue.buffer
      ensures Shaped() && Mirrored()
      ensures scanPosition == 0 && remote[..] == old(remote[..])[0 := character]
      ensures lcd.Settled() == StoredAt(old(lcd.Settled()), 0, character)
    {
      hide Mirrors, Links, StoredAt, NextAddress, Hd44780Lcd.Valid, Hd44780Lcd.Settled, Hd44780Lcd.Writable;
      hide PowerOfTwo, Feed, Window;
      StoreKeeps(lcd.Settled(), remote[..], sent, 0, character);
      scanPosition := 0;
      scanRow := 0;
      scanColumn := 0;
      SendFirst(character);
      remote[scanPosition] := character;
      sent := sent + {0};
    }

    lemma {:induction false} BackAgain(x: Byte)
      ensures Wrap8(Wrap8(x + 1) - 1) == x
    {
    }

    /** A character sent to the first position, cursor move and all. */
    method SendFirst(character: Byte)
      requires Shaped() && lcd.Writable() >= 4
      modifies lcd.queue`writePtr, lcd.queue.buffer
      ensures Shaped() && lcd.Settled() == StoredAt(old(lcd.Settled()), 0, character)
    {
      hide Feed, Window, PowerOfTwo, Execute, NextAddress;
      WriteEffect(lcd.Settled().(address := 0), character);
      lcd.MoveCursor(0, 0);
      var done := lcd.WriteData(character);
    }

    /** After a character at the first position the controller points at the second. */
    lemma {:induction false} ForcedLink(d: Device, c: Byte, last: Byte)
      requires 0 < width <= 40 && 0 < height <= 2 && (height == 2 ==> d.twoLines)
      requires d.Valid() && Links(d, last)
      ensures Links(StoredAt(d, 0, c), last) <==> last == 255 || last == 0 || !Followed(last)
    {
      PlacesDiffer();
      NextPlace(d.twoLines);
      hide NextAddress;
      if width == 1 {
        assert last != 255 ==> !Followed(last);
      } else {
        assert Followed(0);
      }
    }

    /** No two positions of the screen share an address. */
    lemma {:induction false} PlacesDiffer()
      requires 0 < width <= 40 && 0 < height <= 2
      ensures forall p: nat, q: nat :: p < Size() && q < Size() ==> (Place(p) == Place(q) <==> p == q)
    {
    }

    /** Lets the LCD driver empty its queue. */
    method Drain()
      requires Valid()
      modifies lcd, lcd.queue
      ensures Valid() && lcd.queue.Contents() == [] && !lcd.Busy()
      ensures lcd.device == old(lcd.Settled()) == lcd.Settled()
    {
      hide Window, PowerOfTwo, NextAddress;
      lcd.Flush();
      assert lcd.InFlight() + lcd.queue.Contents() == [];
    }

    /** Timer interrupts of the LCD driver between calls to the display. */
    method LcdInterrupts()
      requires Shaped()
      modifies lcd, lcd.queue
      ensures Shaped() && (old(Valid()) ==> Valid())
      ensures lcd.Settled() == old(lcd.Settled()) && lcd.Writable() >= old(lcd.Writable())
      ensures lcd.ticks >= old(lcd.ticks)
    {
      hide Mirrors, Links, Size, Hd44780Lcd.Valid, Hd44780Lcd.Settled, Hd44780Lcd.Writable;
      hide PowerOfTwo, Feed, Window;
      lcd.Interrupts();
      assert remote[..] == old(remote[..]);
    }
  }

  // ------------------------------------------------------------------ whole runs

  datatype Call =
    | CallInit
    | CallPrint(line: nat, text: seq<Byte>)
    | CallClear
    | CallCursorPosition(cursor: Byte)
    | CallCursorCharacter(character: Byte)
    | CallStatus(status: Byte)
    | CallForceStatus(status: Byte)  // made only where it is harmless
    | CallTick
    | LcdTicks

  method Perform(d: BufferedDisplay, call: Call)
    requires d.Valid() && (call.CallPrint? ==> call.line < d.height)
    modifies d, d.local, d.remote, d.lcd, d.lcd.queue, d.lcd.queue.buffer
    ensures d.Valid()
    ensures if call.CallTick? && old(d.lcd.Writable()) >= 4 then d.BlinkFollowed()
      else (!call.CallInit? ==> d.BlinkKept()) && (SetsStatus(call) || d.status == old(d.status))
  {
    hide BufferedDisplay.Mirrored, BufferedDisplay.Linked, Hd44780Lcd.Valid, Hd44780Lcd.Settled;
    hide BufferedDisplay.BlinkFollowed, BufferedDisplay.Target, BufferedDisplay.StoredAt;
    match call {
      case CallInit => d.Init();
      case CallPrint(line, text) => d.Print(line, text);
      case CallClear => d.ClearPage();
      case CallCursorPosition(cursor) => d.SetCursorPosition(cursor);
      case CallCursorCharacter(character) => d.SetCursorCharacter(character);
      case CallStatus(status) => d.SetStatus(status);
      case CallForceStatus(status) => ForceWhereHarmless(d, status);
      case CallTick => d.Tick();
      case LcdTicks => d.LcdInterrupts();
    }
  }

  predicate SetsStatus(call: Call) {
    call.CallStatus? || call.CallForceStatus?
  }

  method ForceWhereHarmless(d: BufferedDisplay, status: Byte)
    requires d.Valid()
    modifies d`status, d`scanPosition, d`scanRow, d`scanColumn, d`sent, d.remote, d.lcd.queue, d.lcd.queue.buffer
    ensures d.Valid()
  {
    hide BufferedDisplay.Mirrors, BufferedDisplay.Links, Hd44780Lcd.Valid, Hd44780Lcd.Settled, NextAddress;
    hide BufferedDisplay.StoredAt;
    if d.Harmless() {
      d.ForceStatus(status);
    }
  }

  /**
   * After any run of calls and interrupts, and once the queue has drained, the controller's
   * memory shows the shadow at every position transmitted since Init; elsewhere the shadow
   * still holds its question mark.
   */
  method DisplayMirror(d: BufferedDisplay, script: seq<Call>)
    requires d.Valid() && forall c :: c in script && c.CallPrint? ==> c.line < d.height
    modifies d, d.local, d.remote, d.lcd, d.lcd.queue, d.lcd.queue.buffer
    ensures d.Valid() && d.lcd.queue.Contents() == [] && !d.lcd.Busy()
    ensures forall p :: 0 <= p < d.Size() ==>
      if p in d.sent then d.Place(p) < 0x80 && d.lcd.device.ddram[d.Place(p)] == d.remote[p]
      else d.remote[p] == QUESTION_MARK
  {
    hide BufferedDisplay.Linked, Hd44780Lcd.Valid, Hd44780Lcd.Settled;
    for i := 0 to |script|
      invariant d.Valid()
    {
      Perform(d, script[i]);
    }
    d.Drain();
  }

  /**
   * After any run of calls and interrupts since Init in which every Tick that finds room comes
   * within 256 interrupts of the one before, the blink phase has moved on once for every wrap
   * of the LCD driver's counter seen, that is all but those between the two looks a Tick takes
   * at the counter. The status stands until the first of them and is out from then on.
   */
  method DisplayBlink(d: BufferedDisplay, script: seq<Call>) returns (ghost timely: bool)
    requires d.Valid() && forall c :: c in script ==> !c.CallInit? && (c.CallPrint? ==> c.line < d.height)
    modifies d, d.local, d.remote, d.lcd, d.lcd.queue, d.lcd.queue.buffer
    ensures d.Valid()
    ensures timely ==>
      && d.Turns() >= old(d.Turns()) && d.blink == Wrap8(old(d.blink) + d.Turns() - old(d.Turns()))
      && ((forall c :: c in script ==> !SetsStatus(c)) ==>
            d.status == if d.Turns() == old(d.Turns()) then old(d.status) else 0)
  {
    hide BufferedDisplay.Mirrored, BufferedDisplay.Linked, Hd44780Lcd.Valid, Hd44780Lcd.Settled;
    hide BufferedDisplay.Valid, SetsStatus, BufferedDisplay.Turns;
    timely := true;
    ghost var quiet := forall c :: c in script ==> !SetsStatus(c);
    ghost var blink, turns, status := d.blink, d.Turns(), d.status;
    for i := 0 to |script|
      invariant d.Valid()
      invariant timely ==> Blinks(blink, turns, status, quiet, d.blink, d.Turns(), d.status)
    {
      timely := timely && (script[i].CallTick? && d.lcd.Writable() >= 4 ==> d.Timely());
      Watched(d, script[i], quiet, timely, blink, turns, status);
    }
  }

  /** One call of such a run. */
  method Watched(
      d: BufferedDisplay, call: Call, ghost quiet: bool, ghost timely: bool,
      ghost blink: Byte, ghost turns: int, ghost status: Byte)
    requires d.Valid() && !call.CallInit? && (call.CallPrint? ==> call.line < d.height)
    requires timely ==> Blinks(blink, turns, status, quiet, d.blink, d.Turns(), d.status)
    requires timely && call.CallTick? && d.lcd.Writable() >= 4 ==> d.Timely()
    requires quiet ==> !SetsStatus(call)
    modifies d, d.local, d.remote, d.lcd, d.lcd.queue, d.lcd.queue.buffer
    ensures d.Valid()
    ensures timely ==> Blinks(blink, turns, status, quiet, d.blink, d.Turns(), d.status)
  {
    hide BufferedDisplay.Mirrored, BufferedDisplay.Linked, Hd44780Lcd.Valid, Hd44780Lcd.Settled, SetsStatus;
    WrapSeen(d.followed, d.lcd.ticks);
    Perform(d, call);
  }

  /** Between two times less than 256 apart the counter falls if and only if it wraps, and then once. */
  lemma {:induction false} WrapSeen(before: nat, now: nat)
    requires before <= now
    ensures Wraps(before) <= Wraps(now)
    ensures now < before + 0x100 ==>
      && (before % 0x100 > now % 0x100 <==> Wraps(before) < Wraps(now))
      && Wraps(now) <= Wraps(before) + 1
  {
  }

  /** Phase and status some turns after they were taken down. */
  ghost predicate Blinks(
      blink: Byte, turns: int, status: Byte, quiet: bool, blinkNow: Byte, turnsNow: int, statusNow: Byte)
  {
    && turnsNow >= turns && blinkNow == Wrap8(blink + turnsNow - turns)
    && (quiet ==> statusNow == if turnsNow == turns then status else 0)
  }

  /**
   * One full scan. If every tick of it found room in the queue, and neither the blink phase
   * nor the status changed under way, the shadow equals the rendered page everywhere.
   */
  method DisplayConvergence(d: BufferedDisplay) returns (steady: bool)
    requires d.Valid()
    modifies d, d.remote, d.lcd, d.lcd.queue, d.lcd.queue.buffer
    ensures d.Valid()
    ensures steady ==> forall p :: 0 <= p < d.Size() ==> d.remote[p] == d.Rendered(p)
    ensures steady ==> forall p :: 0 <= p < d.Size() ==>
      var cursorShown := p == d.cursorPosition as int && d.blink % 4 in {2, 3};
      var statusShown := d.status != 0 && p in {0, d.width - 1} && d.local[p] == 0x20;
      && (cursorShown ==> d.remote[p] == d.cursorCharacter)
      && (!cursorShown && statusShown ==> d.remote[p] as int == d.status - 1)
      && (!cursorShown && !statusShown ==> d.remote[p] == d.local[p])
  {
    hide BufferedDisplay.Mirrored, BufferedDisplay.Linked, Hd44780Lcd.Valid, Hd44780Lcd.Settled;
    steady := true;
    ghost var start, n := d.scanPosition as int, d.Size();
    for k := 0 to d.Size()
      invariant d.Valid()
      invariant steady ==> d.scanPosition as int == if start + k < n then start + k else start + k - n
      invariant steady ==> forall p :: 0 <= p < n && (start <= p < start + k || p + n < start + k) ==>
        d.remote[p] == d.Rendered(p)
    {
      var blink, status := d.blink, d.status;
      steady := steady && d.lcd.Writable() >= 4;
      d.Tick();
      steady := steady && d.blink == blink && d.status == status;
      d.LcdInterrupts();
    }
  }

  // ------------------------------------------------------------- ForceStatus abused

  /**
   * Why ForceStatus must not be called elsewhere: from every such state a few more calls make
   * the shadow false. The page is made to agree with the shadow but for the position after the
   * last character written before; the character there then goes to the wrong place.
   */
  method ForcedMisplacement(d: BufferedDisplay, newStatus: Byte)
    requires d.Valid() && d.lcd.Writable() >= 4 && !d.Harmless()
    modifies d, d.local, d.remote, d.lcd, d.lcd.queue, d.lcd.queue.buffer
    ensures d.Shaped() && !d.Mirrored()
  {
    hide BufferedDisplay.Mirrors, BufferedDisplay.Links, Hd44780Lcd.Valid, Hd44780Lcd.Settled, NextAddress;
    hide BufferedDisplay.StoredAt, BufferedDisplay.Place, BufferedDisplay.Target, BufferedDisplay.Rendered, Prepared;
    LastOnScreen(d);
    var at := d.scanPositionLastWrite as nat + 1;
    ForcedAddress(d, d.lcd.Settled(), newStatus, at);
    d.ForceStatus(newStatus);
    d.SetStatus(255);
    d.SetCursorPosition(255);
    d.lcd.Flush();
    PreparePage(d, at);
    ghost var settled := d.lcd.Settled();
    for p := 0 to at
      invariant d.Shaped() && d.scanPosition as nat == p && d.scanPositionLastWrite as nat + 1 == at
      invariant d.lcd.Settled() == settled && d.status == 0 && d.cursorPosition == 255
      invariant Prepared(d, at)
    {
      QuietTick(d, at);
    }
    LostCharacter(d, at);
  }

  /** The last character was written on the screen. */
  lemma {:induction false} LastOnScreen(d: BufferedDisplay)
    requires d.Valid() && d.scanPositionLastWrite != 255
    ensures d.scanPositionLastWrite as nat < d.Size() <= 80
  {
    hide Feed, Window, PowerOfTwo, NextAddress;
  }

  /** Where the controller points after a forced status, and that no other position from 2 on is there. */
  lemma {:induction false} ForcedAddress(d: BufferedDisplay, settled: Device, c: Byte, at: nat)
    requires 0 < d.width <= 40 && 0 < d.height <= 2 && (d.height == 2 ==> settled.twoLines)
    requires settled.Valid() && 1 < at < d.Size() && at != d.width
    ensures d.StoredAt(settled, 0, c).address != d.Place(at)
  {
    d.PlacesDiffer();
    d.NextPlace(settled.twoLines);
    hide NextAddress;
    assert d.Followed(0);
  }

  /** The page agrees with the shadow everywhere but at one position, where the display shows neither. */
  ghost predicate Prepared(d: BufferedDisplay, at: nat)
    requires d.Shaped()
    reads d, d.lcd, d.lcd.queue, d.lcd.queue.buffer, d.local, d.remote
  {
    && at < d.Size() && d.Place(at) < 0x80
    && (forall q :: 0 <= q < d.Size() && q != at ==> d.local[q] == d.remote[q])
    && d.local[at] != d.remote[at] && d.local[at] != d.lcd.Settled().ddram[d.Place(at)]
  }

  /** What a user writes into the page when the display is up to date. */
  method PreparePage(d: BufferedDisplay, at: nat)
    requires d.Shaped() && at < d.Size() && d.lcd.device == d.lcd.Settled()
    modifies d.local
    ensures d.Shaped() && Prepared(d, at)
  {
    hide Feed, Window, PowerOfTwo, Hd44780Lcd.Settled;
    var shown := d.lcd.device.ddram[d.Place(at)];
    var before := d.remote[at];
    var c: Byte := if before != 0 && shown != 0 then 0 else if before != 1 && shown != 1 then 1 else 2;
    forall q | 0 <= q < d.Size() {
      d.local[q] := if q == at then c else d.remote[q];
    }
  }

  /** A Tick at a position that agrees with the shadow changes nothing but the scan position. */
  method QuietTick(d: BufferedDisplay, at: nat)
    requires d.Shaped() && Prepared(d, at) && d.scanPosition as nat < at
    requires d.status == 0 && d.cursorPosition == 255
    modifies d, d.remote, d.lcd, d.lcd.queue, d.lcd.queue.buffer
    ensures d.Shaped() && Prepared(d, at) && d.scanPosition == old(d.scanPosition) + 1
    ensures d.status == 0 && d.cursorPosition == 255 && d.scanPositionLastWrite == old(d.scanPositionLastWrite)
    ensures d.lcd.Settled() == old(d.lcd.Settled())
  {
    hide BufferedDisplay.Mirrors, BufferedDisplay.Links, Hd44780Lcd.Valid, Hd44780Lcd.Settled, NextAddress;
    hide BufferedDisplay.StoredAt, BufferedDisplay.Place, BufferedDisplay.Target;
    d.lcd.Flush();
    d.Tick();
  }

  /** A Tick that leaves out the cursor move while the controller points elsewhere. */
  method LostCharacter(d: BufferedDisplay, at: nat)
    requires d.Shaped() && Prepared(d, at) && d.scanPosition as nat == at > 0 && at != d.width
    requires d.scanPositionLastWrite as nat + 1 == at
    requires d.status == 0 && d.cursorPosition == 255 && d.lcd.Settled().address != d.Place(at)
    modifies d, d.remote, d.lcd, d.lcd.queue, d.lcd.queue.buffer
    ensures d.Shaped() && !d.Mirrored()
  {
    hide BufferedDisplay.Links, Hd44780Lcd.Valid, Hd44780Lcd.Settled, NextAddress, BufferedDisplay.Place;
    d.lcd.Flush();
    d.Tick();
    assert d.remote[..][at] == d.remote[at];
  }
}
