/**
 * Properties of the console line buffer that relate several operations:
 * add/delete round trip, the NUL-terminated-line invariant over any key
 * sequence, and what a flush hands to the network code.
 */
module ConsoleUtilProps {
  import opened Types
  import opened ConsoleUtil

  /**
   * A successful `addchar` undone by `delchar` restores the length and the
   * text; of the whole array only the cell after the old NUL differs, and it
   * now holds a NUL.
   */
  lemma AddCharThenDelChar(b: ConsoleBuffer, key: SChar)
    requires Valid(b)
    requires AddChar(b, key).ok
    ensures var d := DelChar(AddChar(b, key).console);
            && d.ok
            && d.console.length == b.length
            && Text(d.console) == Text(b)
            && d.console.buffer == b.buffer[b.length + 1 := NUL]
  {
    var a := AddChar(b, key).console;
    var d := DelChar(a).console;
    assert d.buffer == b.buffer[b.length := key][b.length + 1 := NUL][b.length := NUL];
  }

  /** A queued line: NUL-terminated and free of NULs, as a C string. */
  predicate Line(b: ConsoleBuffer) {
    Valid(b) && forall i :: 0 <= i < b.length ==> b.buffer[i] != NUL
  }

  /** Each key handled by `processAndQueueInput` keeps the buffer a C string line. */
  lemma KeyPreservesLine(b: ConsoleBuffer, key: SChar)
    requires Line(b)
    ensures Line(ProcessAndQueueInput(b, key).console)
  {
    var r := ProcessAndQueueInput(b, key).console;
    if key >= 0x20 && key != 0x7F && b.length < CONSOLE_MAX_INPUT - 1 {
      assert Text(r) == Text(b) + [key];
      forall i | 0 <= i < r.length
        ensures r.buffer[i] != NUL
      {
        assert r.buffer[i] == Text(r)[i];
      }
    } else if key == 0x08 && b.length > 0 {
      forall i | 0 <= i < r.length
        ensures r.buffer[i] != NUL
      {
        assert r.buffer[i] == Text(r)[i] == Text(b)[i];
      }
    }
  }

  /** The buffer after the user types `keys`, one `processAndQueueInput` each. */
  function TypeKeys(b: ConsoleBuffer, keys: seq<SChar>): (r: ConsoleBuffer)
    requires Sized(b)
    ensures Sized(r)
    decreases |keys|
  {
    if |keys| == 0 then b
    else TypeKeys(ProcessAndQueueInput(b, keys[0]).console, keys[1..])
  }

  /** The zero-initialised buffer is an empty line. */
  lemma InitialIsLine()
    ensures Line(Initial) && Text(Initial) == []
  {
  }

  /** Whatever keys arrive, the buffer stays a NUL-terminated line of at most 63 characters. */
  lemma {:induction false} TypingPreservesLine(b: ConsoleBuffer, keys: seq<SChar>)
    requires Line(b)
    ensures Line(TypeKeys(b, keys))
    ensures TypeKeys(b, keys).length <= CONSOLE_MAX_INPUT - 1
    decreases |keys|
  {
    if |keys| > 0 {
      KeyPreservesLine(b, keys[0]);
      TypingPreservesLine(ProcessAndQueueInput(b, keys[0]).console, keys[1..]);
    }
  }

  /** Keys that are queued as typed: from space up, except DEL. */
  predicate Printable(key: SChar) {
    0x20 <= key && key != 0x7F
  }

  /** Printable keys that fit are appended in order, one per key. */
  lemma {:induction false} TypingPrintableAppends(b: ConsoleBuffer, keys: seq<SChar>)
    requires Sized(b)
    requires forall i :: 0 <= i < |keys| ==> Printable(keys[i])
    requires b.length + |keys| <= CONSOLE_MAX_INPUT - 1
    ensures Text(TypeKeys(b, keys)) == Text(b) + keys
    decreases |keys|
  {
    if |keys| > 0 {
      var b' := ProcessAndQueueInput(b, keys[0]).console;
      assert Text(b') == Text(b) + [keys[0]];
      TypingPrintableAppends(b', keys[1..]);
      assert keys == [keys[0]] + keys[1..];
    }
  }

  /** Printable keys typed past the 63rd character are dropped. */
  lemma {:induction false} TypingPastCapacityIsDropped(b: ConsoleBuffer, keys: seq<SChar>)
    requires Sized(b) && b.length >= CONSOLE_MAX_INPUT - 1
    requires forall i :: 0 <= i < |keys| ==> Printable(keys[i])
    ensures TypeKeys(b, keys) == b
    decreases |keys|
  {
    if |keys| > 0 {
      TypingPastCapacityIsDropped(b, keys[1..]);
    }
  }

  /**
   * Flushing into a `CONSOLE_MAX_INPUT`-sized buffer, as the client's input
   * handler does, hands over the whole line as a C string and empties the
   * console.
   */
  lemma FlushDeliversLine(b: ConsoleBuffer, dest: seq<SChar>)
    requires Line(b)
    requires |dest| == CONSOLE_MAX_INPUT
    ensures var r := ConsoleFlushQueueToBuffer(b, Some(dest), CONSOLE_MAX_INPUT);
            && r.copied == b.length
            && r.dest.Some?
            && r.dest.value[..r.copied] == Text(b)
            && r.dest.value[r.copied] == NUL
            && (forall i :: 0 <= i < r.copied ==> r.dest.value[i] != NUL)
            && Line(r.console) && Text(r.console) == []
  {
    var r := ConsoleFlushQueueToBuffer(b, Some(dest), CONSOLE_MAX_INPUT);
    forall i | 0 <= i < r.copied
      ensures r.dest.value[i] != NUL
    {
      assert r.dest.value[i] == r.dest.value[..r.copied][i] == b.buffer[i];
    }
  }

  /** Typing a printable line from the initial state and flushing it yields that line. */
  lemma TypeThenFlush(keys: seq<SChar>, dest: seq<SChar>)
    requires forall i :: 0 <= i < |keys| ==> Printable(keys[i])
    requires |keys| <= CONSOLE_MAX_INPUT - 1
    requires |dest| == CONSOLE_MAX_INPUT
    ensures var r := ConsoleFlushQueueToBuffer(TypeKeys(Initial, keys), Some(dest), CONSOLE_MAX_INPUT);
            && r.copied == |keys|
            && r.dest.Some?
            && r.dest.value[..|keys|] == keys
            && r.dest.value[|keys|] == NUL
  {
    TypingPrintableAppends(Initial, keys);
    TypingPreservesLine(Initial, keys);
    FlushDeliversLine(TypeKeys(Initial, keys), dest);
  }

  /** ESC followed by a flush delivers an empty string. */
  lemma EscapeThenFlushIsEmpty(b: ConsoleBuffer, dest: seq<SChar>, maxlen: U32)
    requires Sized(b)
    requires 1 <= |dest|
    ensures var e := ProcessAndQueueInput(b, 0x1B);
            var r := ConsoleFlushQueueToBuffer(e.console, Some(dest), maxlen);
            && !e.typing
            && r.copied == 0
            && r.dest == Some([NUL] + dest[1..])
  {
    var e := ProcessAndQueueInput(b, 0x1B);
    assert e.console.buffer[..0] + [NUL] + dest[1..] == [NUL] + dest[1..];
  }

  /**
   * `maxlen` 0 wraps `maxlen-1` to 0xFFFFFFFF: the whole line is copied and
   * NUL-terminated, so the caller's buffer must be longer than the line.
   */
  lemma FlushZeroMaxlenCopiesWholeLine(b: ConsoleBuffer, dest: seq<SChar>)
    requires Sized(b) && b.length < |dest|
    ensures var r := ConsoleFlushQueueToBuffer(b, Some(dest), 0);
            && r.copied == b.length
            && r.dest.Some? && r.dest.value[..r.copied] == Text(b)
            && r.dest.value[r.copied] == NUL
  {
  }

  /**
   * For a valid console and a destination of `CONSOLE_MAX_INPUT` cells, every
   * `maxlen` (including 0) keeps the copy and its NUL inside the destination.
   */
  lemma FlushIntoFullSizeBufferStaysInBounds(b: ConsoleBuffer, dest: seq<SChar>, maxlen: U32)
    requires Valid(b) && |dest| == CONSOLE_MAX_INPUT
    ensures Min(b.length, Dec32(maxlen)) < |dest|
  {
  }
}
