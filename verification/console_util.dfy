/**
 * The client's line-input buffer and key handling (client/consoleutil.cpp,
 * client/consoleutil.h).
 *
 * `gConsoleBuffer` is a 64-cell char array with a length.  Keys typed by
 * the user edit it; the network code later flushes it into its own buffer.
 * Only the buffer's state is modelled: everything the code writes to the
 * terminal (echo, prompt, erase sequences) is left out.
 */
module ConsoleUtil {
  import opened Types

  /** Size of the console's char array, including the terminating NUL. */
  const CONSOLE_MAX_INPUT: nat := 64

  const NUL: SChar := 0

  /** `struct ConsoleBuffer` without its `flags`, which only steer terminal output. */
  datatype ConsoleBuffer = ConsoleBuffer(length: U32, buffer: seq<SChar>)

  /**
   * The array has its declared size and `length` is at most one past its
   * end: what the C++ code needs so that its reads and writes stay in the
   * array.
   */
  predicate Sized(b: ConsoleBuffer) {
    |b.buffer| == CONSOLE_MAX_INPUT && b.length <= CONSOLE_MAX_INPUT
  }

  /** The buffer invariant: room for the NUL, and the NUL at `buffer[length]`. */
  predicate Valid(b: ConsoleBuffer) {
    |b.buffer| == CONSOLE_MAX_INPUT && b.length <= CONSOLE_MAX_INPUT - 1 && b.buffer[b.length] == NUL
  }

  /** The characters queued so far. */
  function Text(b: ConsoleBuffer): seq<SChar>
    requires Sized(b)
  {
    b.buffer[..b.length]
  }

  /** The state of the static `gConsoleBuffer` before any call: zero-initialised. */
  const Initial: ConsoleBuffer := ConsoleBuffer(0, seq(CONSOLE_MAX_INPUT, _ => NUL))

  /** `ConsoleBuffer::clear`: empties the line; only cell 0 is overwritten. */
  function Clear(b: ConsoleBuffer): (r: ConsoleBuffer)
    requires |b.buffer| == CONSOLE_MAX_INPUT
    ensures Valid(r) && Text(r) == []
    ensures r.buffer[1..] == b.buffer[1..]
  {
    ConsoleBuffer(0, b.buffer[0 := NUL])
  }

  /** A buffer after an edit and the edit's `bool` result. */
  datatype Edit = Edit(console: ConsoleBuffer, ok: bool)

  /**
   * `ConsoleBuffer::addchar`: appends when fewer than 63 characters are
   * queued, keeping the NUL right after them; otherwise fails and changes
   * nothing.
   */
  function AddChar(b: ConsoleBuffer, key: SChar): (r: Edit)
    requires |b.buffer| == CONSOLE_MAX_INPUT
    ensures r.ok <==> b.length < CONSOLE_MAX_INPUT - 1
    ensures !r.ok ==> r.console == b
    ensures r.ok ==>
              && Sized(r.console)
              && r.console.length == b.length + 1
              && Text(r.console) == b.buffer[..b.length] + [key]
              && r.console.buffer[r.console.length] == NUL
              && r.console.buffer[r.console.length + 1..] == b.buffer[b.length + 2..]
    ensures Valid(b) ==> Valid(r.console)
  {
    if b.length < CONSOLE_MAX_INPUT - 1 then
      var l := b.length + 1;
      Edit(ConsoleBuffer(l, b.buffer[b.length := key][l := NUL]), true)
    else
      Edit(b, false)
  }

  /**
   * `ConsoleBuffer::delchar`: drops the last character and puts the NUL in
   * its place when the line is not empty; otherwise fails and changes
   * nothing.
   */
  function DelChar(b: ConsoleBuffer): (r: Edit)
    requires Sized(b)
    ensures r.ok <==> b.length > 0
    ensures !r.ok ==> r.console == b
    ensures r.ok ==>
              && Sized(r.console)
              && r.console.length == b.length - 1
              && Text(r.console) == Text(b)[..b.length - 1]
              && r.console.buffer[r.console.length] == NUL
              && r.console.buffer[b.length..] == b.buffer[b.length..]
    ensures Valid(b) ==> Valid(r.console)
  {
    if b.length > 0 then
      var l := b.length - 1;
      Edit(ConsoleBuffer(l, b.buffer[l := NUL]), true)
    else
      Edit(b, false)
  }

  /**
   * `processBackspace(spaces)`: `spaces` calls of `delchar`, so exactly
   * `min(spaces, length)` trailing characters go, each replaced by a NUL;
   * the cells past the old end are untouched.
   */
  function Backspace(b: ConsoleBuffer, spaces: nat): (r: ConsoleBuffer)
    requires Sized(b)
    ensures Sized(r)
    ensures r.length == b.length - Min(spaces, b.length)
    ensures Text(r) == Text(b)[..r.length]
    ensures forall i :: r.length <= i < b.length ==> r.buffer[i] == NUL
    ensures r.buffer[b.length..] == b.buffer[b.length..]
    decreases spaces
  {
    if spaces == 0 then b else Backspace(DelChar(b).console, spaces - 1)
  }

  /** The `for` loop of `processBackspace`, one `delchar` per iteration. */
  method ProcessBackspace(b: ConsoleBuffer, spaces: U32) returns (r: ConsoleBuffer)
    requires Sized(b)
    ensures r == Backspace(b, spaces)
  {
    r := b;
    var i := 0;
    while i < spaces
      invariant i <= spaces
      invariant Sized(r)
      invariant Backspace(r, spaces - i) == Backspace(b, spaces)
    {
      r := DelChar(r).console;
      i := i + 1;
    }
  }

  /** `processLineEscape`: backspaces over the whole line, leaving it empty. */
  function ProcessLineEscape(b: ConsoleBuffer): (r: ConsoleBuffer)
    requires Sized(b)
    ensures Sized(r) && r.length == 0
    ensures forall i :: 0 <= i < b.length ==> r.buffer[i] == NUL
    ensures Valid(b) ==> Valid(r)
  {
    Backspace(b, b.length)
  }

  /** `processKey`: queues the key when there is room. */
  function ProcessKey(b: ConsoleBuffer, key: SChar): (r: ConsoleBuffer)
    requires Sized(b)
    ensures Sized(r)
    ensures b.length < CONSOLE_MAX_INPUT - 1 ==>
              && Text(r) == Text(b) + [key]
              && r.buffer[r.length] == NUL
              && r.buffer[r.length + 1..] == b.buffer[b.length + 2..]
    ensures b.length >= CONSOLE_MAX_INPUT - 1 ==> r == b
    ensures Valid(b) ==> Valid(r)
  {
    AddChar(b, key).console
  }

  /** The buffer after a key and `processAndQueueInput`'s "user still typing" result. */
  datatype KeyResult = KeyResult(console: ConsoleBuffer, typing: bool)

  /**
   * `processAndQueueInput`: backspace (0x08) erases one character,
   * vertical tab (0x0B, labelled Line Feed in the source) and carriage
   * return (0x0D) end the line without touching the buffer, ESC (0x1B)
   * erases the line, DEL (0x7F) is ignored, and any other key from 0x20 up
   * is queued.  A real line feed (0x0A) falls among the ignored keys below
   * 0x20.  The upper bound `0x126` of the printable test can never fail for
   * a signed char.
   */
  function ProcessAndQueueInput(b: ConsoleBuffer, key: SChar): (r: KeyResult)
    requires Sized(b)
    ensures Sized(r.console)
    ensures !r.typing <==> key == 0x0B || key == 0x0D || key == 0x1B
    ensures key == 0x08 ==> r.console == DelChar(b).console
    ensures key == 0x1B ==> r.console == ProcessLineEscape(b) && r.console.length == 0
    ensures key == 0x0B || key == 0x0D || key == 0x7F ==> r.console == b
    ensures key < 0x20 && key !in {0x08, 0x1B} ==> r.console == b
    ensures key >= 0x20 && key != 0x7F ==> r.console == AddChar(b, key).console
    ensures Valid(b) ==> Valid(r.console)
  {
    if key == 0x08 then KeyResult(Backspace(b, 1), true)
    else if key == 0x0B || key == 0x0D then KeyResult(b, false)
    else if key == 0x1B then KeyResult(ProcessLineEscape(b), false)
    else if key == 0x7F then KeyResult(b, true)
    else if key >= 0x20 && key <= 0x126 then KeyResult(ProcessKey(b, key), true)
    else KeyResult(b, true)
  }

  /** The console buffer, the caller's buffer and the count `ConsoleFlushQueueToBuffer` returns. */
  datatype Flush = Flush(console: ConsoleBuffer, dest: Option<seq<SChar>>, copied: int)

  /**
   * `ConsoleFlushQueueToBuffer`: a NULL destination fails with -1 and
   * leaves the console alone; otherwise the first `min(length, maxlen-1)`
   * characters are copied, a NUL is written after them, that count is
   * returned and the console line is cleared.  `maxlen-1` is unsigned, so
   * `maxlen` 0 lifts the truncation bound to 0xFFFFFFFF.  The caller must
   * supply a destination that holds the write at index `min(length, maxlen-1)`.
   */
  function ConsoleFlushQueueToBuffer(b: ConsoleBuffer, dest: Option<seq<SChar>>, maxlen: U32): (r: Flush)
    requires Sized(b)
    requires dest.Some? ==> Min(b.length, Dec32(maxlen)) < |dest.value|
    ensures dest.None? ==> r == Flush(b, None, -1)
    ensures dest.Some? ==>
              && r.copied == Min(b.length, Dec32(maxlen))
              && (1 <= maxlen ==> r.copied <= maxlen - 1)
              && r.dest.Some?
              && |r.dest.value| == |dest.value|
              && r.dest.value[..r.copied] == Text(b)[..r.copied]
              && r.dest.value[r.copied] == NUL
              && r.dest.value[r.copied + 1..] == dest.value[r.copied + 1..]
              && Valid(r.console) && r.console.length == 0
  {
    if dest.None? then Flush(b, None, -1)
    else
      var bound := Dec32(maxlen);
      var n := if b.length < bound then b.length else bound;
      Flush(Clear(b), Some(b.buffer[..n] + [NUL] + dest.value[n + 1..]), n)
  }
}
