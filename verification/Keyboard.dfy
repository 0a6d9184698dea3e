/** The keyboard queue: filled by the interrupt at any moment, emptied by the steps of `keyboard_getchar`. */
module Keyboard {
  import opened Bits

  /** Where the reader is: at its test, past it, or holding the character it is about to return. */
  datatype Reader = Waiting | Ready | Holding(c: int)

  /** The ring buffer with its 8-bit positions, and what was accepted and returned so far. */
  datatype State = State(buffer: seq<int>, write: int, read: int, reader: Reader, accepted: seq<int>,
                         returned: seq<int>)

  datatype Step = Push(c: int) | Test | Load | Advance

  function First(buffer: seq<int>): State { State(buffer, 0, 0, Waiting, [], []) }

  /** `next_write == read_ptr`, where the sum wraps at 256. */
  predicate IsFull(s: State) { (s.write + 1) % 256 == s.read }

  /** An interrupt, or the reader's next statement; a step that is not the reader's next changes nothing. */
  function After(s: State, step: Step): State
    requires |s.buffer| == 256 && 0 <= s.write < 256 && 0 <= s.read < 256
  {
    match step
    case Push(c) =>
      if IsFull(s) then s
      else s.(buffer := s.buffer[s.write := c], write := (s.write + 1) % 256, accepted := s.accepted + [c])
    case Test => if s.reader.Waiting? && s.read != s.write then s.(reader := Ready) else s
    case Load => if s.reader.Ready? then s.(reader := Holding(s.buffer[s.read])) else s
    case Advance =>
      if s.reader.Holding? then
        s.(reader := Waiting, read := (s.read + 1) % 256, returned := s.returned + [s.reader.c])
      else s
  }

  function Pending(s: State): int { (s.write - s.read) % 256 }

  /** The characters between the two positions are those accepted and not yet returned, in order. */
  ghost predicate Sound(s: State) {
    && |s.buffer| == 256 && 0 <= s.write < 256 && 0 <= s.read < 256
    && |s.accepted| == |s.returned| + Pending(s) && s.returned == s.accepted[..|s.returned|]
    && (forall k :: 0 <= k < Pending(s) ==> Waits(s, k))
    && (s.reader.Ready? ==> Pending(s) > 0)
    && (s.reader.Holding? ==> Pending(s) > 0 && s.reader.c == s.buffer[s.read])
  }

  predicate Waits(s: State, k: int)
    requires |s.buffer| == 256 && 0 <= |s.returned| + k < |s.accepted|
  {
    s.buffer[(s.read + k) % 256] == s.accepted[|s.returned| + k]
  }

  lemma PushStaysSound(s: State, c: int)
    requires Sound(s) && !IsFull(s)
    ensures Sound(After(s, Push(c))) && Pending(After(s, Push(c))) == Pending(s) + 1
  {
    var t := After(s, Push(c));
    forall k | 0 <= k < Pending(t)
      ensures Waits(t, k)
    {
      Slots(s.read, s.write, k);
      if k < Pending(s) { assert Waits(s, k); }
    }
  }

  /** The place to write is the one behind all pending characters. */
  lemma Slots(read: int, write: int, k: int)
    requires 0 <= read < 256 && 0 <= write < 256 && 0 <= k <= (write - read) % 256
    ensures (read + k) % 256 == write <==> k == (write - read) % 256
  {
  }

  lemma AdvanceStaysSound(s: State)
    requires Sound(s) && s.reader.Holding?
    ensures Sound(After(s, Advance)) && Pending(After(s, Advance)) == Pending(s) - 1
  {
    var t := After(s, Advance);
    assert Waits(s, 0);
    ReadMoves(s.read, s.write, 0);
    forall k | 0 <= k < Pending(t)
      ensures Waits(t, k)
    {
      NextWaits(s, k);
    }
  }

  lemma NextWaits(s: State, k: int)
    requires Sound(s) && s.reader.Holding? && 0 <= k < Pending(s) - 1
    ensures Waits(After(s, Advance), k)
  {
    ReadMoves(s.read, s.write, k);
    assert Waits(s, k + 1);
  }

  lemma ReadMoves(read: int, write: int, k: int)
    requires 0 <= read < 256 && 0 <= write < 256 && write != read && k >= 0
    ensures ((read + 1) % 256 + k) % 256 == (read + (k + 1)) % 256
    ensures (write - (read + 1) % 256) % 256 == (write - read) % 256 - 1
  {
  }

  lemma StaysSound(s: State, step: Step)
    requires Sound(s)
    ensures Sound(After(s, step))
  {
    match step
    case Push(c) => if !IsFull(s) { PushStaysSound(s, c); }
    case Test =>
      var t := After(s, Test);
      forall k | 0 <= k < Pending(t)
        ensures Waits(t, k)
      {
        assert Waits(s, k);
      }
    case Load =>
      var t := After(s, Load);
      forall k | 0 <= k < Pending(t)
        ensures Waits(t, k)
      {
        assert Waits(s, k);
      }
    case Advance => if s.reader.Holding? { AdvanceStaysSound(s); }
  }

  /** A push is dropped exactly when 255 characters are pending. */
  lemma DropsExactly(s: State, step: Step)
    requires Sound(s)
    ensures IsFull(s) <==> |s.accepted| - |s.returned| == 255
    ensures After(s, step).accepted
            == if step.Push? && |s.accepted| - |s.returned| < 255 then s.accepted + [step.c] else s.accepted
  {
  }

  ghost function Run(s: State, steps: seq<Step>): (t: State)
    requires Sound(s)
    ensures Sound(t)
    decreases |steps|
  {
    if steps == [] then s
    else
      var before := Run(s, steps[..|steps| - 1]);
      StaysSound(before, steps[|steps| - 1]);
      After(before, steps[|steps| - 1])
  }

  /** The characters that were pushed, except those pushed while 255 were pending. */
  ghost function Accepted(s: State, steps: seq<Step>): seq<int>
    requires Sound(s)
    decreases |steps|
  {
    if steps == [] then s.accepted
    else
      var front, last := steps[..|steps| - 1], steps[|steps| - 1];
      var before := Accepted(s, front);
      if last.Push? && |before| - |Run(s, front).returned| < 255 then before + [last.c] else before
  }

  /**
   Under any interleaving of pushes with the reader's steps, what the reader returned is a prefix of what was
   accepted, in order, and at most 255 characters are pending, however often the positions wrapped.
   */
  lemma {:induction false} ReturnsInOrder(buffer: seq<int>, steps: seq<Step>)
    requires |buffer| == 256
    ensures var t := Run(First(buffer), steps);
            && t.accepted == Accepted(First(buffer), steps)
            && t.returned <= t.accepted && |t.accepted| - |t.returned| <= 255
    decreases |steps|
  {
    if steps != [] {
      var front := steps[..|steps| - 1];
      ReturnsInOrder(buffer, front);
      DropsExactly(Run(First(buffer), front), steps[|steps| - 1]);
    }
  }

  /** `keyboard_buffer` and its two positions. */
  class Queue {
    const buffer: array<Byte>
    var writePtr: nat
    var readPtr: nat
    ghost var reader: Reader
    ghost var accepted: seq<int>
    ghost var returned: seq<int>

    ghost function View(): State
      reads this, buffer
    {
      State(buffer[..], writePtr, readPtr, reader, accepted, returned)
    }

    constructor ()
      ensures fresh(buffer) && |buffer[..]| == 256 && View() == First(buffer[..]) && Sound(View())
    {
      buffer, writePtr, readPtr := new Byte[256], 0, 0;
      reader, accepted, returned := Waiting, [], [];
    }

    /** `keyboard_push` */
    method KeyboardPush(c: Byte)
      requires Sound(View())
      modifies buffer, `writePtr, `accepted
      ensures View() == After(old(View()), Push(c)) && Sound(View())
      ensures accepted == if |old(accepted)| - |returned| < 255 then old(accepted) + [c] else old(accepted)
      ensures returned == old(returned)
    {
      StaysSound(View(), Push(c));
      DropsExactly(View(), Push(c));
      var nextWrite := (writePtr + 1) % 256;
      if nextWrite == readPtr {
        return;
      }
      buffer[writePtr] := c;
      writePtr, accepted := nextWrite, accepted + [c];
    }

    // The statements of `keyboard_getchar`; an interrupt may come between any two.

    method TestEmpty() returns (empty: bool)
      requires Sound(View()) && reader.Waiting?
      modifies `reader
      ensures View() == After(old(View()), Test) && Sound(View()) && empty == reader.Waiting?
      ensures empty <==> |accepted| == |returned|
    {
      StaysSound(View(), Test);
      empty := readPtr == writePtr;
      if !empty { reader := Ready; }
    }

    method LoadChar() returns (c: Byte)
      requires Sound(View()) && reader.Ready?
      modifies `reader
      ensures View() == After(old(View()), Load) && Sound(View()) && reader == Holding(c)
      ensures |returned| < |accepted| && c == accepted[|returned|]
    {
      assert Waits(View(), 0);
      StaysSound(View(), Load);
      c := buffer[readPtr];
      reader := Holding(c);
    }

    /** The character is the oldest that was accepted and not returned. */
    method AdvanceAndReturn(c: Byte) returns (r: Byte)
      requires Sound(View()) && reader == Holding(c)
      modifies `reader, `readPtr, `returned
      ensures View() == After(old(View()), Advance) && Sound(View())
      ensures |old(returned)| < |accepted| && r == accepted[|old(returned)|] && returned == old(returned) + [r]
      ensures accepted == old(accepted)
    {
      assert Waits(View(), 0);
      StaysSound(View(), Advance);
      readPtr := (readPtr + 1) % 256;
      reader, returned := Waiting, returned + [c];
      return c;
    }
  }
}
