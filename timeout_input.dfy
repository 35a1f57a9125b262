/** The keystroke loop of `GetStdioParams.__timeout_input` in module/enums.py (its
    Windows branch): characters typed so far are kept in a buffer, Enter returns
    the stripped buffer (or the default when that is empty), Backspace removes the
    last character, and once the time is up with no key pending the default is
    returned. The keyboard and the clock are given as a sequence of events. */
module TimeoutInput {
  import opened PyText

  const ENTER: char := '\r'
  /** `'\x08'` and `'\b'` are the same character. */
  const BACKSPACE: char := 8 as char

  /** One poll of the loop: a key was waiting (`kbhit()`), or none was and the clock
      read `elapsed` seconds since the prompt (in any unit shared with `timeout`). */
  datatype Event = Key(c: char) | Idle(elapsed: int)

  /** What the call returns, or the buffer while it is still waiting for input. */
  datatype Outcome = Returned(value: string) | Waiting(buffer: string)

  /** An event that ends the loop: Enter, or a poll with no key after the deadline. */
  predicate Decisive(e: Event, timeout: int) {
    e == Key(ENTER) || (e.Idle? && e.elapsed > timeout)
  }

  /** The buffer after one more event that does not end the loop. */
  function Apply(buffer: string, e: Event): string {
    match e
    case Idle(_) => buffer
    case Key(c) =>
      if c == BACKSPACE then (if buffer == [] then [] else buffer[..|buffer| - 1])
      else buffer + [c]
  }

  /** The buffer after `events`, none of which ends the loop. */
  function Typed(events: seq<Event>): string {
    if events == [] then [] else Apply(Typed(events[..|events| - 1]), events[|events| - 1])
  }

  /** `user_input.strip() or default`. */
  function StripOrDefault(userInput: string, default: string): (r: string)
    ensures r == default || (r != [] && !IsSpace(r[0]) && !IsSpace(r[|r| - 1]))
    ensures r == default <== forall k :: 0 <= k < |userInput| ==> IsSpace(userInput[k])
  {
    var t := Strip(userInput, StrBlanks);
    if t == [] then default else t
  }

  /** The polling loop over `events`. `consumed` is how many events it read; the
      last of them decided the call, or all were read and it is still waiting. */
  method TimeoutInput(events: seq<Event>, default: string, timeout: int) returns (outcome: Outcome, consumed: nat)
    ensures consumed <= |events|
    ensures forall k :: 0 <= k < consumed - 1 ==> !Decisive(events[k], timeout)
    ensures outcome.Waiting? ==>
      consumed == |events| && outcome.buffer == Typed(events) && (|events| == 0 || !Decisive(events[|events| - 1], timeout))
    ensures outcome.Returned? ==> consumed >= 1 && Decisive(events[consumed - 1], timeout)
    ensures outcome.Returned? && events[consumed - 1] == Key(ENTER) ==>
      outcome.value == StripOrDefault(Typed(events[..consumed - 1]), default)
    ensures outcome.Returned? && events[consumed - 1] != Key(ENTER) ==> outcome.value == default
  {
    var inputBuffer: string := [];
    var i := 0;
    while i < |events|
      invariant 0 <= i <= |events|
      invariant forall k :: 0 <= k < i ==> !Decisive(events[k], timeout)
      invariant inputBuffer == Typed(events[..i])
    {
      assert events[..i + 1][..i] == events[..i];
      match events[i] {
        case Key(c) =>
          if c == ENTER {
            return Returned(StripOrDefault(inputBuffer, default)), i + 1;
          } else if c == BACKSPACE {
            if inputBuffer != [] {
              inputBuffer := inputBuffer[..|inputBuffer| - 1];
            }
          } else {
            inputBuffer := inputBuffer + [c];
          }
        case Idle(elapsed) =>
          if elapsed > timeout {
            return Returned(default), i + 1;
          }
      }
      i := i + 1;
    }
    assert events[..i] == events;
    return Waiting(inputBuffer), i;
  }

  /** Characters typed without Backspace or Enter are the buffer, in order. */
  lemma {:induction false} PlainTyping(cs: string)
    requires forall k :: 0 <= k < |cs| ==> cs[k] != BACKSPACE
    ensures Typed(seq(|cs|, k requires 0 <= k < |cs| => Key(cs[k]))) == cs
    decreases |cs|
  {
    if cs != [] {
      var events := seq(|cs|, k requires 0 <= k < |cs| => Key(cs[k]));
      var front := cs[..|cs| - 1];
      assert events[..|events| - 1] == seq(|front|, k requires 0 <= k < |front| => Key(front[k]));
      PlainTyping(front);
      assert cs == front + [cs[|cs| - 1]];
    }
  }

  /** Backspace right after a character takes exactly that character back out. */
  lemma BackspaceUndoes(events: seq<Event>, c: char)
    requires c != BACKSPACE
    ensures Typed(events + [Key(c), Key(BACKSPACE)]) == Typed(events)
  {
    var withKey := events + [Key(c)];
    var all := withKey + [Key(BACKSPACE)];
    assert all == events + [Key(c), Key(BACKSPACE)];
    assert all[..|all| - 1] == withKey;
    assert withKey[..|withKey| - 1] == events;
    assert Typed(withKey) == Typed(events) + [c];
    assert Typed(all) == Apply(Typed(withKey), Key(BACKSPACE));
    assert (Typed(events) + [c])[..|Typed(events)|] == Typed(events);
  }

  /** Backspace removes one character when there is one, and leaves an empty buffer empty. */
  lemma BackspaceRemovesLast(events: seq<Event>)
    ensures |Typed(events)| > 0 ==> Typed(events + [Key(BACKSPACE)]) == Typed(events)[..|Typed(events)| - 1]
    ensures |Typed(events)| == 0 ==> Typed(events + [Key(BACKSPACE)]) == []
  {
    assert (events + [Key(BACKSPACE)])[..|events|] == events;
  }

  /** A poll with no key pending never changes the buffer, and once past the deadline
      returns the default whatever was typed. */
  lemma IdleKeepsBuffer(events: seq<Event>, elapsed: int, default: string, timeout: int)
    ensures Typed(events + [Idle(elapsed)]) == Typed(events)
    ensures elapsed > timeout <==> Decisive(Idle(elapsed), timeout)
  {
    assert (events + [Idle(elapsed)])[..|events|] == events;
  }

  /** Every character other than Enter adds at most one to the buffer's length. */
  lemma {:induction false} TypedLength(events: seq<Event>)
    ensures |Typed(events)| <= |events|
    decreases |events|
  {
    if events != [] {
      TypedLength(events[..|events| - 1]);
    }
  }
}
