/** The PS/2 keyboard buffer (kernel/src/Drivers/PS2Keyboard/driver.c).

    The interrupt handler pushes into a ring while KiReadHidC takes from it without any lock.
    `KeyboardSteps` is the machine of their single steps: one for each access of the reader to the
    shared indices, with the whole of KbdPushback as one step of the interrupt.  `Keyboard` holds
    the driver in its own form, step for step, and the line editor KiReadHidSN. */
module KeyboardSteps {
  const SIZE: nat := 65535

  const BACKSPACE: char := '\U{0008}'

  /** Where the reader stands: each stop comes before one access to head, tail or the buffer. */
  datatype Pc =
    | Idle
    | LoadHead
    | LoadTail(head: nat)
    | LoadIndex
    | LoadChar(tail: nat)
    | ReloadTail(c: char)
    | StoreTail(c: char, tail: nat)
    | CountRead(c: char)

  /** `accepted` and `delivered` are what went in and came out since the last overflow. */
  datatype State = State(buf: seq<char>, head: nat, tail: nat, cursorRead: nat, pc: Pc,
                         accepted: seq<char>, delivered: seq<char>)

  datatype Event = Push(c: char) | Reader

  predicate InRange(s: State) {
    && |s.buf| == SIZE && s.head < SIZE && s.tail < SIZE
    && (s.pc.LoadChar? || s.pc.StoreTail? ==> s.pc.tail < SIZE)
  }

  /** The unread characters, oldest first. */
  function Contents(s: State): seq<char>
    requires InRange(s)
  {
    if s.tail <= s.head then s.buf[s.tail..s.head] else s.buf[s.tail..] + s.buf[..s.head]
  }

  function Next(i: nat): (j: nat)
    ensures j < SIZE
  {
    (i + 1) % SIZE
  }

  /** A backspace is ignored while no character has ever been read. */
  predicate Ignored(s: State, c: char) {
    c == BACKSPACE && s.cursorRead == 0
  }

  predicate Overflows(s: State, e: Event) {
    e.Push? && !Ignored(s, e.c) && Next(s.head) == s.tail
  }

  function Zeroed(): seq<char> {
    seq(SIZE, _ => '\0')
  }

  function Step(s: State, e: Event): (r: State)
    requires InRange(s)
    ensures InRange(r)
  {
    match e
    case Push(c) =>
      if Ignored(s, c) then s
      else if Next(s.head) != s.tail then
        s.(buf := s.buf[s.head := c], head := Next(s.head), accepted := s.accepted + [c])
      else
        s.(buf := Zeroed(), head := 0, tail := 0, accepted := [], delivered := [])
    case Reader =>
      match s.pc
      case Idle => s.(pc := LoadHead)
      case LoadHead => s.(pc := LoadTail(s.head))
      case LoadTail(h) => s.(pc := if h == s.tail then LoadHead else LoadIndex)
      case LoadIndex => s.(pc := LoadChar(s.tail))
      case LoadChar(t) => s.(pc := ReloadTail(s.buf[t]))
      case ReloadTail(c) => s.(pc := StoreTail(c, s.tail))
      case StoreTail(c, t) =>
        s.(tail := Next(t), pc := CountRead(c), delivered := s.delivered + [c])
      case CountRead(_) => s.(cursorRead := s.cursorRead + 1, pc := Idle)
  }

  /** The reader has not looked at the indices yet, or is done with them. */
  predicate BetweenReads(s: State) {
    s.pc == Idle || s.pc == LoadHead || s.pc.CountRead?
  }

  /** An overflow here does no harm: the reader has loaded nothing, or only a head index of 0, which is what the
      overflow sets. */
  predicate CanOverflow(s: State) {
    BetweenReads(s) || s.pc == LoadTail(0)
  }

  /** What came in is what went out and what is still in the ring, in order; and the reader only
      takes what is there. */
  ghost predicate Consistent(s: State) {
    && InRange(s)
    && s.accepted == s.delivered + Contents(s)
    && match s.pc
       case Idle => true
       case LoadHead => true
       case LoadTail(h) => h == s.tail || Contents(s) != []
       case LoadIndex => Contents(s) != []
       case LoadChar(t) => t == s.tail && Contents(s) != []
       case ReloadTail(c) => Contents(s) != [] && c == Contents(s)[0]
       case StoreTail(c, t) => t == s.tail && Contents(s) != [] && c == Contents(s)[0]
       case CountRead(_) => true
  }

  lemma ContentsLength(s: State)
    requires InRange(s)
    ensures |Contents(s)| == if s.tail <= s.head then s.head - s.tail else SIZE - s.tail + s.head
    ensures Contents(s) == [] <==> s.head == s.tail
  {
  }

  /** The ring refuses a character, and forgets everything, exactly when 65534 are unread. */
  lemma OverflowIffFull(s: State, c: char)
    requires InRange(s) && !Ignored(s, c)
    ensures Overflows(s, Push(c)) <==> |Contents(s)| == SIZE - 1
  {
    ContentsLength(s);
  }

  lemma PushAppends(s: State, c: char)
    requires InRange(s) && !Ignored(s, c) && !Overflows(s, Push(c))
    ensures Contents(Step(s, Push(c))) == Contents(s) + [c]
  {
    var r := Step(s, Push(c));
    assert r.buf[..s.head] == s.buf[..s.head] && r.buf[s.head + 1..] == s.buf[s.head + 1..];
    if s.head + 1 < SIZE {
      assert r.head == s.head + 1;
    } else {
      assert r.head == 0 && r.buf[s.tail..] == s.buf[s.tail..s.head] + [c];
    }
  }

  lemma AdvanceStep(s: State, c: char)
    requires InRange(s) && s.pc == StoreTail(c, s.tail)
    ensures var r := Step(s, Reader); r.buf == s.buf && r.head == s.head && r.tail == Next(s.tail)
  {
  }

  lemma AdvanceDropsFirst(s: State, c: char)
    requires InRange(s) && Contents(s) != [] && s.pc == StoreTail(c, s.tail)
    ensures Contents(Step(s, Reader)) == Contents(s)[1..]
  {
    hide Step;
    ContentsLength(s);
    AdvanceStep(s, c);
    var r := Step(s, Reader);
    if s.tail < s.head {
      assert Next(s.tail) == s.tail + 1;
      assert s.buf[s.tail..s.head][1..] == s.buf[s.tail + 1..s.head];
    } else if s.tail + 1 < SIZE {
      assert Next(s.tail) == s.tail + 1;
      assert (s.buf[s.tail..] + s.buf[..s.head])[1..] == s.buf[s.tail + 1..] + s.buf[..s.head];
    } else {
      assert Next(s.tail) == 0;
      assert (s.buf[s.tail..] + s.buf[..s.head])[1..] == s.buf[0..s.head];
    }
  }

  lemma FirstIsAtTail(s: State)
    requires InRange(s) && Contents(s) != []
    ensures Contents(s)[0] == s.buf[s.tail]
  {
    ContentsLength(s);
  }

  lemma PushKeepsConsistent(s: State, c: char)
    requires Consistent(s)
    ensures Consistent(Step(s, Push(c))) <==> (Overflows(s, Push(c)) ==> CanOverflow(s))
  {
    hide Contents;
    var r := Step(s, Push(c));
    if Overflows(s, Push(c)) {
      ContentsLength(r);
    } else if !Ignored(s, c) {
      PushAppends(s, c);
      assert s.delivered + (Contents(s) + [c]) == s.delivered + Contents(s) + [c];
      if Contents(s) != [] {
        assert (Contents(s) + [c])[0] == Contents(s)[0];
      }
    }
  }

  lemma LookingKeepsContents(s: State)
    requires InRange(s) && !s.pc.StoreTail?
    ensures Contents(Step(s, Reader)) == Contents(s)
  {
  }

  lemma ReaderKeepsConsistent(s: State)
    requires Consistent(s)
    ensures Consistent(Step(s, Reader))
  {
    hide Contents;
    ContentsLength(s);
    if Contents(s) != [] {
      FirstIsAtTail(s);
    }
    if s.pc.StoreTail? {
      AdvanceDropsFirst(s, s.pc.c);
      assert s.delivered + Contents(s) == s.delivered + [Contents(s)[0]] + Contents(s)[1..];
    } else {
      LookingKeepsContents(s);
    }
  }

  /** A step keeps the machine consistent exactly if it is not an overflow that meets the reader behind its loads. */
  lemma StepKeepsConsistent(s: State, e: Event)
    requires Consistent(s)
    ensures Consistent(Step(s, e)) <==> (Overflows(s, e) ==> CanOverflow(s))
  {
    hide Consistent, Contents;
    match e {
      case Push(c) => PushKeepsConsistent(s, c);
      case Reader => ReaderKeepsConsistent(s);
    }
  }

  function Start(buf: seq<char>): State
    requires |buf| == SIZE
  {
    State(buf, 0, 0, 0, Idle, [], [])
  }

  ghost function Run(s: State, events: seq<Event>): (r: State)
    requires InRange(s)
    ensures InRange(r)
    decreases |events|
  {
    if events == [] then s else Run(Step(s, events[0]), events[1..])
  }

  /** No overflow falls inside a read that has loaded an index. */
  ghost predicate Undisturbed(s: State, events: seq<Event>)
    requires InRange(s)
    decreases |events|
  {
    events == [] ||
    ((Overflows(s, events[0]) ==> CanOverflow(s)) && Undisturbed(Step(s, events[0]), events[1..]))
  }

  lemma ConsistentInRange(s: State)
    requires Consistent(s)
    ensures InRange(s)
  {
  }

  /** In every undisturbed interleaving the reader gets the accepted characters in order, none lost and none twice. */
  lemma {:induction false} RunKeepsConsistent(s: State, events: seq<Event>)
    requires Consistent(s) && Undisturbed(s, events)
    ensures Consistent(Run(s, events))
    decreases |events|
  {
    hide Step, Consistent;
    ConsistentInRange(s);
    if events != [] {
      StepKeepsConsistent(s, events[0]);
      RunKeepsConsistent(Step(s, events[0]), events[1..]);
    }
  }

  lemma DeliveredInOrder(buf: seq<char>, events: seq<Event>)
    requires |buf| == SIZE && Undisturbed(Start(buf), events)
    ensures var s := Run(Start(buf), events);
      s.delivered <= s.accepted && s.accepted == s.delivered + Contents(s)
  {
    assert Start(buf).accepted == Start(buf).delivered + Contents(Start(buf));
    RunKeepsConsistent(Start(buf), events);
  }

  /** Steps until the read that has begun is over. */
  function Remaining(pc: Pc): nat {
    match pc
    case LoadTail(_) => 6
    case LoadIndex => 5
    case LoadChar(_) => 4
    case ReloadTail(_) => 3
    case StoreTail(_, _) => 2
    case CountRead(_) => 1
    case _ => 0
  }

  ghost function ReaderAlone(s: State, n: nat): (r: State)
    requires InRange(s)
    ensures InRange(r)
    decreases n
  {
    if n == 0 then s else ReaderAlone(Step(s, Reader), n - 1)
  }

  lemma ConsistentReader(s: State)
    requires Consistent(s)
    ensures InRange(s) && (s.pc.StoreTail? ==> s.pc.tail == s.tail)
  {
  }

  lemma StaleIndex(s: State)
    requires InRange(s) && s.pc.ReloadTail? && s.head == 0 == s.tail && s.delivered == []
    ensures var r := ReaderAlone(s, 3);
      r.pc == Idle && r.accepted == s.accepted && |r.delivered| == 1 && Contents(r) != []
  {
    var m := Step(s, Reader);
    var r := Step(Step(m, Reader), Reader);
    assert ReaderAlone(s, 3) == ReaderAlone(m, 2) == ReaderAlone(Step(m, Reader), 1) == r;
    ContentsLength(r);
  }

  lemma ReadFromZero(s: State)
    requires InRange(s) && s.pc == LoadIndex && s.head == 0 == s.tail && s.delivered == []
    ensures var r := ReaderAlone(s, 5);
      r.pc == Idle && r.accepted == s.accepted && |r.delivered| == 1 && Contents(r) != []
  {
    var m := Step(Step(s, Reader), Reader);
    assert ReaderAlone(s, 5) == ReaderAlone(Step(s, Reader), 4) == ReaderAlone(m, 3);
    StaleIndex(m);
  }

  /** The exception is real: any other overflow inside a read makes that read hand out a character although nothing
      has been accepted since, and leaves a ring that looks non-empty, unless the old index was the last one. */
  lemma OverflowInsideReadBreaksRing(s: State, e: Event)
    requires Consistent(s) && Overflows(s, e) && !CanOverflow(s)
    ensures var r := ReaderAlone(Step(s, e), Remaining(s.pc));
      && r.pc == Idle && r.accepted == [] && |r.delivered| == 1
      && (Contents(r) == [] <==> s.pc.StoreTail? && s.tail == SIZE - 1)
  {
    hide Consistent;
    ConsistentReader(s);
    var m := Step(s, e);
    match s.pc {
      case LoadTail(h) => ReadFromZero(Step(m, Reader));
      case LoadIndex => ReadFromZero(m);
      case LoadChar(_) => StaleIndex(Step(m, Reader));
      case ReloadTail(_) => StaleIndex(m);
      case StoreTail(_, t) =>
        assert ReaderAlone(m, 2) == ReaderAlone(Step(m, Reader), 1) == Step(Step(m, Reader), Reader);
        ContentsLength(Step(Step(m, Reader), Reader));
    }
  }

  // ---------- a backspace in an empty ring ----------

  ghost function Readers(n: nat): seq<Event> {
    if n == 0 then [] else [Reader] + Readers(n - 1)
  }

  lemma RunFirst(s: State, e: Event, rest: seq<Event>)
    requires InRange(s)
    ensures Run(s, [e] + rest) == Run(Step(s, e), rest)
    ensures Undisturbed(s, [e] + rest) <==> (Overflows(s, e) ==> CanOverflow(s)) && Undisturbed(Step(s, e), rest)
  {
    hide Step;
    assert ([e] + rest)[1..] == rest;
  }

  lemma {:induction false} RunReaders(s: State, n: nat, rest: seq<Event>)
    requires InRange(s)
    ensures Run(s, Readers(n) + rest) == Run(ReaderAlone(s, n), rest)
    ensures Undisturbed(s, Readers(n) + rest) <==> Undisturbed(ReaderAlone(s, n), rest)
    decreases n
  {
    hide Step;
    if n == 0 {
      assert Readers(0) + rest == rest;
    } else {
      assert Readers(n) + rest == [Reader] + (Readers(n - 1) + rest);
      RunFirst(s, Reader, Readers(n - 1) + rest);
      RunReaders(Step(s, Reader), n - 1, rest);
    }
  }

  /** One character goes in and is read. */
  lemma FirstRead(buf: seq<char>, c: char)
    requires |buf| == SIZE && c != BACKSPACE
    ensures var r := ReaderAlone(Step(Start(buf), Push(c)), 8);
      r.pc == Idle && r.head == 1 == r.tail && r.cursorRead == 1 && r.delivered == [c]
  {
    var s := Step(Start(buf), Push(c));
    assert s.head == 1 && s.tail == 0 && s.buf[0] == c && s.pc == Idle;
    var t := Step(Step(Step(s, Reader), Reader), Reader);
    assert t.pc == LoadIndex;
    var u := Step(Step(Step(t, Reader), Reader), Reader);
    assert u.pc == StoreTail(c, 0);
    assert ReaderAlone(s, 8) == ReaderAlone(Step(s, Reader), 7) == ReaderAlone(Step(Step(s, Reader), Reader), 6);
    assert ReaderAlone(s, 8) == ReaderAlone(t, 5) == ReaderAlone(Step(t, Reader), 4);
    assert ReaderAlone(s, 8) == ReaderAlone(Step(Step(t, Reader), Reader), 3) == ReaderAlone(u, 2);
    assert ReaderAlone(u, 2) == ReaderAlone(Step(u, Reader), 1) == Step(Step(u, Reader), Reader);
  }

  lemma StartTakesOne(buf: seq<char>)
    requires |buf| == SIZE
    ensures !Overflows(Start(buf), Push('\n'))
  {
  }

  lemma EmptyRingTakesOne(s: State)
    requires InRange(s) && s.cursorRead > 0 && s.head == 1 == s.tail
    ensures !Overflows(s, Push(BACKSPACE))
    ensures var r := Step(s, Push(BACKSPACE));
      r.pc == s.pc && r.delivered == s.delivered && Contents(r) == [BACKSPACE]
  {
    PushAppends(s, BACKSPACE);
  }

  /** The check in KbdPushback does not keep backspaces off an empty line: once a line end has been read, the next
      line may begin with one. */
  lemma BackspaceCanStartALine(buf: seq<char>)
    requires |buf| == SIZE
    ensures var events := [Push('\n')] + (Readers(8) + [Push(BACKSPACE)]);
      && Undisturbed(Start(buf), events)
      && var r := Run(Start(buf), events); r.pc == Idle && r.delivered == ['\n'] && Contents(r) == [BACKSPACE]
  {
    hide Step;
    var s, last := Step(Start(buf), Push('\n')), [Push(BACKSPACE)];
    var r := ReaderAlone(s, 8);
    RunFirst(Start(buf), Push('\n'), Readers(8) + last);
    StartTakesOne(buf);
    RunReaders(s, 8, last);
    FirstRead(buf, '\n');
    RunFirst(r, Push(BACKSPACE), []);
    assert last == [Push(BACKSPACE)] + [];
    EmptyRingTakesOne(r);
  }
}

module Keyboard {
  import opened KeyboardSteps
  import opened Words

  class Driver {
    const buf: array<char>
    var head: nat
    var tail: nat
    var cursorRead: nat
    /** The reader's place and loads, and the history the machine keeps. */
    var pc: Pc
    ghost var accepted: seq<char>
    ghost var delivered: seq<char>

    ghost function Machine(): State
      reads this, buf
    {
      State(buf[..], head, tail, cursorRead, pc, accepted, delivered)
    }

    ghost predicate Valid()
      reads this, buf
    {
      InRange(Machine())
    }

    constructor InitKeyboardDriver()
      ensures Valid() && Machine() == Start(buf[..]) && fresh(buf)
    {
      buf := new char[SIZE](_ => '\0');
      head, tail, cursorRead, pc := 0, 0, 0, Idle;
      accepted, delivered := [], [];
    }

    method OverflowKbdBfr()
      requires Valid()
      modifies this`head, this`tail, buf
      ensures head == 0 && tail == 0 && buf[..] == Zeroed()
    {
      head, tail := 0, 0;
      for i := 0 to SIZE
        invariant head == 0 && tail == 0 && forall k :: 0 <= k < i ==> buf[k] == '\0'
      {
        buf[i] := '\0';
      }
    }

    /** The interrupt handler's push: one step of the machine. */
    method KbdPushback(c: char)
      requires Valid()
      modifies this, buf
      ensures Valid() && Machine() == Step(old(Machine()), Push(c))
      ensures cursorRead == old(cursorRead) && pc == old(pc)
      ensures
        if c as int == 8 && old(cursorRead) == 0 then
          head == old(head) && tail == old(tail) && buf[..] == old(buf[..]) && accepted == old(accepted)
        else if (old(head) + 1) % 65535 != old(tail) then
          && head == (old(head) + 1) % 65535 && tail == old(tail) && buf[..] == old(buf[..])[old(head) := c]
          && accepted == old(accepted) + [c]
        else
          head == 0 && tail == 0 && forall k :: 0 <= k < 65535 ==> buf[k] as int == 0
    {
      if c == BACKSPACE {
        if cursorRead == 0 {
          return;
        }
      }
      var next := Next(head);
      if next != tail {
        buf[head] := c;
        head := next;
        accepted := accepted + [c];
      } else {
        OverflowKbdBfr();
        accepted, delivered := [], [];
      }
    }

    /** One access of KiReadHidC; the result is there when the read has been counted. */
    method ReadStep() returns (result: seq<char>)
      requires Valid()
      modifies this
      ensures Valid() && Machine() == Step(old(Machine()), Reader)
      ensures result == if old(pc.CountRead?) then [old(pc).c] else []
      ensures cursorRead == old(cursorRead) + |result|
      ensures tail == if old(pc.StoreTail?) then (old(pc).tail + 1) % 65535 else old(tail)
    {
      result := [];
      match pc {
        case Idle => pc := LoadHead;
        case LoadHead => pc := LoadTail(head);
        case LoadTail(h) => pc := if h == tail then LoadHead else LoadIndex;
        case LoadIndex => pc := LoadChar(tail);
        case LoadChar(t) => pc := ReloadTail(buf[t]);
        case ReloadTail(c) => pc := StoreTail(c, tail);
        case StoreTail(c, t) =>
          tail := Next(t);
          pc := CountRead(c);
          delivered := delivered + [c];
        case CountRead(c) =>
          cursorRead := cursorRead + 1;
          pc := Idle;
          result := [c];
      }
    }
  }

  // ---------- line editing ----------

  predicate EndsLine(c: char) {
    c == '\n' || c == '\0'
  }

  /** The line after these keys: a backspace takes back the last character. */
  function Edited(keys: seq<char>): (line: seq<char>) {
    if keys == [] then []
    else
      var line, c := Edited(keys[..|keys| - 1]), keys[|keys| - 1];
      if c != BACKSPACE then line + [c] else if line == [] then [] else line[..|line| - 1]
  }

  /** In codes: 8 takes back the last character, every other key adds itself. */
  lemma EditedByOne(keys: seq<char>, c: char)
    ensures Edited([]) == []
    ensures var line := Edited(keys);
      Edited(keys + [c]) == if c as int != 8 then line + [c] else if line == [] then [] else line[..|line| - 1]
  {
    assert (keys + [c])[..|keys|] == keys;
  }

  /** A backspace finds the line empty, so that the line editor stores in front of its buffer. */
  ghost predicate StoresBelow(keys: seq<char>) {
    exists k :: 0 <= k < |keys| && keys[k] == BACKSPACE && Edited(keys[..k]) == []
  }

  /** The line editor's index after these keys; nothing keeps it from going below 0. */
  function Cursor(keys: seq<char>): int {
    if keys == [] then 0
    else Cursor(keys[..|keys| - 1]) + if keys[|keys| - 1] == BACKSPACE then -1 else 1
  }

  /** What then stands in the buffer: characters typed while the index is below 0 do not get there. */
  function Shown(keys: seq<char>): (line: seq<char>)
    ensures |line| == Max(Cursor(keys), 0)
  {
    if keys == [] then []
    else
      var before, c := keys[..|keys| - 1], keys[|keys| - 1];
      var line := Shown(before);
      if c != BACKSPACE then if Cursor(before) >= 0 then line + [c] else line
      else if line == [] then [] else line[..|line| - 1]
  }

  /** The first n keys make the line: it is full then, or the next key ends it. */
  predicate IsLineEnd(keys: seq<char>, n: nat, room: nat) {
    n <= |keys| && (Cursor(keys[..n]) >= room || (n < |keys| && EndsLine(keys[n])))
  }

  ghost predicate NoLineEndBefore(keys: seq<char>, n: nat, room: nat) {
    forall k: nat :: k < n ==> !IsLineEnd(keys, k, room)
  }

  /** As long as no backspace finds the line empty, index and buffer are what the user sees. */
  lemma {:induction false} ShownIsEdited(keys: seq<char>)
    requires !StoresBelow(keys)
    ensures Shown(keys) == Edited(keys) && Cursor(keys) == |Edited(keys)|
    decreases |keys|
  {
    if keys != [] {
      var before := keys[..|keys| - 1];
      assert forall k :: 0 <= k < |before| ==> before[..k] == keys[..k];
      ShownIsEdited(before);
      assert keys[|keys| - 1] == BACKSPACE ==> Edited(keys[..|keys| - 1]) != [];
    }
  }

  lemma {:induction false} ShownHasNoLineEnd(keys: seq<char>)
    requires forall k :: 0 <= k < |keys| ==> !EndsLine(keys[k])
    ensures forall k :: 0 <= k < |Shown(keys)| ==> !EndsLine(Shown(keys)[k])
    decreases |keys|
  {
    if keys != [] {
      ShownHasNoLineEnd(keys[..|keys| - 1]);
    }
  }

  lemma NoKeyEndedTheLine(keys: seq<char>, n: nat, room: nat)
    requires n <= |keys| && NoLineEndBefore(keys, n, room)
    ensures forall k :: 0 <= k < n ==> keys[k] as int != 10 && keys[k] as int != 0
  {
    forall k: nat | k < n
      ensures !EndsLine(keys[k])
    {
      assert !IsLineEnd(keys, k, room);
    }
  }

  lemma ShownHasNoNul(keys: seq<char>, n: nat, room: nat)
    requires n <= |keys| && NoLineEndBefore(keys, n, room)
    ensures forall k :: 0 <= k < |Shown(keys[..n])| ==> Shown(keys[..n])[k] != '\0'
  {
    hide Shown;
    forall k: nat | k < n
      ensures !EndsLine(keys[..n][k])
    {
      assert !IsLineEnd(keys, k, room);
    }
    ShownHasNoLineEnd(keys[..n]);
  }

  /** One more key stores below the buffer only as a backspace that moves the index below 0, or after one. */
  lemma OneMoreKey(keys: seq<char>, n: nat)
    requires n < |keys|
    ensures StoresBelow(keys[..n + 1])
       <==> StoresBelow(keys[..n]) || (keys[n] == BACKSPACE && Cursor(keys[..n]) <= 0)
    ensures !StoresBelow(keys[..n]) ==> Cursor(keys[..n]) >= 0
  {
    var a, b := keys[..n], keys[..n + 1];
    assert forall k :: 0 <= k <= n ==> b[..k] == keys[..k];
    assert forall k :: 0 <= k <= n ==> a[..k] == keys[..k];
    if !StoresBelow(a) {
      ShownIsEdited(a);
      if keys[n] == BACKSPACE && Cursor(a) <= 0 {
        assert b[n] == BACKSPACE && Edited(b[..n]) == [];
      }
    } else {
      var k :| 0 <= k < |a| && a[k] == BACKSPACE && Edited(a[..k]) == [];
      assert b[k] == BACKSPACE && Edited(b[..k]) == [];
    }
  }

  /** What the line editor keeps: the line so far, and NULs behind it. */
  ghost predicate Holds(out: seq<char>, maxlen: nat, line: seq<char>) {
    && |line| < maxlen <= |out| && out[..|line|] == line
    && forall k :: |line| <= k < maxlen ==> out[k] == '\0'
  }

  lemma HeldLine(out: seq<char>, maxlen: nat, line: seq<char>)
    requires Holds(out, maxlen, line)
    ensures |line| < maxlen <= |out| && out[|line|] == '\0'
    ensures forall k :: 0 <= k < |line| ==> out[k] == line[k]
  {
    assert forall k :: 0 <= k < |line| ==> out[..|line|][k] == out[k];
  }

  lemma NothingTyped(out: seq<char>, maxlen: nat)
    requires 1 <= maxlen <= |out| && forall k :: 0 <= k < maxlen ==> out[k] == '\0'
    ensures Holds(out, maxlen, Shown([])) && Cursor([]) == 0 && !StoresBelow([])
  {
  }

  lemma KeyTyped(out: seq<char>, maxlen: nat, keys: seq<char>, n: nat)
    requires n < |keys| && Holds(out, maxlen, Shown(keys[..n])) && Cursor(keys[..n]) < maxlen - 1
    ensures var at, next := Cursor(keys[..n]), Shown(keys[..n + 1]);
      if keys[n] == BACKSPACE then
        Cursor(keys[..n + 1]) == at - 1 && Holds(if at > 0 then out[at - 1 := '\0'] else out, maxlen, next)
      else
        Cursor(keys[..n + 1]) == at + 1 && Holds(if at >= 0 then out[at := keys[n]] else out, maxlen, next)
  {
    assert keys[..n + 1][..n] == keys[..n];
    HeldLine(out, maxlen, Shown(keys[..n]));
  }

  /** KiReadHidSN reads keys until the line ends or is full, and else goes on waiting for the next one; `keys` are what
      KiReadHidC returns, one after the other.  `below` reports a store in front of the buffer. */
  method KiReadHidSN(out: array<char>, maxlen: nat, keys: seq<char>)
    returns (result: nat, used: nat, ended: bool, below: bool)
    requires 1 <= maxlen <= out.Length
    modifies out
    ensures used <= |keys| && NoLineEndBefore(keys, used, maxlen - 1)
    ensures if ended then IsLineEnd(keys, used, maxlen - 1) else used == |keys| && !IsLineEnd(keys, used, maxlen - 1)
    ensures below <==> StoresBelow(keys[..used])
    ensures ended ==> result == |Shown(keys[..used])|
    ensures Holds(out[..], maxlen, Shown(keys[..used])) && out[maxlen..] == old(out[maxlen..])
    ensures !below ==> Shown(keys[..used]) == Edited(keys[..used])
    ensures forall k :: 0 <= k < used ==> keys[k] as int != 10 && keys[k] as int != 0
    ensures ended && Cursor(keys[..used]) < maxlen - 1 ==>
      used < |keys| && (keys[used] as int == 10 || keys[used] as int == 0)
  {
    hide Edited, Cursor, Shown, Holds, StoresBelow;
    for i := 0 to maxlen
      invariant forall k :: 0 <= k < i ==> out[k] == '\0'
      invariant out[maxlen..] == old(out[maxlen..])
    {
      out[i] := '\0';
    }
    var read: int := 0;
    result, used, ended, below := 0, 0, false, false;
    NothingTyped(out[..], maxlen);
    assert keys[..0] == [];
    while read < maxlen - 1 && !ended
      invariant used <= |keys| && NoLineEndBefore(keys, used, maxlen - 1)
      invariant read == Cursor(keys[..used]) <= maxlen - 1 && (below <==> StoresBelow(keys[..used]))
      invariant Holds(out[..], maxlen, Shown(keys[..used])) && out[maxlen..] == old(out[maxlen..])
      invariant ended ==> IsLineEnd(keys, used, maxlen - 1)
      decreases |keys| - used, !ended
    {
      if used == |keys| {
        NoKeyEndedTheLine(keys, used, maxlen - 1);
        if !below {
          ShownIsEdited(keys[..used]);
        }
        return;
      }
      var c := keys[used];
      if c == '\n' || c == '\0' {
        ended := true;
      } else {
        ghost var before := out[..];
        HeldLine(before, maxlen, Shown(keys[..used]));
        KeyTyped(before, maxlen, keys, used);
        OneMoreKey(keys, used);
        if c == BACKSPACE {
          read := read - 1;
          below := below || read < 0;
          if read >= 0 {
            out[read] := '\0';
          }
          assert out[..] == if read >= 0 then before[read := '\0'] else before;
        } else {
          below := below || read < 0;
          if read >= 0 {
            out[read] := c;
          }
          assert out[..] == if read >= 0 then before[read := c] else before;
          read := read + 1;
        }
        used := used + 1;
      }
    }
    ended := true;
    NoKeyEndedTheLine(keys, used, maxlen - 1);
    if !below {
      ShownIsEdited(keys[..used]);
    }
    ShownHasNoNul(keys, used, maxlen - 1);
    HeldLine(out[..], maxlen, Shown(keys[..used]));
    var length: nat := 0;
    while out[length] != '\0'
      invariant length <= |Shown(keys[..used])|
      decreases |Shown(keys[..used])| - length
    {
      length := length + 1;
    }
    result := if length != read then length else read;
  }

  /** A line that begins with a backspace loses the character typed next: it is stored in front of the buffer. */
  lemma BackspaceFirstLosesAKey()
    ensures var keys := [BACKSPACE, 'a'];
      StoresBelow(keys) && Shown(keys) == [] && Edited(keys) == ['a'] && Cursor(keys) == 0
  {
    var keys := [BACKSPACE, 'a'];
    assert keys[..1] == [BACKSPACE] && [BACKSPACE][..0] == [] && keys[..0] == [];
    assert keys[0] == BACKSPACE && Edited(keys[..0]) == [];
    assert Cursor([BACKSPACE]) == -1 && Shown([BACKSPACE]) == [] && Edited([BACKSPACE]) == [];
  }
}
