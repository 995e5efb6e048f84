/** The keyboard: a scancode state machine feeding a bounded buffer, and the line reader that empties it. */
module Keyboard {
  const BUFFER_SIZE: nat := 256
  const NEWLINE: nat := 10

  const KEY_EXTENDED: nat := 0xE0
  const KEY_BACKSPACE: nat := 0x0E
  const KEY_LCTRL: nat := 0x1D
  const KEY_LSHIFT: nat := 0x2A
  const KEY_RSHIFT: nat := 0x36
  const KEY_CAPSLOCK: nat := 0x3A

  // Character codes by scancode, one keyboard row after the other, without and with shift; later scancodes have none.
  const LOWER_DIGITS: seq<nat> := [0, 27, 49, 50, 51, 52, 53, 54, 55, 56, 57, 48, 45, 61, 8]
  const UPPER_DIGITS: seq<nat> := [0, 27, 33, 64, 35, 36, 37, 94, 38, 42, 40, 41, 95, 43, 8]
  const LOWER_TOP: seq<nat> := [9, 113, 119, 101, 114, 116, 121, 117, 105, 111, 112, 91, 93, 10]
  const UPPER_TOP: seq<nat> := [9, 81, 87, 69, 82, 84, 89, 85, 73, 79, 80, 123, 125, 10]
  const LOWER_HOME: seq<nat> := [0, 97, 115, 100, 102, 103, 104, 106, 107, 108, 59, 39, 96]
  const UPPER_HOME: seq<nat> := [0, 65, 83, 68, 70, 71, 72, 74, 75, 76, 58, 34, 126]
  const LOWER_BOTTOM: seq<nat> := [0, 92, 122, 120, 99, 118, 98, 110, 109, 44, 46, 47, 0]
  const UPPER_BOTTOM: seq<nat> := [0, 124, 90, 88, 67, 86, 66, 78, 77, 60, 62, 63, 0]
  const LOWER_SPACE: seq<nat> := [42, 0, 32]
  const UPPER_SPACE: seq<nat> := [42, 0, 32]

  /** Codes 0x80..0x83 stand for the arrow keys. */
  predicate IsArrow(c: nat) { 0x80 <= c <= 0x83 }

  function ArrowCode(key: nat): nat {
    if key == 0x48 then 0x80
    else if key == 0x50 then 0x81
    else if key == 0x4B then 0x82
    else if key == 0x4D then 0x83
    else 0
  }

  function ToAscii(key: nat, upper: bool): nat {
    if key < 15 then (if upper then UPPER_DIGITS else LOWER_DIGITS)[key]
    else if key < 29 then (if upper then UPPER_TOP else LOWER_TOP)[key - 15]
    else if key < 42 then (if upper then UPPER_HOME else LOWER_HOME)[key - 29]
    else if key < 55 then (if upper then UPPER_BOTTOM else LOWER_BOTTOM)[key - 42]
    else if key < 58 then (if upper then UPPER_SPACE else LOWER_SPACE)[key - 55]
    else 0
  }

  datatype Keys = Keys(shift: bool, ctrl: bool, caps: bool, extended: bool)

  /** What a scancode asks for; arrow keys are not echoed. */
  datatype Action = Nothing | Type(c: nat) | TypeSilently(c: nat) | Erase | ClearScreen

  /** keyboard_handle_scancode without its effect on the buffer. */
  function Decode(k: Keys, code: nat): (Keys, Action) {
    if code == KEY_EXTENDED then (k.(extended := true), Nothing)
    else
      var release, key := code / 128 % 2 == 1, code % 128;
      if k.extended then
        (k.(extended := false), if release || ArrowCode(key) == 0 then Nothing else TypeSilently(ArrowCode(key)))
      else if key == KEY_LSHIFT || key == KEY_RSHIFT then (k.(shift := !release), Nothing)
      else if key == KEY_LCTRL then (k.(ctrl := !release), Nothing)
      else if key == KEY_CAPSLOCK && !release then (k.(caps := !k.caps), Nothing)
      else if release then (k, Nothing)
      else if key == KEY_BACKSPACE then (k, Erase)
      else
        var c := ToAscii(key, k.shift != k.caps);
        if c == 0 then (k, Nothing)
        else if k.ctrl && (c == 108 || c == 76) then (k, ClearScreen)
        else (k, Type(c))
  }

  predicate IsAscii(c: nat) { 0 < c < 0x80 }

  const KEY_L: nat := 0x26

  /** c is what a key may stand for: ASCII, a backspace only on its key, an L only on the L key. */
  predicate Expected(key: nat, c: nat) {
    c < 0x80 && (c == 8 ==> key == KEY_BACKSPACE) && (c == 108 || c == 76 <==> key == KEY_L)
  }

  lemma LowerTable(key: nat)
    ensures Expected(key, ToAscii(key, false))
  {
  }

  lemma UpperTable(key: nat)
    ensures Expected(key, ToAscii(key, true))
  {
  }

  /** Only an extended key press types an arrow code; typed characters are ASCII and never a backspace; a
      release types nothing; the extended prefix lasts for one scancode; Ctrl-L clears. */
  lemma DecodeActions(k: Keys, code: nat)
    requires code < 256
    ensures var (k', a) := Decode(k, code);
            && (a.Type? ==> IsAscii(a.c) && a.c != 8 && !k.extended)
            && (a.TypeSilently? ==> IsArrow(a.c) && k.extended)
            && (code >= 0x80 ==> a == Nothing)
            && (a == Erase <==> code == KEY_BACKSPACE && !k.extended)
            && (a == ClearScreen <==> code == KEY_L && k.ctrl && !k.extended)
            && (k'.extended <==> code == KEY_EXTENDED)
  {
    hide ToAscii;
    LowerTable(code % 128);
    UpperTable(code % 128);
  }

  predicate IsShift(key: nat) { key == KEY_LSHIFT || key == KEY_RSHIFT }

  lemma DecodeFlags(k: Keys, code: nat)
    requires code < 256
    ensures var k' := Decode(k, code).0; var plain := !k.extended && code != KEY_EXTENDED; var key := code % 128;
            && k'.shift == (if plain && IsShift(key) then code < 0x80 else k.shift)
            && k'.ctrl == (if plain && key == KEY_LCTRL then code < 0x80 else k.ctrl)
            && k'.caps == (k.caps != (plain && code == KEY_CAPSLOCK))
            && k'.extended == (code == KEY_EXTENDED)
  {
    hide ToAscii;
  }

  /** The character printed on a key of an English keyboard, the lower or the upper one; 0 for keys without any. */
  function KeyChar(key: nat, upper: bool): nat {
    if key == 1 then 27
    else if 2 <= key < 14 then (if upper then "!@#$%^&*()_+" else "1234567890-=")[key - 2] as nat
    else if key == 15 then 9
    else if 16 <= key < 28 then (if upper then "QWERTYUIOP{}" else "qwertyuiop[]")[key - 16] as nat
    else if key == 28 then 10
    else if 30 <= key < 42 then (if upper then "ASDFGHJKL:\"~" else "asdfghjkl;'`")[key - 30] as nat
    else if 43 <= key < 54 then (if upper then "|ZXCVBNM<>?" else "\\zxcvbnm,./")[key - 43] as nat
    else if key == 55 then '*' as nat
    else if key == 57 then ' ' as nat
    else 0
  }

  lemma TablesAreRight(key: nat, upper: bool)
    requires key != KEY_BACKSPACE
    ensures ToAscii(key, upper) == KeyChar(key, upper)
  {
    hide ToAscii;
    if 2 <= key < 14 {
      DigitRow(key - 2);
    } else if 16 <= key < 28 {
      TopRow(key - 16);
    } else if 30 <= key < 42 {
      HomeRow(key - 30);
    } else if 43 <= key < 54 {
      BottomRow(key - 43);
    } else {
      OtherKeys(key, upper);
    }
  }

  lemma OtherKeys(key: nat, upper: bool)
    requires !(2 <= key < 15) && !(16 <= key < 28) && !(30 <= key < 42) && !(43 <= key < 54)
    ensures ToAscii(key, upper) == KeyChar(key, upper)
  {
  }

  /** What each key types, pressed outside an extended sequence: what is printed on it, the upper character when
      exactly one of shift and caps lock is on. Backspace erases, and Ctrl-L clears the screen. */
  lemma KeyTypes(k: Keys, code: nat)
    requires !k.extended && code < 128
    ensures var c := KeyChar(code, k.shift != k.caps);
            Decode(k, code).1 ==
            if code == 0x0E then Erase
            else if code == 0x26 && k.ctrl then ClearScreen
            else if c == 0 then Nothing
            else Type(c)
  {
    hide ToAscii, Decode, KeyChar;
    DecodePlain(k, code);
    LowerTable(code);
    UpperTable(code);
    if code != KEY_BACKSPACE {
      TablesAreRight(code, k.shift != k.caps);
    }
  }

  predicate IsModifier(key: nat) { IsShift(key) || key == KEY_LCTRL || key == KEY_CAPSLOCK }

  lemma DecodePlain(k: Keys, code: nat)
    requires !k.extended && code < 128
    ensures var c := ToAscii(code, k.shift != k.caps);
            && (IsModifier(code) ==> Decode(k, code).1 == Nothing && KeyChar(code, k.shift != k.caps) == 0)
            && (code == KEY_BACKSPACE ==> Decode(k, code).1 == Erase)
            && (!IsModifier(code) && code != KEY_BACKSPACE ==>
                  Decode(k, code).1 ==
                  if c == 0 then Nothing else if k.ctrl && (c == 108 || c == 76) then ClearScreen else Type(c))
  {
    hide ToAscii;
  }

  lemma DigitRow(i: nat)
    requires i < 12
    ensures ToAscii(i + 2, false) == "1234567890-="[i] as nat && ToAscii(i + 2, true) == "!@#$%^&*()_+"[i] as nat
  {
  }

  lemma TopRow(i: nat)
    requires i < 12
    ensures ToAscii(i + 16, false) == "qwertyuiop[]"[i] as nat && ToAscii(i + 16, true) == "QWERTYUIOP{}"[i] as nat
  {
  }

  lemma HomeRow(i: nat)
    requires i < 12
    ensures ToAscii(i + 30, false) == "asdfghjkl;'`"[i] as nat && ToAscii(i + 30, true) == "ASDFGHJKL:\"~"[i] as nat
  {
  }

  lemma BottomRow(i: nat)
    requires i < 11
    ensures ToAscii(i + 43, false) == "\\zxcvbnm,./"[i] as nat && ToAscii(i + 43, true) == "|ZXCVBNM<>?"[i] as nat
  {
  }

  /** After the extended prefix only the four arrow keys do something. */
  lemma ArrowKeys(k: Keys, code: nat)
    requires k.extended && code < 256 && code != KEY_EXTENDED
    ensures Decode(k, code).1 ==
            if code == 0x48 then TypeSilently(0x80)
            else if code == 0x50 then TypeSilently(0x81)
            else if code == 0x4B then TypeSilently(0x82)
            else if code == 0x4D then TypeSilently(0x83)
            else Nothing
  {
    hide ToAscii;
  }

  /** Shift and caps lock cancel each other out. */
  lemma ShiftCancelsCaps(k: Keys, code: nat)
    ensures Decode(k.(shift := !k.shift, caps := !k.caps), code).1 == Decode(k, code).1
  {
    hide ToAscii;
  }

  // ---------- The buffer as a bounded deque ----------

  function Push(pending: seq<nat>, c: nat): seq<nat> { if |pending| < BUFFER_SIZE then pending + [c] else pending }

  predicate CanErase(pending: seq<nat>) { pending != [] && pending[|pending| - 1] != NEWLINE }

  function EraseLast(pending: seq<nat>): seq<nat> {
    if CanErase(pending) then pending[..|pending| - 1] else pending
  }

  function Affect(pending: seq<nat>, a: Action): seq<nat> {
    match a
    case Type(c) => Push(pending, c)
    case TypeSilently(c) => Push(pending, c)
    case Erase => EraseLast(pending)
    case _ => pending
  }

  // ---------- Whole sessions ----------

  /** An accepted key or an accepted backspace. */
  datatype Entry = Key(c: nat) | Deletion

  datatype Reader = Resting | Reading(count: nat, got: seq<nat>)

  /** Key flags and buffer, everything popped so far, the accepted input, the reader, and the finished reads with the
      number of bytes asked for. */
  datatype Session = Session(
    keys: Keys, pending: seq<nat>, popped: seq<nat>, log: seq<Entry>, reader: Reader, asked: seq<nat>,
    results: seq<seq<nat>>)

  function Fresh(): Session { Session(Keys(false, false, false, false), [], [], [], Resting, [], []) }

  /** A scancode arrives, a console_read of `count` bytes starts, or the reader tries to pop once. */
  datatype Event = Scan(code: nat) | Begin(count: nat) | Poll

  function Logged(pending: seq<nat>, a: Action): seq<Entry> {
    match a
    case Type(c) => if |pending| < BUFFER_SIZE then [Key(c)] else []
    case TypeSilently(c) => if |pending| < BUFFER_SIZE then [Key(c)] else []
    case Erase => if CanErase(pending) then [Deletion] else []
    case _ => []
  }

  function Deliver(s: Session, c: nat): Session
    requires s.reader.Reading?
  {
    if IsArrow(c) then s
    else
      var got := s.reader.got + [c];
      if c == NEWLINE || |got| >= s.reader.count then
        s.(reader := Resting, asked := s.asked + [s.reader.count], results := s.results + [got])
      else s.(reader := s.reader.(got := got))
  }

  function Step(s: Session, e: Event): Session {
    match e
    case Scan(code) =>
      var (keys, a) := Decode(s.keys, code);
      s.(keys := keys, pending := Affect(s.pending, a), log := s.log + Logged(s.pending, a))
    case Begin(count) =>
      if s.reader != Resting then s
      else if count == 0 then s.(asked := s.asked + [0], results := s.results + [[]])
      else s.(reader := Reading(count, []))
    case Poll =>
      if s.reader == Resting || s.pending == [] then s
      else Deliver(s.(pending := s.pending[1..], popped := s.popped + [s.pending[0]]), s.pending[0])
  }

  function Run(s: Session, es: seq<Event>): Session
    decreases |es|
  {
    if es == [] then s else Run(Step(s, es[0]), es[1..])
  }

  /** A typed character enters the buffer exactly when fewer than 256 are pending; a backspace takes the last pending
      character away unless that is a newline; nothing else touches the buffer. */
  lemma ScanStep(s: Session, code: nat)
    ensures var s' := Step(s, Scan(code)); var a := Decode(s.keys, code).1; var n := |s.pending|;
            && s'.popped == s.popped && s'.reader == s.reader && s'.asked == s.asked && s'.results == s.results
            && (match a
                case Type(c) => s'.pending == if n < 256 then s.pending + [c] else s.pending
                case TypeSilently(c) => s'.pending == if n < 256 then s.pending + [c] else s.pending
                case Erase => s'.pending == if n > 0 && s.pending[n - 1] != 10 then s.pending[..n - 1] else s.pending
                case _ => s'.pending == s.pending)
            && s'.log ==
               s.log + (if |s'.pending| > n then [Key(s'.pending[n])] else if |s'.pending| < n then [Deletion] else [])
  {
    hide Decode;
  }

  /** A waiting reader takes the first pending character, and keeps it unless it is an arrow code. */
  lemma PollStep(s: Session)
    requires s.reader.Reading? && s.pending != []
    ensures var s' := Step(s, Poll); var c := s.pending[0];
            && s'.pending == s.pending[1..] && s'.popped == s.popped + [c]
            && Concat(s'.results) + Partial(s'.reader) ==
               Concat(s.results) + Partial(s.reader) + (if 0x80 <= c <= 0x83 then [] else [c])
            && (s'.reader == Resting <==> !(0x80 <= c <= 0x83) && (c == 10 || |s.reader.got| + 1 >= s.reader.count))
  {
    hide Concat;
    if !IsArrow(s.pending[0]) {
      ConcatNext(s.results, s.reader.got + [s.pending[0]]);
    }
  }

  // ---------- The unbounded reference ----------

  /** The text that an unbounded line editor makes of the accepted input. */
  function Replay(log: seq<Entry>): seq<nat> {
    if log == [] then []
    else
      var before := Replay(log[..|log| - 1]);
      match log[|log| - 1]
      case Key(c) => before + [c]
      case Deletion => if before == [] then [] else before[..|before| - 1]
  }

  function CountKeys(log: seq<Entry>, c: nat): nat {
    if log == [] then 0 else CountKeys(log[..|log| - 1], c) + if log[|log| - 1] == Key(c) then 1 else 0
  }

  function CountIn(s: seq<nat>, c: nat): nat {
    if s == [] then 0 else CountIn(s[..|s| - 1], c) + if s[|s| - 1] == c then 1 else 0
  }

  function WithoutArrows(s: seq<nat>): seq<nat> {
    if s == [] then [] else WithoutArrows(s[..|s| - 1]) + if IsArrow(s[|s| - 1]) then [] else [s[|s| - 1]]
  }

  function Concat(rs: seq<seq<nat>>): seq<nat> {
    if rs == [] then [] else Concat(rs[..|rs| - 1]) + rs[|rs| - 1]
  }

  /** A line: at most one newline, and only at the end. */
  predicate IsLine(s: seq<nat>) { forall i :: 0 <= i < |s| - 1 ==> s[i] != NEWLINE }

  /** What a read of `count` bytes may return: a line that is complete or has exactly that many bytes. */
  predicate Answers(count: nat, r: seq<nat>) {
    IsLine(r) && |r| <= count && (|r| == count || (r != [] && r[|r| - 1] == NEWLINE))
  }

  function Partial(r: Reader): seq<nat> { if r.Resting? then [] else r.got }

  ghost predicate Inv(s: Session) {
    && |s.pending| <= BUFFER_SIZE
    && s.popped + s.pending == Replay(s.log)
    && CountIn(Replay(s.log), NEWLINE) == CountKeys(s.log, NEWLINE)
    && Concat(s.results) + Partial(s.reader) == WithoutArrows(s.popped)
    && |s.asked| == |s.results| && (forall i :: 0 <= i < |s.results| ==> Answers(s.asked[i], s.results[i]))
    && (s.reader.Reading? ==> |s.reader.got| < s.reader.count && NEWLINE !in s.reader.got)
  }

  lemma ReplayNext(log: seq<Entry>, e: Entry)
    ensures var text := Replay(log);
            Replay(log + [e]) == match e
                                 case Key(c) => text + [c]
                                 case Deletion => if text == [] then [] else text[..|text| - 1]
    ensures CountKeys(log + [e], NEWLINE) == CountKeys(log, NEWLINE) + if e == Key(NEWLINE) then 1 else 0
  {
    assert (log + [e])[..|log|] == log;
  }

  lemma CountInNext(s: seq<nat>, c: nat, x: nat)
    ensures CountIn(s + [c], x) == CountIn(s, x) + if c == x then 1 else 0
  {
    assert (s + [c])[..|s|] == s;
  }

  lemma LogGrows(s: Session, a: Action)
    requires Inv(s)
    ensures var pending := Affect(s.pending, a); var log := s.log + Logged(s.pending, a);
            && |pending| <= BUFFER_SIZE && s.popped + pending == Replay(log)
            && CountIn(Replay(log), NEWLINE) == CountKeys(log, NEWLINE)
  {
    hide Replay, CountIn, CountKeys, Concat, WithoutArrows, IsLine;
    var added := Logged(s.pending, a);
    var text := Replay(s.log);
    if added == [] {
      assert s.log + added == s.log;
    } else {
      ReplayNext(s.log, added[0]);
      assert added == [added[0]];
      if added[0].Deletion? {
        var n := |s.pending| - 1;
        var kept := s.popped + s.pending[..n];
        assert text == kept + [s.pending[n]];
        assert text[..|text| - 1] == kept;
        CountInNext(kept, s.pending[n], NEWLINE);
      } else {
        assert s.popped + (s.pending + [added[0].c]) == text + [added[0].c];
        CountInNext(text, added[0].c, NEWLINE);
      }
    }
  }

  lemma ConcatNext(rs: seq<seq<nat>>, r: seq<nat>)
    ensures Concat(rs + [r]) == Concat(rs) + r
  {
    assert (rs + [r])[..|rs|] == rs;
  }

  lemma WithoutArrowsNext(s: seq<nat>, c: nat)
    ensures WithoutArrows(s + [c]) == WithoutArrows(s) + if IsArrow(c) then [] else [c]
  {
    assert (s + [c])[..|s|] == s;
  }

  lemma PollKeepsInv(s: Session)
    requires Inv(s) && s.reader.Reading? && s.pending != []
    ensures Inv(Step(s, Poll))
  {
    hide Replay, CountIn, CountKeys, Concat, WithoutArrows, IsArrow;
    var c := s.pending[0];
    var popped := s.popped + [c];
    var s' := Step(s, Poll);
    assert popped + s.pending[1..] == s.popped + s.pending;
    WithoutArrowsNext(s.popped, c);
    if IsArrow(c) {
      assert WithoutArrows(popped) == WithoutArrows(s.popped);
    } else {
      var got := s.reader.got + [c];
      assert Concat(s.results) + got == Concat(s.results) + s.reader.got + [c];
      ConcatNext(s.results, got);
      assert IsLine(got);
      assert s'.reader == Resting ==> Answers(s.reader.count, got);
      assert s'.reader == Resting ==> Concat(s'.results) + [] == Concat(s'.results);
    }
  }

  lemma StepKeepsInv(s: Session, e: Event)
    requires Inv(s)
    ensures Inv(Step(s, e))
  {
    hide Decode;
    match e
    case Scan(code) => LogGrows(s, Decode(s.keys, code).1);
    case Begin(count) =>
      if s.reader == Resting && count == 0 {
        assert (s.results + [[]])[..|s.results|] == s.results;
      }
    case Poll =>
      if s.reader.Reading? && s.pending != [] {
        PollKeepsInv(s);
      }
  }

  lemma {:induction false} RunsKeepInv(s: Session, es: seq<Event>)
    requires Inv(s)
    ensures Inv(Run(s, es))
    decreases |es|
  {
    hide Inv, Step;
    if es != [] {
      StepKeepsInv(s, es[0]);
      RunsKeepInv(Step(s, es[0]), es[1..]);
    }
  }

  // ---------- The flags over whole sessions ----------

  function Codes(es: seq<Event>): seq<nat>
    decreases |es|
  {
    if es == [] then [] else (if es[0].Scan? then [es[0].code] else []) + Codes(es[1..])
  }

  function KeysAfter(k: Keys, codes: seq<nat>): Keys
    decreases |codes|
  {
    if codes == [] then k else KeysAfter(Decode(k, codes[0]).0, codes[1..])
  }

  /** Reads in between leave the flags alone. */
  lemma {:induction false} KeysOfRun(s: Session, es: seq<Event>)
    ensures Run(s, es).keys == KeysAfter(s.keys, Codes(es))
    decreases |es|
  {
    hide Decode;
    if es != [] {
      KeysOfRun(Step(s, es[0]), es[1..]);
      if es[0].Scan? {
        assert Codes(es)[1..] == Codes(es[1..]);
      } else {
        assert Codes(es) == Codes(es[1..]);
      }
    }
  }

  /** Scancode i stands for itself: it is no extended prefix and none comes right before it. */
  predicate IsPlain(codes: seq<nat>, i: nat)
    requires i < |codes|
  {
    codes[i] != KEY_EXTENDED && (i > 0 ==> codes[i - 1] != KEY_EXTENDED)
  }

  predicate IsKeyEvent(codes: seq<nat>, i: nat, shift: bool)
    requires i < |codes|
  {
    IsPlain(codes, i) && (if shift then IsShift(codes[i] % 128) else codes[i] % 128 == KEY_LCTRL)
  }

  /** The last event of the shift keys (or of control), or -1. */
  function LastEvent(codes: seq<nat>, n: nat, shift: bool): (i: int)
    requires n <= |codes|
    ensures -1 <= i < n && (i >= 0 ==> IsKeyEvent(codes, i, shift))
    ensures forall j :: i < j < n ==> !IsKeyEvent(codes, j, shift)
  {
    if n == 0 then -1 else if IsKeyEvent(codes, n - 1, shift) then n - 1 else LastEvent(codes, n - 1, shift)
  }

  /** How often caps lock has been pressed. */
  function CapsPresses(codes: seq<nat>, n: nat): nat
    requires n <= |codes|
  {
    if n == 0 then 0
    else CapsPresses(codes, n - 1) + if IsPlain(codes, n - 1) && codes[n - 1] == KEY_CAPSLOCK then 1 else 0
  }

  predicate IsPress(codes: seq<nat>, i: int)
    requires i < |codes|
  {
    i >= 0 && codes[i] < 0x80
  }

  lemma {:induction false} KeysAfterNext(k: Keys, codes: seq<nat>, c: nat)
    ensures KeysAfter(k, codes + [c]) == Decode(KeysAfter(k, codes), c).0
    decreases |codes|
  {
    hide Decode;
    if codes == [] {
      assert codes + [c] == [c] && [c][1..] == [];
      assert KeysAfter(k, [c]) == KeysAfter(Decode(k, c).0, []);
    } else {
      assert (codes + [c])[0] == codes[0] && (codes + [c])[1..] == codes[1..] + [c];
      KeysAfterNext(Decode(k, codes[0]).0, codes[1..], c);
    }
  }

  lemma {:induction false} FlagsAfter(codes: seq<nat>, n: nat)
    requires n <= |codes| && forall i :: 0 <= i < |codes| ==> codes[i] < 256
    ensures var k := KeysAfter(Fresh().keys, codes[..n]);
            && k.shift == IsPress(codes, LastEvent(codes, n, true))
            && k.ctrl == IsPress(codes, LastEvent(codes, n, false))
            && k.caps == (CapsPresses(codes, n) % 2 == 1)
            && k.extended == (n > 0 && codes[n - 1] == KEY_EXTENDED)
  {
    hide Decode, KeysAfter;
    if n == 0 {
      assert codes[..0] == [];
      NoKeys(Fresh().keys);
    } else {
      FlagsAfter(codes, n - 1);
      assert codes[..n] == codes[..n - 1] + [codes[n - 1]];
      KeysAfterNext(Fresh().keys, codes[..n - 1], codes[n - 1]);
      DecodeFlags(KeysAfter(Fresh().keys, codes[..n - 1]), codes[n - 1]);
    }
  }

  lemma NoKeys(k: Keys)
    ensures KeysAfter(k, []) == k
  {
  }

  /** In every session: shift and control are on exactly when the last event of their keys outside extended
      sequences was a press, and caps lock exactly after an odd number of presses. */
  lemma FlagsFollowKeys(es: seq<Event>)
    requires forall i :: 0 <= i < |Codes(es)| ==> Codes(es)[i] < 256
    ensures var k := Run(Fresh(), es).keys; var codes := Codes(es);
            && k.shift == IsPress(codes, LastEvent(codes, |codes|, true))
            && k.ctrl == IsPress(codes, LastEvent(codes, |codes|, false))
            && k.caps == (CapsPresses(codes, |codes|) % 2 == 1)
            && k.extended == (codes != [] && codes[|codes| - 1] == KEY_EXTENDED)
  {
    hide Run, KeysAfter, Codes;
    KeysOfRun(Fresh(), es);
    assert Codes(es)[..|Codes(es)|] == Codes(es);
    FlagsAfter(Codes(es), |Codes(es)|);
  }

  /** Buffer and results hold only what can be typed, and the results no arrow codes. */
  ghost predicate Plain(s: Session) {
    && (forall c :: c in s.pending ==> IsAscii(c) || IsArrow(c))
    && (forall r, c :: r in s.results && c in r ==> IsAscii(c))
    && (forall c :: c in Partial(s.reader) ==> IsAscii(c))
  }

  lemma StepStaysPlain(s: Session, e: Event)
    requires Plain(s) && (e.Scan? ==> e.code < 256)
    ensures Plain(Step(s, e))
  {
    hide Decode;
    match e
    case Scan(code) => DecodeActions(s.keys, code);
    case Begin(count) =>
    case Poll =>
      if s.reader.Reading? && s.pending != [] {
        assert s.pending[0] in s.pending;
      }
  }

  /** Whatever scancodes arrive, console_read only ever returns ASCII characters. */
  lemma {:induction false} ResultsAreAscii(s: Session, es: seq<Event>)
    requires Plain(s) && forall e :: e in es && e.Scan? ==> e.code < 256
    ensures Plain(Run(s, es))
    decreases |es|
  {
    hide Plain, Step;
    if es != [] {
      StepStaysPlain(s, es[0]);
      ResultsAreAscii(Step(s, es[0]), es[1..]);
    }
  }

  /** For every interleaving of scancodes and reads: what has been popped followed by what is pending is the
      accepted input minus exactly the deleted characters, no accepted newline is ever lost, and the results of
      console_read together are the popped characters without arrow codes, each a line that is complete or has
      exactly the number of bytes asked for. */
  lemma Sessions(es: seq<Event>)
    ensures var s := Run(Fresh(), es);
            && |s.pending| <= BUFFER_SIZE
            && s.popped + s.pending == Replay(s.log)
            && CountIn(s.popped + s.pending, NEWLINE) == CountKeys(s.log, NEWLINE)
            && Concat(s.results) + Partial(s.reader) == WithoutArrows(s.popped)
            && |s.asked| == |s.results| && (forall i :: 0 <= i < |s.results| ==> Answers(s.asked[i], s.results[i]))
  {
    hide Run;
    RunsKeepInv(Fresh(), es);
  }

  // ---------- The ring buffer and the driver ----------

  function Wrap(i: nat): (w: nat)
    ensures w < BUFFER_SIZE
  {
    i % BUFFER_SIZE
  }

  ghost function RingContents(buffer: seq<nat>, tail: nat, count: nat): (c: seq<nat>)
    requires |buffer| == BUFFER_SIZE
    ensures |c| == count && forall i :: 0 <= i < count ==> c[i] == buffer[Wrap(tail + i)]
  {
    seq(count, i requires 0 <= i < count => buffer[Wrap(tail + i)])
  }

  lemma WrapDistinct(tail: nat, i: nat, j: nat)
    requires i < j < BUFFER_SIZE
    ensures Wrap(tail + i) != Wrap(tail + j)
  {
  }

  lemma WrapWraps(tail: nat, i: nat)
    ensures Wrap(Wrap(tail + 1) + i) == Wrap(tail + (i + 1))
  {
  }

  lemma PushRefines(buffer: seq<nat>, tail: nat, count: nat, c: nat)
    requires |buffer| == BUFFER_SIZE && tail < BUFFER_SIZE && count < BUFFER_SIZE
    ensures RingContents(buffer[Wrap(tail + count) := c], tail, count + 1) == RingContents(buffer, tail, count) + [c]
  {
    var before, after := RingContents(buffer, tail, count), RingContents(buffer[Wrap(tail + count) := c], tail, count + 1);
    forall i | 0 <= i < count ensures after[i] == before[i] {
      WrapDistinct(tail, i, count);
    }
  }

  lemma PopRefines(buffer: seq<nat>, tail: nat, count: nat)
    requires |buffer| == BUFFER_SIZE && tail < BUFFER_SIZE && 0 < count <= BUFFER_SIZE
    ensures RingContents(buffer, Wrap(tail + 1), count - 1) == RingContents(buffer, tail, count)[1..]
    ensures Wrap(Wrap(tail + 1) + (count - 1)) == Wrap(tail + count)
  {
    var before, after := RingContents(buffer, tail, count), RingContents(buffer, Wrap(tail + 1), count - 1);
    forall i | 0 <= i < count - 1 ensures after[i] == before[i + 1] {
      WrapWraps(tail, i);
    }
    WrapWraps(tail, count - 1);
  }

  class KeyboardDriver {
    const buffer: array<nat>
    var head: nat
    var tail: nat
    var count: nat
    var keys: Keys

    ghost predicate Valid()
      reads this
    {
      buffer.Length == BUFFER_SIZE && tail < BUFFER_SIZE && count <= BUFFER_SIZE && head == Wrap(tail + count)
    }

    ghost function Contents(): seq<nat>
      requires Valid()
      reads this, buffer
    {
      RingContents(buffer[..], tail, count)
    }

    constructor ()
      ensures Valid() && Contents() == [] && keys == Fresh().keys && fresh(buffer)
    {
      buffer := new nat[BUFFER_SIZE];
      head, tail, count := 0, 0, 0;
      keys := Keys(false, false, false, false);
    }

    method PushChar(c: nat) returns (ok: bool)
      requires Valid()
      modifies this, buffer
      ensures Valid() && keys == old(keys)
      ensures Contents() == Push(old(Contents()), c) && ok == (|old(Contents())| < BUFFER_SIZE)
    {
      ok := false;
      if count < BUFFER_SIZE {
        PushRefines(buffer[..], tail, count, c);
        ghost var before := buffer[..];
        buffer[head] := c;
        assert buffer[..] == before[head := c];
        head := (head + 1) % BUFFER_SIZE;
        count := count + 1;
        ok := true;
      }
    }

    method PopChar() returns (ok: bool, c: nat)
      requires Valid()
      modifies `tail, `count
      ensures Valid()
      ensures ok == (old(Contents()) != [])
      ensures Contents() == if ok then old(Contents())[1..] else old(Contents())
      ensures ok ==> c == old(Contents())[0]
    {
      ok, c := false, 0;
      if count > 0 {
        PopRefines(buffer[..], tail, count);
        c := buffer[tail];
        tail := (tail + 1) % BUFFER_SIZE;
        count := count - 1;
        ok := true;
      }
    }

    method Backspace() returns (ok: bool)
      requires Valid()
      modifies `head, `count
      ensures Valid()
      ensures ok == CanErase(old(Contents())) && Contents() == EraseLast(old(Contents()))
    {
      ok := false;
      if count > 0 {
        var last := (head + BUFFER_SIZE - 1) % BUFFER_SIZE;
        assert last == Wrap(tail + (count - 1));
        if buffer[last] != NEWLINE {
          head := last;
          count := count - 1;
          ok := true;
        }
      }
    }

    /** keyboard_handle_scancode; the result says what the console is asked to do. */
    method HandleScancode(code: nat) returns (echo: Action)
      requires Valid()
      modifies this, buffer
      ensures Valid()
      ensures var (k, a) := Decode(old(keys), code);
              && keys == k && Contents() == Affect(old(Contents()), a)
              && echo == match a
                         case Type(_) => if |old(Contents())| < BUFFER_SIZE then a else Nothing
                         case Erase => if CanErase(old(Contents())) then a else Nothing
                         case ClearScreen => a
                         case _ => Nothing
    {
      hide ToAscii, RingContents;
      if code == KEY_EXTENDED {
        keys := keys.(extended := true);
        return Nothing;
      }
      var release := code / 128 % 2 == 1;
      var key := code % 128;
      if keys.extended {
        keys := keys.(extended := false);
        if !release && ArrowCode(key) != 0 {
          var _ := PushChar(ArrowCode(key));
        }
        return Nothing;
      }
      if key == KEY_LSHIFT || key == KEY_RSHIFT {
        keys := keys.(shift := !release);
        return Nothing;
      }
      if key == KEY_LCTRL {
        keys := keys.(ctrl := !release);
        return Nothing;
      }
      if key == KEY_CAPSLOCK && !release {
        keys := keys.(caps := !keys.caps);
        return Nothing;
      }
      if release {
        return Nothing;
      }
      if key == KEY_BACKSPACE {
        var ok := Backspace();
        return if ok then Erase else Nothing;
      }
      var c := ToAscii(key, keys.shift != keys.caps);
      if c == 0 {
        return Nothing;
      }
      if keys.ctrl && (c == 108 || c == 76) {
        return ClearScreen;
      }
      var ok := PushChar(c);
      echo := if ok then Type(c) else Nothing;
    }

    /** The keyboard interrupts that come in between two steps of the reader. */
    method TakeInterrupts(codes: seq<nat>, ghost s: Session)
      requires Valid() && s.keys == keys && s.pending == Contents()
      modifies this, buffer
      ensures Valid()
      ensures var s' := Run(s, Scans(codes));
              && s'.keys == keys && s'.pending == Contents()
              && s'.reader == s.reader && s'.asked == s.asked && s'.results == s.results
    {
      hide Decode, RingContents;
      ghost var now := s;
      for i := 0 to |codes|
        invariant Valid() && now == Run(s, Scans(codes[..i]))
        invariant now.keys == keys && now.pending == Contents()
        invariant now.reader == s.reader && now.asked == s.asked && now.results == s.results
      {
        assert Scans(codes[..i + 1]) == Scans(codes[..i]) + [Scan(codes[i])];
        RunNext(s, Scans(codes[..i]), Scan(codes[i]));
        now := Step(now, Scan(codes[i]));
        var _ := HandleScancode(codes[i]);
      }
      assert codes[..|codes|] == codes;
    }

    /** console_read, with the scancodes of arriving[i] handled by interrupts before its i-th attempt to pop. It
        either returns or is still waiting on an empty buffer when no more arrive; what happened is one of the
        session runs above. */
    method ConsoleRead(count: nat, arriving: seq<seq<nat>>) returns (done: bool, line: seq<nat>, ghost es: seq<Event>)
      requires Valid()
      modifies this, buffer
      ensures Valid()
      ensures |line| <= count && es != [] && es[0] == Begin(count)
      ensures IsLine(line) && (done ==> Answers(count, line)) && (!done ==> |line| < count && NEWLINE !in line)
      ensures var s := Run(Session(old(keys), old(Contents()), [], [], Resting, [], []), es);
              && s.keys == keys && s.pending == Contents()
              && (if done then s.results == [line] && s.reader == Resting
                  else s.results == [] && s.reader == Reading(count, line) && s.pending == [])
    {
      hide Decode, RingContents, Run;
      line, es := [], [Begin(count)];
      ghost var s0 := Session(keys, Contents(), [], [], Resting, [], []);
      ghost var s := Step(s0, Begin(count));
      RunOne(s0, Begin(count));
      var used := 0;
      while |line| < count
        invariant Valid() && used <= |arriving|
        invariant s == Run(s0, es) && es != [] && es[0] == Begin(count)
        invariant s.keys == keys && s.pending == Contents() && s.results == (if count == 0 then [[]] else [])
        invariant count == 0 ==> s.reader == Resting && line == []
        invariant count > 0 ==> s.reader == Reading(count, line)
        invariant |line| <= count && (count > 0 ==> |line| < count) && NEWLINE !in line
        decreases |arriving| - used, this.count
      {
        var waiting := used == |arriving|;
        if !waiting {
          TakeInterrupts(arriving[used], s);
          RunConcat(s0, es, Scans(arriving[used]));
          s := Run(s, Scans(arriving[used]));
          es := es + Scans(arriving[used]);
          used := used + 1;
        }
        var ok, c := PopChar();
        if ok {
          RunNext(s0, es, Poll);
          es := es + [Poll];
          s := Step(s, Poll);
          if !IsArrow(c) {
            line := line + [c];
            if c == NEWLINE || |line| == count {
              return true, line, es;
            }
          }
        } else if waiting {
          return false, line, es;
        }
      }
      done := true;
    }
  }

  function Scans(codes: seq<nat>): (es: seq<Event>)
    ensures |es| == |codes| && forall i :: 0 <= i < |codes| ==> es[i] == Scan(codes[i])
  {
    seq(|codes|, i requires 0 <= i < |codes| => Scan(codes[i]))
  }

  lemma {:induction false} RunConcat(s: Session, es: seq<Event>, fs: seq<Event>)
    ensures Run(s, es + fs) == Run(Run(s, es), fs)
    decreases |es|
  {
    hide Step;
    if es != [] {
      assert (es + fs)[0] == es[0] && (es + fs)[1..] == es[1..] + fs;
      RunConcat(Step(s, es[0]), es[1..], fs);
    } else {
      assert es + fs == fs;
    }
  }

  lemma {:induction false} RunNext(s: Session, es: seq<Event>, e: Event)
    ensures Run(s, es + [e]) == Step(Run(s, es), e)
    decreases |es|
  {
    hide Step;
    if es != [] {
      assert (es + [e])[0] == es[0] && (es + [e])[1..] == es[1..] + [e];
      RunNext(Step(s, es[0]), es[1..], e);
    } else {
      assert es + [e] == [e];
      RunOne(s, e);
    }
  }

  lemma RunOne(s: Session, e: Event)
    ensures Run(s, [e]) == Step(s, e)
  {
    assert [e][1..] == [];
    assert Run(Step(s, e), []) == Step(s, e);
  }
}
