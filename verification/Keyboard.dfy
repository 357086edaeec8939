/** The PS/2 keyboard byte machine (kernel/devices/ps2/src/ps2_keyboard_sm.cpp, ps2_keyboard_sm.hpp). */
module Keyboards {
  import opened Keys

  datatype State = Wait | Pressed | Released | Print | Error

  /** The machine: current state, which keys are recorded as pressed, and the text printed so far. */
  datatype Machine = Machine(state: State, pressed: seq<bool>, text: seq<nat>) {
    ghost predicate Valid() {
      |pressed| == KEY_MAX
    }
  }

  /** What the print state does with the keys from `k` on: print and clear every pressed printable one. */
  ghost function PrintFrom(m: Machine, shift: bool, k: nat): (r: Machine)
    requires m.Valid() && k <= KEY_MAX
    ensures r.Valid() && r.state == m.state
    decreases KEY_MAX - k
  {
    if k == KEY_MAX then m
    else if m.pressed[k] && ToPrintable(k) != 0 then
      PrintFrom(Machine(m.state, m.pressed[k := false], m.text + [Symbol(k, shift)]), shift, k + 1)
    else PrintFrom(m, shift, k + 1)
  }

  /** One call of the current state's `handle_byte`: the machine after it, and whether it is done. */
  ghost function Dispatch(m: Machine, byte: nat): (r: (Machine, bool))
    requires m.Valid()
    ensures r.0.Valid()
  {
    var key := Translate(byte);
    match m.state
    case Wait =>
      if byte == RELEASE_BYTE then (m.(state := Released), false)
      else if key != KEY_NONE then (m.(state := Pressed), false)
      else (m.(state := Error), false)
    case Pressed =>
      if key == KEY_NONE then (m, false)
      else if !m.pressed[key] then (Machine(Print, m.pressed[key := true], m.text), false)
      else (m.(state := Wait), false)
    case Released =>
      if byte == RELEASE_BYTE then (m.(state := Released), true)
      else if key != KEY_NONE then (Machine(Wait, m.pressed[key := false], m.text), true)
      else (m.(state := Error), false)
    case Print => (PrintFrom(m, m.pressed[KEY_LSHIFT], 0).(state := Wait), true)
    case Error => (m.(state := Wait), true)
  }

  /** The machine after `n` dispatches of the same byte. */
  ghost function Dispatched(m: Machine, byte: nat, n: nat): (r: Machine)
    requires m.Valid()
    ensures r.Valid()
  {
    if n == 0 then m else Dispatch(Dispatched(m, byte, n - 1), byte).0
  }

  /** The loop over one byte ends with dispatch number `n`. */
  ghost predicate EndsAfter(m: Machine, byte: nat, n: nat)
    requires m.Valid()
  {
    && n > 0
    && Dispatch(Dispatched(m, byte, n - 1), byte).1
    && forall i: nat :: i < n - 1 ==> !Dispatch(Dispatched(m, byte, i), byte).1
  }

  /** Between bytes: waiting, or behind a release prefix; no printable key is recorded as pressed. */
  ghost predicate Settled(m: Machine) {
    && m.Valid()
    && (m.state == Wait || m.state == Released)
    && forall k :: 0 <= k < KEY_MAX && m.pressed[k] ==> ToPrintable(k) == 0
  }

  /** The make code of a key that is still recorded as pressed. */
  ghost predicate Repeats(m: Machine, byte: nat)
    requires m.Valid()
  {
    m.state == Wait && Translate(byte) != KEY_NONE && m.pressed[Translate(byte)]
  }

  /** Such a byte bounces between two states for ever. */
  lemma {:induction false} BouncesForever(m: Machine, byte: nat, n: nat)
    requires m.Valid() && Repeats(m, byte)
    ensures Dispatched(m, byte, n) == m.(state := if n % 2 == 0 then Wait else Pressed)
    ensures !Dispatch(Dispatched(m, byte, n), byte).1
  {
    if n > 0 {
      BouncesForever(m, byte, n - 1);
    }
  }

  lemma {:induction false} PrintsNothing(m: Machine, shift: bool, k: nat)
    requires m.Valid() && k <= KEY_MAX && forall i :: k <= i < KEY_MAX && m.pressed[i] ==> ToPrintable(i) == 0
    ensures PrintFrom(m, shift, k) == m
    decreases KEY_MAX - k
  {
    if k < KEY_MAX {
      PrintsNothing(m, shift, k + 1);
    }
  }

  lemma {:induction false} PrintsOne(m: Machine, shift: bool, p: nat, k: nat)
    requires m.Valid() && k <= p < KEY_MAX && m.pressed[p] && ToPrintable(p) != 0
    requires forall i :: 0 <= i < KEY_MAX && i != p && m.pressed[i] ==> ToPrintable(i) == 0
    ensures PrintFrom(m, shift, k) == Machine(m.state, m.pressed[p := false], m.text + [Symbol(p, shift)])
    decreases p - k
  {
    if k < p {
      PrintsOne(m, shift, p, k + 1);
    } else {
      PrintsNothing(Machine(m.state, m.pressed[p := false], m.text + [Symbol(p, shift)]), shift, k + 1);
    }
  }

  // ----- the two-state decoder -------------------------------------------------

  /** Waiting for the code behind a release prefix or not, left shift held or not, and the text so far. */
  datatype Decoder = Decoder(releasing: bool, shift: bool, text: seq<nat>)

  /** 0xf0 is the release prefix and 0x12 the left shift; the layout says what the other codes type. */
  ghost function Decode(d: Decoder, byte: nat): Decoder {
    if byte == 0xf0 then d.(releasing := true)
    else if d.releasing then Decoder(false, d.shift && byte != 0x12, d.text)
    else if byte == 0x12 then d.(shift := true)
    else if Typed(byte).0 == '\0' then d
    else d.(text := d.text + [(if d.shift then Typed(byte).1 else Typed(byte).0) as nat])
  }

  /** The decoder in terms of keys and their symbols. */
  lemma DecodeKey(d: Decoder, byte: nat)
    ensures var key := Translate(byte);
      Decode(d, byte) ==
        if byte == RELEASE_BYTE then d.(releasing := true)
        else if d.releasing then Decoder(false, d.shift && key != KEY_LSHIFT, d.text)
        else if ToPrintable(key) != 0 then d.(text := d.text + [Symbol(key, d.shift)])
        else d.(shift := d.shift || key == KEY_LSHIFT)
  {
    TypedPlain(byte);
    TypedShifted(byte);
    ShiftCode(byte);
    hide Translate, ToPrintable, ApplyLshift, Typed;
  }

  ghost function Abstract(m: Machine): Decoder
    requires m.Valid()
  {
    Decoder(m.state == Released, m.pressed[KEY_LSHIFT], m.text)
  }

  /** A make code of a key that is not recorded as pressed: three dispatches. */
  lemma MakeCodeRuns(m: Machine, byte: nat)
    requires Settled(m) && m.state == Wait && Translate(byte) != KEY_NONE && !m.pressed[Translate(byte)]
    ensures EndsAfter(m, byte, 3)
    ensures var key := Translate(byte);
      Dispatched(m, byte, 3) ==
        Machine(Wait, m.pressed[key := ToPrintable(key) == 0],
                if ToPrintable(key) == 0 then m.text else m.text + [Symbol(key, m.pressed[KEY_LSHIFT])])
  {
    hide Translate, ToPrintable, Symbol;
    var key := Translate(byte);
    var m1 := Dispatched(m, byte, 1);
    var m2 := Dispatched(m, byte, 2);
    assert Dispatched(m, byte, 0) == m;
    assert m1 == m.(state := Pressed);
    assert m2 == Machine(Print, m.pressed[key := true], m.text);
    if ToPrintable(key) != 0 {
      PrintsOne(m2, m2.pressed[KEY_LSHIFT], key, 0);
    } else {
      PrintsNothing(m2, m2.pressed[KEY_LSHIFT], 0);
    }
  }

  lemma MakeCode(m: Machine, byte: nat)
    requires Settled(m) && m.state == Wait && Translate(byte) != KEY_NONE && !m.pressed[Translate(byte)]
    ensures EndsAfter(m, byte, 3) && Settled(Dispatched(m, byte, 3))
    ensures Dispatched(m, byte, 3).pressed == m.pressed[Translate(byte) := ToPrintable(Translate(byte)) == 0]
    ensures Abstract(Dispatched(m, byte, 3)) == Decode(Abstract(m), byte)
  {
    hide Translate, ToPrintable, Symbol, Typed, Decode, Dispatch, Dispatched, EndsAfter;
    MakeCodeRuns(m, byte);
    DecodeKey(Abstract(m), byte);
  }

  /** How many dispatches a byte takes. */
  ghost function Dispatches(m: Machine, byte: nat): nat {
    if m.state == Released && (byte == RELEASE_BYTE || Translate(byte) != KEY_NONE) then 1
    else if m.state == Wait && Translate(byte) != KEY_NONE then 3
    else 2
  }

  /** Any other byte: at most two dispatches. */
  lemma OtherCode(m: Machine, byte: nat)
    requires Settled(m) && (m.state == Released || Translate(byte) == KEY_NONE)
    ensures var n := Dispatches(m, byte);
      && EndsAfter(m, byte, n) && Settled(Dispatched(m, byte, n))
      && Dispatched(m, byte, n).pressed == (if Translate(byte) == KEY_NONE then m.pressed
                                            else m.pressed[Translate(byte) := false])
      && Abstract(Dispatched(m, byte, n)) == Decode(Abstract(m), byte)
  {
    hide Translate, ToPrintable, Symbol, Typed, Decode;
    DecodeKey(Abstract(m), byte);
    assert Dispatched(m, byte, 0) == m;
    assert Dispatched(m, byte, 1) == Dispatch(m, byte).0;
    assert Dispatched(m, byte, 2) == Dispatch(Dispatched(m, byte, 1), byte).0;
  }

  /**
   * The loop over a byte ends if and only if the byte does not repeat a key recorded as pressed; then it ends
   * within three dispatches, in a settled machine, having done what the decoder does.
   */
  lemma HandledLikeDecoder(m: Machine, byte: nat)
    requires Settled(m)
    ensures (exists n: nat :: EndsAfter(m, byte, n)) <==> !Repeats(m, byte)
    ensures !Repeats(m, byte) ==> Dispatches(m, byte) <= 3 && EndsAfter(m, byte, Dispatches(m, byte))
    ensures !Repeats(m, byte) ==> Settled(Handled(m, byte)) && Abstract(Handled(m, byte)) == Decode(Abstract(m), byte)
  {
    if Repeats(m, byte) {
      forall n: nat ensures !EndsAfter(m, byte, n) {
        if n > 0 {
          BouncesForever(m, byte, n - 1);
        }
      }
    } else if m.state == Wait && Translate(byte) != KEY_NONE {
      MakeCode(m, byte);
    } else {
      OtherCode(m, byte);
    }
  }

  /** The machine after a byte. */
  ghost function Handled(m: Machine, byte: nat): (r: Machine)
    requires m.Valid()
    ensures r.Valid()
  {
    Dispatched(m, byte, Dispatches(m, byte))
  }

  // ----- streams of bytes --------------------------------------------------------

  ghost predicate NeverRepeats(m: Machine, bytes: seq<nat>)
    requires m.Valid()
    decreases |bytes|
  {
    bytes == [] || (!Repeats(m, bytes[0]) && NeverRepeats(Handled(m, bytes[0]), bytes[1..]))
  }

  ghost function HandledAll(m: Machine, bytes: seq<nat>): (r: Machine)
    requires m.Valid()
    ensures r.Valid()
    decreases |bytes|
  {
    if bytes == [] then m else HandledAll(Handled(m, bytes[0]), bytes[1..])
  }

  ghost function DecodeAll(d: Decoder, bytes: seq<nat>): Decoder
    decreases |bytes|
  {
    if bytes == [] then d else DecodeAll(Decode(d, bytes[0]), bytes[1..])
  }

  /** On every stream that repeats no pressed key, the printed text is the decoder's. */
  lemma {:induction false} StreamDecoded(m: Machine, bytes: seq<nat>)
    requires Settled(m) && NeverRepeats(m, bytes)
    ensures Settled(HandledAll(m, bytes)) && Abstract(HandledAll(m, bytes)) == DecodeAll(Abstract(m), bytes)
    decreases |bytes|
  {
    if bytes != [] {
      HandledLikeDecoder(m, bytes[0]);
      StreamDecoded(Handled(m, bytes[0]), bytes[1..]);
    }
  }

  // ----- the hanging streams, from their bytes alone -----------------------------

  /** Behind a release prefix or not, and the keys that print nothing and are held down. */
  datatype Tracker = Tracker(releasing: bool, held: set<nat>)

  ghost function Track(h: Tracker, byte: nat): Tracker {
    var key := Translate(byte);
    if byte == RELEASE_BYTE then h.(releasing := true)
    else if h.releasing then Tracker(false, h.held - {key})
    else if key == KEY_NONE || ToPrintable(key) != 0 then h
    else h.(held := h.held + {key})
  }

  ghost function TrackAll(h: Tracker, bytes: seq<nat>): Tracker
    decreases |bytes|
  {
    if bytes == [] then h else TrackAll(Track(h, bytes[0]), bytes[1..])
  }

  /** The make code of a key that is held down. */
  ghost predicate MakesHeld(h: Tracker, byte: nat) {
    !h.releasing && Translate(byte) in h.held
  }

  ghost function Tracked(m: Machine): Tracker
    requires m.Valid()
  {
    Tracker(m.state == Released, set k | 0 <= k < KEY_MAX && k != KEY_NONE && m.pressed[k])
  }

  lemma HandledIsTracked(m: Machine, byte: nat)
    requires Settled(m)
    ensures Repeats(m, byte) <==> MakesHeld(Tracked(m), byte)
    ensures !Repeats(m, byte) ==> Tracked(Handled(m, byte)) == Track(Tracked(m), byte)
  {
    hide Dispatch, Dispatched, ToPrintable;
    if !Repeats(m, byte) {
      HandledLikeDecoder(m, byte);
      if m.state == Wait && Translate(byte) != KEY_NONE {
        MakeCode(m, byte);
      } else {
        OtherCode(m, byte);
      }
    }
  }

  /**
   * A stream hangs the machine exactly if one of its bytes is the make code of a key that prints nothing and that
   * the bytes before it hold down.
   */
  lemma {:induction false} HangsOnHeldKeys(m: Machine, bytes: seq<nat>)
    requires Settled(m)
    ensures NeverRepeats(m, bytes) <==>
      forall i :: 0 <= i < |bytes| ==> !MakesHeld(TrackAll(Tracked(m), bytes[..i]), bytes[i])
    decreases |bytes|
  {
    if bytes != [] {
      var h := Tracked(m);
      assert TrackAll(h, bytes[..0]) == h;
      HandledIsTracked(m, bytes[0]);
      if !Repeats(m, bytes[0]) {
        HandledLikeDecoder(m, bytes[0]);
        HangsOnHeldKeys(Handled(m, bytes[0]), bytes[1..]);
        forall i | 0 < i < |bytes|
          ensures TrackAll(h, bytes[..i]) == TrackAll(Track(h, bytes[0]), bytes[1..][..i - 1])
        {
          assert bytes[..i][1..] == bytes[1..][..i - 1];
        }
      }
    }
  }

  /** Holding the left shift long enough for its make code to repeat hangs the machine. */
  lemma HeldShiftHangs(m: Machine)
    requires Settled(m) && m.state == Wait && !m.pressed[KEY_LSHIFT]
    ensures Translate(0x12) == KEY_LSHIFT && !Repeats(m, 0x12) && Repeats(Handled(m, 0x12), 0x12)
    ensures forall n: nat :: !EndsAfter(Handled(m, 0x12), 0x12, n)
  {
    MakeCode(m, 0x12);
    HandledLikeDecoder(m, 0x12);
    assert Abstract(Handled(m, 0x12)) == Decoder(false, true, m.text);
    HandledLikeDecoder(Handled(m, 0x12), 0x12);
  }

  class KbdStateMachine {
    var state: State
    const keyStatuses: array<bool>
    /** What went to the console. */
    var console: seq<nat>

    ghost predicate WellFormed() {
      keyStatuses.Length == KEY_MAX
    }

    ghost function Config(): (m: Machine)
      requires WellFormed()
      reads this, keyStatuses
      ensures m.Valid()
    {
      Machine(state, keyStatuses[..], console)
    }

    constructor ()
      ensures WellFormed() && Settled(Config()) && Config() == Machine(Wait, seq(KEY_MAX, i => false), [])
      ensures fresh(keyStatuses)
    {
      state := Wait;
      keyStatuses := new bool[KEY_MAX](i => false);
      console := [];
      new;
      assert keyStatuses[..] == seq(KEY_MAX, i => false);
    }

    method HandleWait(byte: nat) returns (done: bool)
      requires WellFormed() && state == Wait
      modifies this
      ensures (Config(), done) == Dispatch(old(Config()), byte)
    {
      if byte == RELEASE_BYTE {
        state := Released;
      } else if Translate(byte) != KEY_NONE {
        state := Pressed;
      } else {
        state := Error;
      }
      return false;
    }

    method HandlePressed(byte: nat) returns (done: bool)
      requires WellFormed() && state == Pressed
      modifies this, keyStatuses
      ensures (Config(), done) == Dispatch(old(Config()), byte)
    {
      var key := Translate(byte);
      if key != KEY_NONE {
        if !keyStatuses[key] {
          keyStatuses[key] := true;
          state := Print;
        } else {
          state := Wait;
        }
      }
      return false;
    }

    method HandleReleased(byte: nat) returns (done: bool)
      requires WellFormed() && state == Released
      modifies this, keyStatuses
      ensures (Config(), done) == Dispatch(old(Config()), byte)
    {
      if byte == RELEASE_BYTE {
        state := Released;
        return true;
      }
      var key := Translate(byte);
      if key != KEY_NONE {
        keyStatuses[key] := false;
        state := Wait;
        return true;
      } else {
        state := Error;
        return false;
      }
    }

    method HandlePrint(byte: nat) returns (done: bool)
      requires WellFormed() && state == Print
      modifies this, keyStatuses
      ensures (Config(), done) == Dispatch(old(Config()), byte)
    {
      hide ToPrintable, ApplyLshift;
      var lshift := keyStatuses[KEY_LSHIFT];
      for key := 0 to KEY_MAX
        invariant PrintFrom(Config(), lshift, key) == PrintFrom(old(Config()), lshift, 0)
      {
        if keyStatuses[key] {
          var symbol := ToPrintable(key);
          if symbol != 0 {
            if lshift {
              symbol := ApplyLshift(symbol);
            }
            console := console + [symbol];
            keyStatuses[key] := false;
          }
        }
      }
      state := Wait;
      return true;
    }

    method HandleError(byte: nat) returns (done: bool)
      requires WellFormed() && state == Error
      modifies this
      ensures (Config(), done) == Dispatch(old(Config()), byte)
    {
      state := Wait;
      return true;
    }

    /** The virtual call of the current state's handler. */
    method HandleOnce(byte: nat) returns (done: bool)
      requires WellFormed()
      modifies this, keyStatuses
      ensures (Config(), done) == Dispatch(old(Config()), byte)
    {
      match state
      case Wait => done := HandleWait(byte);
      case Pressed => done := HandlePressed(byte);
      case Released => done := HandleReleased(byte);
      case Print => done := HandlePrint(byte);
      case Error => done := HandleError(byte);
    }

    /** Dispatch the byte until a state is done with it. */
    method HandleByte(byte: nat)
      requires WellFormed() && Settled(Config()) && !Repeats(Config(), byte)
      modifies this, keyStatuses
      ensures Settled(Config()) && Config() == Handled(old(Config()), byte)
      ensures Abstract(Config()) == Decode(old(Abstract(Config())), byte)
    {
      ghost var m := Config();
      ghost var n := Dispatches(m, byte);
      HandledLikeDecoder(m, byte);
      hide Dispatch, Dispatches, Settled, Repeats;
      ghost var i: nat := 0;
      var done := false;
      while !done
        invariant i <= n && Config() == Dispatched(m, byte, i)
        invariant if done then i == n else i < n
        decreases n - i
      {
        done := HandleOnce(byte);
        i := i + 1;
      }
    }
  }
}
