/**
  Shortcut: an application-wide key filter that announces a key sequence
  once per press. Holding the keys down (auto-repeat presses) does not
  announce it again until a key is released.
 */
module Shortcut {

  /** Qt::Key codes of the bare modifier keys, Shift through Alt. */
  const Key_Shift: int := 0x0100_0020
  const Key_Control: int := 0x0100_0021
  const Key_Meta: int := 0x0100_0022
  const Key_Alt: int := 0x0100_0023

  /** The events the filter tells apart: key presses (key code and modifier bits), key releases, the rest. */
  datatype Event = KeyPress(key: int, modifiers: int) | KeyRelease | Other

  /** A QKeySequence, as its key codes (modifiers added in); the empty sequence is isEmpty(). */
  type KeySequence = seq<int>

  /** Whether a press is one of the bare modifier keys. */
  predicate IsModifierKey(key: int) {
    Key_Shift <= key <= Key_Alt
  }

  /**
    eventFilter's effect on the latch: the new latch and whether
    `activated` is emitted. Only a press of the stored sequence while the
    latch is open activates, and it closes the latch; any release opens it.
   */
  function Step(latch: bool, keys: KeySequence, e: Event): (r: (bool, bool))
    ensures r.1 <==> e.KeyPress? && keys != [] && !IsModifierKey(e.key) && !latch && keys == [e.modifiers + e.key]
    ensures r.1 ==> r.0
    ensures e.KeyRelease? ==> !r.0
    ensures !e.KeyRelease? && !r.1 ==> r.0 == latch
  {
    if e.KeyPress? && keys != [] then
      if IsModifierKey(e.key) then (latch, false)
      else
        var keyInt := e.modifiers + e.key;
        if !latch && [keyInt] == keys then (true, true) else (latch, false)
    else if e.KeyRelease? then (false, false)
    else (latch, false)
  }

  /** A run of events through the filter: the final latch and the number of activations. */
  function Run(latch: bool, keys: KeySequence, es: seq<Event>): (bool, nat)
    decreases |es|
  {
    if es == [] then (latch, 0)
    else
      var s := Step(latch, keys, es[0]);
      var t := Run(s.0, keys, es[1..]);
      (t.0, t.1 + if s.1 then 1 else 0)
  }

  /**
    Between two releases the sequence is announced at most once, and not at
    all when it was already announced: holding the keys does not repeat it.
   */
  lemma {:induction false} OneActivationPerHold(latch: bool, keys: KeySequence, es: seq<Event>)
    requires forall i :: 0 <= i < |es| ==> !es[i].KeyRelease?
    ensures Run(latch, keys, es).1 <= if latch then 0 else 1
    ensures Run(latch, keys, es).0 <==> latch || Run(latch, keys, es).1 == 1
    decreases |es|
  {
    if es != [] {
      OneActivationPerHold(Step(latch, keys, es[0]).0, keys, es[1..]);
    }
  }

  /** With no sequence set, no run of events announces anything. */
  lemma {:induction false} EmptySequenceNeverActivates(latch: bool, es: seq<Event>)
    ensures Run(latch, [], es).1 == 0
    decreases |es|
  {
    if es != [] {
      EmptySequenceNeverActivates(Step(latch, [], es[0]).0, es[1..]);
    }
  }

  /** After a release, a press of the stored single-key sequence announces it again. */
  lemma ReleaseRearms(latch: bool, key: int, modifiers: int)
    requires !IsModifierKey(key)
    ensures Run(latch, [modifiers + key], [KeyRelease, KeyPress(key, modifiers)]).1 == 1
  {
    var keys := [modifiers + key];
    var es := [KeyRelease, KeyPress(key, modifiers)];
    assert es[1..] == [KeyPress(key, modifiers)];
    assert es[1..][1..] == [];
    assert Step(false, keys, KeyPress(key, modifiers)) == (true, true);
    assert Run(false, keys, es[1..]) == (true, 1);
  }

  class Shortcut {
    var keySequence: KeySequence
    var keypressAlreadySend: bool

    /** Shortcut(): no sequence, latch open. */
    constructor ()
      ensures keySequence == [] && !keypressAlreadySend
    {
      keySequence := [];
      keypressAlreadySend := false;
    }

    /** setKey(key): the new sequence is stored; `changed` (keyChanged) only when it differs. */
    method SetKey(key: KeySequence) returns (changed: bool)
      modifies this
      ensures changed <==> old(keySequence) != key
      ensures keySequence == key && keypressAlreadySend == old(keypressAlreadySend)
    {
      changed := keySequence != key;
      if changed {
        keySequence := key;
      }
    }

    /**
      eventFilter(obj, e): updates the latch as Step says and reports
      `activated` when Step does; the answer is always the base filter's
      answer `base`, so the event is never consumed.
     */
    method EventFilter(e: Event, base: bool) returns (r: bool, activated: bool)
      modifies this
      ensures r == base
      ensures (keypressAlreadySend, activated) == Step(old(keypressAlreadySend), keySequence, e)
      ensures keySequence == old(keySequence)
    {
      activated := false;
      if e.KeyPress? && keySequence != [] {
        if e.key >= Key_Shift && e.key <= Key_Alt {
          return base, false;
        }
        var keyInt := e.modifiers + e.key;
        if !keypressAlreadySend && [keyInt] == keySequence {
          keypressAlreadySend := true;
          activated := true;
        }
      } else if e.KeyRelease? {
        keypressAlreadySend := false;
      }
      return base, activated;
    }
  }
}
