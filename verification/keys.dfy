/**
  The keyboard action mapper: a three-slot buffer of pressed action names
  (vertical, horizontal, fire), updated by key presses and releases and joined
  into one composite action name that is looked up in the game's action list.
*/
module Keys {
  import opened Results

  /** One slot per axis: 0 holds UP/DOWN, 1 holds LEFT/RIGHT, 2 holds FIRE; `""` means nothing pressed. */
  type KeyBuffer = b: seq<string> | |b| == 3 witness ["", "", ""]

  const EmptyBuffer: KeyBuffer := ["", "", ""]

  /** The space bar ends the recording session. */
  const ExitKey := 32

  /** Key codes of the arrow keys and 'z', with the action name and buffer slot each one drives. */
  const KeyMapping: map<int, (string, int)> := map[
    0xff51 := ("LEFT", 1),
    0xff52 := ("UP", 0),
    0xff53 := ("RIGHT", 1),
    0xff54 := ("DOWN", 0),
    'z' as int := ("FIRE", 2)]

  const VerticalNames := ["UP", "DOWN"]
  const HorizontalNames := ["LEFT", "RIGHT"]
  const FireNames := ["FIRE"]

  /** The action names a slot may hold. */
  function SlotNames(slot: int): seq<string> {
    if slot == 0 then VerticalNames
    else if slot == 1 then HorizontalNames
    else if slot == 2 then FireNames
    else []
  }

  /** Every slot is empty or holds one of its own axis's names. */
  predicate WellFormed(b: KeyBuffer) {
    forall i :: 0 <= i < 3 ==> b[i] == "" || b[i] in SlotNames(i)
  }

  /** The mapper's mutable state: the buffer and the session-exit flag. */
  datatype KeyState = KeyState(buffer: KeyBuffer, exit: bool)

  const Initial := KeyState(EmptyBuffer, false)

  /** `get_act_from_key`: the key's action name and slot, or nothing for an unknown key. */
  function ActFromKey(key: int): (r: Option<(string, int)>)
    ensures r.Some? <==> key in {0xff51, 0xff52, 0xff53, 0xff54, 'z' as int}
    ensures r.Some? ==> 0 <= r.value.1 < 3 && r.value.0 in SlotNames(r.value.1)
  {
    if key in KeyMapping then Some(KeyMapping[key]) else None
  }

  /** `key_press`: the space bar raises the exit flag; a mapped key writes its name into its slot. */
  function KeyPress(st: KeyState, key: int): (r: KeyState)
    ensures key == ExitKey ==> r == st.(exit := true)
    ensures key != ExitKey ==> r.exit == st.exit
    ensures key != ExitKey && ActFromKey(key).None? ==> r.buffer == st.buffer
    ensures key != ExitKey && ActFromKey(key).Some? ==>
      var (name, slot) := ActFromKey(key).value;
      && r.buffer[slot] == name
      && forall j :: 0 <= j < 3 && j != slot ==> r.buffer[j] == st.buffer[j]
    ensures WellFormed(st.buffer) ==> WellFormed(r.buffer)
  {
    if key == ExitKey then st.(exit := true)
    else
      match ActFromKey(key)
      case None => st
      case Some((name, slot)) => st.(buffer := st.buffer[slot := name])
  }

  /** `key_release`: a mapped key clears its slot; anything else changes nothing. */
  function KeyRelease(st: KeyState, key: int): (r: KeyState)
    ensures r.exit == st.exit
    ensures ActFromKey(key).None? ==> r.buffer == st.buffer
    ensures ActFromKey(key).Some? ==>
      var slot := ActFromKey(key).value.1;
      && r.buffer[slot] == ""
      && forall j :: 0 <= j < 3 && j != slot ==> r.buffer[j] == st.buffer[j]
    ensures WellFormed(st.buffer) ==> WellFormed(r.buffer)
  {
    match ActFromKey(key)
    case None => st
    case Some((_, slot)) => st.(buffer := st.buffer[slot := ""])
  }

  /** Releasing a key undoes pressing it: only its slot ends up empty. */
  lemma PressThenRelease(st: KeyState, key: int)
    requires key != ExitKey && ActFromKey(key).Some?
    ensures KeyRelease(KeyPress(st, key), key).buffer[ActFromKey(key).value.1] == ""
    ensures KeyRelease(KeyPress(st, key), key).exit == st.exit
    ensures st.buffer[ActFromKey(key).value.1] == "" ==> KeyRelease(KeyPress(st, key), key) == st
  {
  }

  /** A keyboard event delivered by the window between frames (modifiers are ignored). */
  datatype KeyEvent = Press(key: int) | Release(key: int)

  function Apply(st: KeyState, ev: KeyEvent): KeyState {
    match ev
    case Press(k) => KeyPress(st, k)
    case Release(k) => KeyRelease(st, k)
  }

  /** Whether the space bar is pressed among `evs`. */
  predicate ExitPressed(evs: seq<KeyEvent>) {
    exists i :: 0 <= i < |evs| && evs[i] == Press(ExitKey)
  }

  /** The state after a run of events, in order. */
  function ApplyEvents(st: KeyState, evs: seq<KeyEvent>): (r: KeyState)
    ensures r.exit <==> st.exit || ExitPressed(evs)
    ensures WellFormed(st.buffer) ==> WellFormed(r.buffer)
    decreases |evs|
  {
    if |evs| == 0 then st
    else
      var r := ApplyEvents(Apply(st, evs[0]), evs[1..]);
      assert ExitPressed(evs) <==> evs[0] == Press(ExitKey) || ExitPressed(evs[1..]) by {
        if ExitPressed(evs[1..]) {
          var i :| 0 <= i < |evs[1..]| && evs[1..][i] == Press(ExitKey);
          assert evs[i + 1] == Press(ExitKey);
        }
        if ExitPressed(evs) && evs[0] != Press(ExitKey) {
          var i :| 0 <= i < |evs| && evs[i] == Press(ExitKey);
          assert evs[1..][i - 1] == Press(ExitKey);
        }
      }
      r
  }

  // ---------------------------------------------------------------------------
  // Composite action names

  /** `''.join(key_buffer)`: vertical, then horizontal, then fire. */
  function Concat(b: KeyBuffer): string {
    b[0] + b[1] + b[2]
  }

  /** `convert_key_buffer_to_atari_action`: the composite's index, or the no-op's when it is empty or unknown. */
  function ToAction(b: KeyBuffer, vocab: map<string, int>): (r: int)
    requires "NOOP" in vocab
    ensures r in vocab.Values
    ensures Concat(b) != "" && Concat(b) in vocab ==> r == vocab[Concat(b)]
    ensures Concat(b) == "" || Concat(b) !in vocab ==> r == vocab["NOOP"]
  {
    var action := Concat(b);
    if action == "" then vocab["NOOP"]
    else if action in vocab then vocab[action]
    else vocab["NOOP"]
  }

  /**
    The vocabulary `{name: index for index, name in enumerate(meanings)}`:
    every listed name, mapped to the position of its last occurrence.
  */
  function VocabOf(meanings: seq<string>): (v: map<string, int>)
    ensures forall k :: k in v <==> k in meanings
    ensures forall k :: k in v ==> 0 <= v[k] < |meanings| && meanings[v[k]] == k
    ensures forall k, j :: k in v && v[k] < j < |meanings| ==> meanings[j] != k
    decreases |meanings|
  {
    if |meanings| == 0 then map[]
    else
      var n := |meanings| - 1;
      var p := meanings[..n];
      assert meanings == p + [meanings[n]];
      VocabOf(p)[meanings[n] := n]
  }

  /**
    Looked up in a game's action list, the buffer always yields a valid action
    index, naming the composite when the list has it and the no-op otherwise.
  */
  lemma ActionIsListed(b: KeyBuffer, meanings: seq<string>)
    requires "NOOP" in meanings
    ensures "NOOP" in VocabOf(meanings)
    ensures var r := ToAction(b, VocabOf(meanings));
      && 0 <= r < |meanings|
      && (Concat(b) != "" && Concat(b) in meanings ==> meanings[r] == Concat(b))
      && (Concat(b) == "" || Concat(b) !in meanings ==> meanings[r] == "NOOP")
  {
    var v := VocabOf(meanings);
    var i :| 0 <= i < |meanings| && meanings[i] == "NOOP";
    assert "NOOP" in v;
    if Concat(b) in meanings {
      var j :| 0 <= j < |meanings| && meanings[j] == Concat(b);
      assert Concat(b) in v;
    }
  }

  /** When the no-op is listed first and only once, the empty buffer maps to action 0. */
  lemma EmptyBufferIsActionZero(meanings: seq<string>)
    requires |meanings| > 0 && meanings[0] == "NOOP"
    requires forall i :: 0 < i < |meanings| ==> meanings[i] != "NOOP"
    ensures "NOOP" in VocabOf(meanings)
    ensures ToAction(EmptyBuffer, VocabOf(meanings)) == 0
  {
    assert Concat(EmptyBuffer) == "";
  }

  // ---------------------------------------------------------------------------
  // Composite names are unambiguous: splitting a composite recovers the buffer.

  /** The rest of `s` after the prefix `p`, if `s` starts with `p`. */
  function StripPrefix(p: string, s: string): (r: Option<string>)
    ensures r.Some? <==> |p| <= |s| && s[..|p|] == p
    ensures r.Some? ==> s == p + r.value
  {
    if |p| <= |s| && s[..|p|] == p then Some(s[|p|..]) else None
  }

  /** The first of `names` that `s` starts with, and the rest; `""` and all of `s` if none. */
  function TakeOneOf(names: seq<string>, s: string): (string, string)
    decreases |names|
  {
    if |names| == 0 then ("", s)
    else
      match StripPrefix(names[0], s)
      case Some(rest) => (names[0], rest)
      case None => TakeOneOf(names[1..], s)
  }

  /** Reads a composite name back into a buffer, or nothing if it is not one. */
  function Split(s: string): Option<KeyBuffer> {
    var (v, r1) := TakeOneOf(VerticalNames, s);
    var (h, r2) := TakeOneOf(HorizontalNames, r1);
    var (f, r3) := TakeOneOf(FireNames, r2);
    if r3 == "" then Some([v, h, f]) else None
  }

  /** Non-empty names that pairwise differ in their first letter. */
  predicate DistinctInitials(names: seq<string>) {
    && (forall i :: 0 <= i < |names| ==> |names[i]| > 0)
    && (forall i, j :: 0 <= i < j < |names| ==> names[i][0] != names[j][0])
  }

  /** Whether `s` cannot start with any of `names`. */
  predicate StartsWithNoneOf(names: seq<string>, s: string) {
    s == "" || forall i :: 0 <= i < |names| ==> |names[i]| > 0 && names[i][0] != s[0]
  }

  lemma {:induction false} TakeOneOfPrefix(names: seq<string>, x: string, rest: string)
    requires DistinctInitials(names)
    requires x in names || (x == "" && StartsWithNoneOf(names, rest))
    ensures TakeOneOf(names, x + rest) == (x, rest)
    decreases |names|
  {
    var s := x + rest;
    if |names| == 0 {
      assert x == "";
      assert s == rest;
    } else if x == names[0] {
      assert s[..|x|] == x;
      assert s[|x|..] == rest;
    } else {
      if x != "" {
        assert s[0] == x[0];
        var k :| 0 <= k < |names| && names[k] == x;
        assert names[0][0] != names[k][0];
      } else {
        assert s == rest;
        if rest != "" {
          assert names[0][0] != rest[0];
        }
      }
      assert StripPrefix(names[0], s).None?;
      assert DistinctInitials(names[1..]);
      TakeOneOfPrefix(names[1..], x, rest);
    }
  }

  lemma FirstLetter(a: string, b: string)
    requires a != ""
    ensures (a + b)[0] == a[0]
  {
  }

  lemma NameListsDistinct()
    ensures DistinctInitials(VerticalNames)
    ensures DistinctInitials(HorizontalNames)
    ensures DistinctInitials(FireNames)
  {
  }

  /** Neither a horizontal nor a fire name starts like a vertical one, nor a fire name like a horizontal one. */
  lemma LaterSlotsStartElsewhere(h: string, f: string)
    requires h == "" || h in HorizontalNames
    requires f == "" || f in FireNames
    ensures StartsWithNoneOf(HorizontalNames, f)
    ensures StartsWithNoneOf(VerticalNames, h + f)
  {
    if h != "" {
      FirstLetter(h, f);
    }
  }

  lemma SplitSlots(v: string, h: string, f: string)
    requires v == "" || v in VerticalNames
    requires h == "" || h in HorizontalNames
    requires f == "" || f in FireNames
    ensures Split(v + h + f) == Some([v, h, f])
  {
    NameListsDistinct();
    LaterSlotsStartElsewhere(h, f);
    assert StartsWithNoneOf(FireNames, "");
    assert f + "" == f;
    TakeOneOfPrefix(FireNames, f, "");
    TakeOneOfPrefix(HorizontalNames, h, f);
    assert v + h + f == v + (h + f);
    TakeOneOfPrefix(VerticalNames, v, h + f);
  }

  /** Splitting the composite of a well-formed buffer gives that buffer back. */
  lemma SplitConcat(b: KeyBuffer)
    requires WellFormed(b)
    ensures Split(Concat(b)) == Some(b)
  {
    assert b[0] == "" || b[0] in SlotNames(0);
    assert b[1] == "" || b[1] in SlotNames(1);
    assert b[2] == "" || b[2] in SlotNames(2);
    SplitSlots(b[0], b[1], b[2]);
    assert [b[0], b[1], b[2]] == b;
  }

  /** Different well-formed buffers never join into the same composite name. */
  lemma ConcatInjective(b1: KeyBuffer, b2: KeyBuffer)
    requires WellFormed(b1) && WellFormed(b2)
    requires Concat(b1) == Concat(b2)
    ensures b1 == b2
  {
    SplitConcat(b1);
    SplitConcat(b2);
  }
}
