/** The key-to-touch mapper of test.py: a fixed key -> screen position
    mapping, the pointer ids derived from it, and the two handlers that
    turn keyboard events and keep-alive ticks into batched touch frames.
    Each handler body runs under one lock in the source and is one atomic
    step here. */
module TouchMapper {
  import opened Basics
  import opened OrderedDict
  import opened PointerIdTable
  import opened PointerFlags
  import opened TouchInfo

  /** A key as the keyboard library names it ("a", "space", ...). */
  type Key = string

  /** `key_positions`: mapped keys in dict order with their pixel positions. */
  type KeyPositions = Dict<Key, (int, int)>

  /** The mapping test.py ships with. */
  const DEFAULT_POSITIONS: KeyPositions :=
    [("a", (300, 500)), ("s", (400, 500)), ("d", (500, 500)), ("f", (600, 500))]

  /** Half the side of the square contact rectangle, in pixels. */
  const CONTACT_RADIUS: int := 5

  /** Flags of a contact that stays down while another one changes. */
  const HOLD_FLAGS: bv32 := UPDATE | IN_RANGE | IN_CONTACT
  /** Flags of a contact that has just touched down. */
  const PRESS_FLAGS: bv32 := DOWN | IN_RANGE | IN_CONTACT
  /** Flags of a contact that is being lifted. */
  const RELEASE_FLAGS: bv32 := UP | IN_RANGE

  /** One argument of a single InjectTouchInput call: the contacts in order. */
  type Frame = seq<PointerTouchInfo>

  /** Where key is mapped to: `key_positions[key]`. */
  function PositionOf(m: KeyPositions, key: Key): (pos: (int, int))
    requires key in Keys(m)
    ensures exists i :: 0 <= i < |m| && m[i] == (key, pos)
  {
    Get(m, key).value
  }

  /** `pointer_ids[key]`. */
  function PointerIdOf(m: KeyPositions, key: Key): (pid: nat)
    requires key in Keys(m)
    ensures pid < |m| && m[pid].0 == key
  {
    assert Keys(m)[IndexOf(m, key)] == key;
    PointerIds(Keys(m))[key]
  }

  /** For a mapping (whose keys are distinct) the i-th mapped key gets
      pointer id i, so the ids are exactly 0 .. N-1, one per key. */
  lemma PointerIdIsEnumerationIndex(m: KeyPositions, i: nat)
    requires DistinctKeys(m)
    requires i < |m|
    ensures PointerIdOf(m, m[i].0) == i
  {
    var ks := Keys(m);
    assert Distinct(ks) by {
      forall a, b | 0 <= a < b < |ks| ensures ks[a] != ks[b] {
        assert ks[a] == m[a].0 && ks[b] == m[b].0;
      }
    }
    IdsAreEnumerationIndices(ks);
    assert ks[i] == m[i].0;
  }

  /** A ctypes POINT built from Python integers. */
  function PixelPoint(x: int, y: int): (p: Point)
    ensures IsLong(x) && IsLong(y) ==> p == Point(x, y)
    ensures IsLong(p.x) && IsLong(p.y)
  {
    LongIsIdentityExactlyInRange(x);
    LongIsIdentityExactlyInRange(y);
    Point(Long(x), Long(y))
  }

  /** The ctypes RECT `(x-5, y-5, x+5, y+5)`: a square of side 10 centred on
      (x, y) whenever its corners fit the C fields. */
  function ContactArea(x: int, y: int): (c: Rect)
    ensures IsLong(x - CONTACT_RADIUS) && IsLong(x + CONTACT_RADIUS) ==>
      c.right - c.left == 2 * CONTACT_RADIUS && c.left + CONTACT_RADIUS == x
    ensures IsLong(y - CONTACT_RADIUS) && IsLong(y + CONTACT_RADIUS) ==>
      c.bottom - c.top == 2 * CONTACT_RADIUS && c.top + CONTACT_RADIUS == y
  {
    LongIsIdentityExactlyInRange(x - CONTACT_RADIUS);
    LongIsIdentityExactlyInRange(x + CONTACT_RADIUS);
    LongIsIdentityExactlyInRange(y - CONTACT_RADIUS);
    LongIsIdentityExactlyInRange(y + CONTACT_RADIUS);
    Rect(Long(x - CONTACT_RADIUS), Long(y - CONTACT_RADIUS), Long(x + CONTACT_RADIUS), Long(y + CONTACT_RADIUS))
  }

  /** The UINT pointerId field holding `pointer_ids[key]`: the key's id
      unchanged while the mapping has at most 2^32 keys. */
  function ContactId(m: KeyPositions, key: Key): (id: nat)
    requires key in Keys(m)
    ensures |m| <= TWO_32 ==> id < |m| && m[id].0 == key
  {
    var pid := PointerIdOf(m, key);
    ULongIsIdentityExactlyInRange(pid);
    ULong(pid)
  }

  /** `make_touch_info(key)`: a touch contact at the key's position, carrying
      the key's pointer id and a square contact area around the position;
      pointer flags start at zero. The C fields keep 32 bits, so the values
      are the source's only while they fit. */
  function MakeTouchInfo(m: KeyPositions, key: Key): (t: PointerTouchInfo)
    requires key in Keys(m)
    ensures t.pointerType == PT_TOUCH && t.pointerFlags == NONE
    ensures t.touchFlags == NONE && t.touchMask == MASK_ALL
    ensures |m| <= TWO_32 ==> t.pointerId < |m| && m[t.pointerId].0 == key
    ensures var pos := PositionOf(m, key);
      IsLong(pos.0) && IsLong(pos.1) ==> t.pixelLocation == Point(pos.0, pos.1)
    ensures var pos := PositionOf(m, key);
      IsLong(pos.0 - CONTACT_RADIUS) && IsLong(pos.0 + CONTACT_RADIUS) ==>
        t.contact.right - t.contact.left == 2 * CONTACT_RADIUS && t.contact.left + CONTACT_RADIUS == pos.0
    ensures var pos := PositionOf(m, key);
      IsLong(pos.1 - CONTACT_RADIUS) && IsLong(pos.1 + CONTACT_RADIUS) ==>
        t.contact.bottom - t.contact.top == 2 * CONTACT_RADIUS && t.contact.top + CONTACT_RADIUS == pos.1
  {
    var pos := PositionOf(m, key);
    PointerTouchInfo(PT_TOUCH, ContactId(m, key), NONE, PixelPoint(pos.0, pos.1), NONE, MASK_ALL, ContactArea(pos.0, pos.1))
  }

  /** `inject_contacts`: the single platform call an emitted batch makes, or
      None when the batch is empty and nothing is sent. */
  function Inject(contacts: Frame): (call: Option<Frame>)
    ensures call.None? <==> |contacts| == 0
    ensures call.Some? ==> call.value == contacts
  {
    if |contacts| == 0 then None else Some(contacts)
  }

  /** The mapper's shared state: `pressed_keys` and `active_touches`. */
  datatype State = State(pressed: set<Key>, active: Dict<Key, PointerTouchInfo>)

  const INITIAL: State := State({}, [])

  /** A keyboard event: the key's name and its `event_type`. */
  datatype KeyEvent = KeyEvent(name: Key, eventType: string)

  /** The exception a handler can raise. */
  datatype Error = KeyError(key: Key)

  /** What one handler call leaves behind: the new state, the batch it
      submitted (if any) and the exception it raised (if any). */
  datatype Outcome = Outcome(next: State, frame: Option<Frame>, raised: Option<Error>)

  /** The contact with its pointer flags replaced. */
  function Flagged(t: PointerTouchInfo, flags: bv32): (u: PointerTouchInfo)
    ensures u.pointerFlags == flags
    ensures u.(pointerFlags := t.pointerFlags) == t
  {
    t.(pointerFlags := flags)
  }

  /** Every contact of the table re-flagged with flags. */
  function MarkAll(d: Dict<Key, PointerTouchInfo>, flags: bv32): (r: Dict<Key, PointerTouchInfo>)
    ensures |r| == |d| && Keys(r) == Keys(d)
    ensures forall i :: 0 <= i < |d| ==> r[i] == (d[i].0, Flagged(d[i].1, flags))
  {
    var r := seq(|d|, i requires 0 <= i < |d| => (d[i].0, Flagged(d[i].1, flags)));
    assert Keys(r) == Keys(d);
    r
  }

  /** The released key's contact flagged as lifted, every other as held. */
  function MarkRelease(d: Dict<Key, PointerTouchInfo>, key: Key): (r: Dict<Key, PointerTouchInfo>)
    ensures |r| == |d| && Keys(r) == Keys(d)
    ensures forall i :: 0 <= i < |d| ==>
      r[i] == (d[i].0, Flagged(d[i].1, if d[i].0 == key then RELEASE_FLAGS else HOLD_FLAGS))
  {
    var r := seq(|d|, i requires 0 <= i < |d| =>
      (d[i].0, Flagged(d[i].1, if d[i].0 == key then RELEASE_FLAGS else HOLD_FLAGS)));
    assert Keys(r) == Keys(d);
    r
  }

  /** The locked part of a fresh down: every contact already in the table
      is re-flagged as held, the key's new contact is stored as pressed (at
      the end of the table unless the key is already there), the key is
      marked pressed and the whole table is submitted. */
  function Press(m: KeyPositions, s: State, key: Key): (r: Outcome)
    requires key in Keys(m)
    ensures r.raised.None?
    ensures r.next.pressed == s.pressed + {key}
    ensures Get(r.next.active, key) == Some(Flagged(MakeTouchInfo(m, key), PRESS_FLAGS))
    ensures key !in Keys(s.active) ==> Keys(r.next.active) == Keys(s.active) + [key]
    ensures key in Keys(s.active) ==> Keys(r.next.active) == Keys(s.active)
    ensures forall i :: 0 <= i < |s.active| && s.active[i].0 != key ==>
      r.next.active[i] == (s.active[i].0, Flagged(s.active[i].1, HOLD_FLAGS))
    ensures r.frame == Some(Values(r.next.active))
  {
    var table := Put(MarkAll(s.active, HOLD_FLAGS), key, Flagged(MakeTouchInfo(m, key), PRESS_FLAGS));
    assert |Keys(table)| > 0;
    Outcome(State(s.pressed + {key}, table), Inject(Values(table)), None)
  }

  /** The locked part of an up of a held key: the table is submitted with
      the key's contact lifted and every other contact held, the key is no
      longer pressed, and its contact is deleted from the table; a table
      without that contact makes the deletion raise KeyError after the
      batch was sent. */
  function Release(s: State, key: Key): (r: Outcome)
    ensures r.next.pressed == s.pressed - {key}
    ensures r.frame.Some? <==> |s.active| > 0
    ensures r.frame.Some? ==> |r.frame.value| == |s.active|
    ensures r.frame.Some? ==> forall i :: 0 <= i < |s.active| ==>
      r.frame.value[i] == Flagged(s.active[i].1, if s.active[i].0 == key then RELEASE_FLAGS else HOLD_FLAGS)
    ensures r.raised.None? <==> key in Keys(s.active)
    ensures r.raised.Some? ==> r.raised.value == KeyError(key)
    ensures r.raised.None? ==> Some(r.next.active) == Delete(MarkRelease(s.active, key), key)
  {
    var marked := MarkRelease(s.active, key);
    var frame := Inject(Values(marked));
    var pressed := s.pressed - {key};
    match Delete(marked, key)
    case Some(table) => Outcome(State(pressed, table), frame, None)
    case None => Outcome(State(pressed, marked), frame, Some(KeyError(key)))
  }

  /** `on_key_event`: events for unmapped keys, repeated downs (auto-repeat),
      ups of keys that are not held and events of any other type change
      nothing and submit nothing; a fresh down presses, an up of a held key
      releases. */
  function OnKeyEvent(m: KeyPositions, s: State, e: KeyEvent): (r: Outcome)
    ensures e.name !in Keys(m) ==> r == Outcome(s, None, None)
    ensures e.eventType != "down" && e.eventType != "up" ==> r == Outcome(s, None, None)
    ensures e.eventType == "down" && e.name in s.pressed ==> r == Outcome(s, None, None)
    ensures e.eventType == "up" && e.name !in s.pressed ==> r == Outcome(s, None, None)
    ensures e.name in Keys(m) && e.eventType == "down" && e.name !in s.pressed ==> r == Press(m, s, e.name)
    ensures e.name in Keys(m) && e.eventType == "up" && e.name in s.pressed ==> r == Release(s, e.name)
  {
    if e.name !in Keys(m) then Outcome(s, None, None)
    else if e.eventType == "down" then
      if e.name in s.pressed then Outcome(s, None, None) else Press(m, s, e.name)
    else if e.eventType == "up" then
      if e.name !in s.pressed then Outcome(s, None, None) else Release(s, e.name)
    else Outcome(s, None, None)
  }

  /** The result of one pass of `update_loop`: either the loop ends, or the
      table was re-flagged and submitted. */
  datatype Tick = Stop | Sent(next: State, frame: Option<Frame>)

  /** One keep-alive pass: an empty table ends the loop; otherwise every
      contact is marked held and the whole table is submitted. */
  function KeepAliveTick(s: State): (r: Tick)
    ensures r.Stop? <==> |s.active| == 0
    ensures r.Sent? ==>
      && r.next.pressed == s.pressed
      && Keys(r.next.active) == Keys(s.active)
      && (forall i :: 0 <= i < |s.active| ==> r.next.active[i].1 == Flagged(s.active[i].1, HOLD_FLAGS))
      && r.frame == Some(Values(r.next.active))
  {
    if |s.active| == 0 then Stop
    else
      var table := MarkAll(s.active, HOLD_FLAGS);
      Sent(State(s.pressed, table), Inject(Values(table)))
  }

  /** A table entry is the contact make_touch_info builds for its key, with
      whatever pointer flags it carries now. */
  predicate ContactFor(m: KeyPositions, k: Key, t: PointerTouchInfo) {
    k in Keys(m) && t == Flagged(MakeTouchInfo(m, k), t.pointerFlags)
  }

  /** What every handled event keeps: the table is a dict, its keys are
      exactly the held keys, and each entry is the contact of its own key. */
  ghost predicate Inv(m: KeyPositions, s: State) {
    && DistinctKeys(s.active)
    && (forall k :: k in s.pressed <==> k in Keys(s.active))
    && (forall i :: 0 <= i < |s.active| ==> ContactFor(m, s.active[i].0, s.active[i].1))
  }

  lemma InitialInv(m: KeyPositions)
    ensures Inv(m, INITIAL)
  {
  }

  /** Re-flagging keeps a contact the contact of its key. */
  lemma FlaggedContactFor(m: KeyPositions, k: Key, t: PointerTouchInfo, flags: bv32)
    ensures ContactFor(m, k, t) ==> ContactFor(m, k, Flagged(t, flags))
  {
  }

  /** Re-flagging every contact keeps the table a dict. */
  lemma MarkAllKeepsDistinct(d: Dict<Key, PointerTouchInfo>, flags: bv32)
    requires DistinctKeys(d)
    ensures DistinctKeys(MarkAll(d, flags))
  {
    var r := MarkAll(d, flags);
    forall i, j | 0 <= i < j < |r| ensures r[i].0 != r[j].0 {
      assert r[i].0 == d[i].0 && r[j].0 == d[j].0;
    }
  }

  lemma MarkReleaseKeepsDistinct(d: Dict<Key, PointerTouchInfo>, key: Key)
    requires DistinctKeys(d)
    ensures DistinctKeys(MarkRelease(d, key))
  {
    var r := MarkRelease(d, key);
    forall i, j | 0 <= i < j < |r| ensures r[i].0 != r[j].0 {
      assert r[i].0 == d[i].0 && r[j].0 == d[j].0;
    }
  }

  /** A fresh down of a mapped key keeps the invariant. */
  lemma PressPreservesInv(m: KeyPositions, s: State, key: Key)
    requires Inv(m, s)
    requires key in Keys(m) && key !in s.pressed
    ensures Inv(m, Press(m, s, key).next)
  {
    var marked := MarkAll(s.active, HOLD_FLAGS);
    var t := Flagged(MakeTouchInfo(m, key), PRESS_FLAGS);
    var table := Put(marked, key, t);
    assert Press(m, s, key).next == State(s.pressed + {key}, table);
    MarkAllKeepsDistinct(s.active, HOLD_FLAGS);
    assert table == marked + [(key, t)];
    forall i | 0 <= i < |table| ensures ContactFor(m, table[i].0, table[i].1) {
      if i < |marked| {
        FlaggedContactFor(m, s.active[i].0, s.active[i].1, HOLD_FLAGS);
      }
    }
  }

  /** An up of a held key keeps the invariant and does not raise. */
  lemma ReleasePreservesInv(m: KeyPositions, s: State, key: Key)
    requires Inv(m, s)
    requires key in s.pressed
    ensures Release(s, key).raised.None?
    ensures Inv(m, Release(s, key).next)
  {
    var marked := MarkRelease(s.active, key);
    MarkReleaseKeepsDistinct(s.active, key);
    var table := Delete(marked, key).value;
    assert Release(s, key).next == State(s.pressed - {key}, table);
    DeleteLeavesOtherKeys(marked, key);
    forall i | 0 <= i < |table| ensures ContactFor(m, table[i].0, table[i].1) {
      assert table[i] == marked[if i < IndexOf(marked, key) then i else i + 1];
      var j := if i < IndexOf(marked, key) then i else i + 1;
      FlaggedContactFor(m, s.active[j].0, s.active[j].1, if s.active[j].0 == key then RELEASE_FLAGS else HOLD_FLAGS);
    }
  }

  /** Every handled event keeps the invariant and, under it, never raises:
      the KeyError of an up without a contact cannot happen. */
  lemma OnKeyEventPreservesInv(m: KeyPositions, s: State, e: KeyEvent)
    requires Inv(m, s)
    ensures Inv(m, OnKeyEvent(m, s, e).next)
    ensures OnKeyEvent(m, s, e).raised.None?
  {
    if e.name in Keys(m) && e.eventType == "down" && e.name !in s.pressed {
      PressPreservesInv(m, s, e.name);
    } else if e.name in Keys(m) && e.eventType == "up" && e.name in s.pressed {
      ReleasePreservesInv(m, s, e.name);
    }
  }

  /** A keep-alive pass keeps the invariant. */
  lemma KeepAliveTickPreservesInv(m: KeyPositions, s: State)
    requires Inv(m, s)
    ensures KeepAliveTick(s).Sent? ==> Inv(m, KeepAliveTick(s).next)
  {
    if KeepAliveTick(s).Sent? {
      var table := KeepAliveTick(s).next.active;
      forall i | 0 <= i < |table| ensures ContactFor(m, table[i].0, table[i].1) {
        FlaggedContactFor(m, s.active[i].0, s.active[i].1, HOLD_FLAGS);
      }
    }
  }

  /** Ticking again right after a tick sends the same frame and leaves the
      same state: a keep-alive pass only refreshes. */
  lemma KeepAliveTickIdempotent(s: State)
    requires KeepAliveTick(s).Sent?
    ensures KeepAliveTick(KeepAliveTick(s).next) == KeepAliveTick(s)
  {
    MarkAllIdempotent(s.active, HOLD_FLAGS);
  }

  /** Under the invariant, the contacts of the table (and so of every frame
      sent from it) carry pairwise different pointer ids, as long as the
      mapping has no more keys than a UINT can number. */
  lemma ActivePointerIdsDistinct(m: KeyPositions, s: State)
    requires Inv(m, s)
    requires |m| <= TWO_32
    ensures forall i, j :: 0 <= i < j < |s.active| ==> s.active[i].1.pointerId != s.active[j].1.pointerId
  {
    forall i, j | 0 <= i < j < |s.active|
      ensures s.active[i].1.pointerId != s.active[j].1.pointerId
    {
      var a := MakeTouchInfo(m, s.active[i].0);
      var b := MakeTouchInfo(m, s.active[j].0);
      assert s.active[i].1.pointerId == a.pointerId;
      assert s.active[j].1.pointerId == b.pointerId;
    }
  }

  /** Every batch a handled event submits, from a state keeping the
      invariant, carries each pointer id at most once. */
  lemma FramePointerIdsDistinct(m: KeyPositions, s: State, e: KeyEvent)
    requires Inv(m, s)
    requires |m| <= TWO_32
    ensures var o := OnKeyEvent(m, s, e);
      o.frame.Some? ==> forall i, j :: 0 <= i < j < |o.frame.value| ==> o.frame.value[i].pointerId != o.frame.value[j].pointerId
  {
    var r := OnKeyEvent(m, s, e);
    if e.name in Keys(m) && e.eventType == "down" && e.name !in s.pressed {
      PressPreservesInv(m, s, e.name);
      ActivePointerIdsDistinct(m, r.next);
    } else {
      ActivePointerIdsDistinct(m, s);
    }
  }

  /** A fresh down of a key not yet in the table appends its pressed
      contact behind the held table. */
  lemma PressAppends(m: KeyPositions, s: State, key: Key)
    requires key in Keys(m) && key !in Keys(s.active)
    ensures Press(m, s, key).next
      == State(s.pressed + {key}, MarkAll(s.active, HOLD_FLAGS) + [(key, Flagged(MakeTouchInfo(m, key), PRESS_FLAGS))])
  {
    assert key !in Keys(MarkAll(s.active, HOLD_FLAGS));
  }

  /** Releasing the key of the last entry submits the held table followed by
      the lifted contact, then leaves only the held table. */
  lemma ReleaseLast(pressed: set<Key>, d: Dict<Key, PointerTouchInfo>, key: Key, t: PointerTouchInfo)
    requires key !in Keys(d)
    ensures Release(State(pressed, d + [(key, t)]), key)
      == Outcome(State(pressed - {key}, MarkAll(d, HOLD_FLAGS)),
                 Some(Values(MarkAll(d, HOLD_FLAGS)) + [Flagged(t, RELEASE_FLAGS)]), None)
  {
    var held := MarkAll(d, HOLD_FLAGS);
    var marked := held + [(key, Flagged(t, RELEASE_FLAGS))];
    assert MarkRelease(d + [(key, t)], key) == marked by {
      forall i | 0 <= i < |d| ensures d[i].0 != key {
        assert Keys(d)[i] == d[i].0;
      }
    }
    assert key !in Keys(held);
    DeleteLast(held, key, Flagged(t, RELEASE_FLAGS));
    assert Values(marked) == Values(held) + [Flagged(t, RELEASE_FLAGS)];
  }

  /** Marking every contact held twice is marking it once. */
  lemma MarkAllIdempotent(d: Dict<Key, PointerTouchInfo>, flags: bv32)
    ensures MarkAll(MarkAll(d, flags), flags) == MarkAll(d, flags)
  {
    var once := MarkAll(d, flags);
    assert forall i :: 0 <= i < |d| ==> MarkAll(once, flags)[i] == once[i];
  }

  /** Pressing a key that is not held and releasing it again gives back the
      table as it was, every contact now flagged as held, and the same set
      of pressed keys; the release batch is that table followed by the
      key's lifted contact. */
  lemma PressThenReleaseRestores(m: KeyPositions, s: State, key: Key)
    requires Inv(m, s)
    requires key in Keys(m) && key !in s.pressed
    ensures var r := Release(Press(m, s, key).next, key);
      && r.raised.None?
      && r.next == State(s.pressed, MarkAll(s.active, HOLD_FLAGS))
      && r.frame == Some(Values(MarkAll(s.active, HOLD_FLAGS)) + [Flagged(MakeTouchInfo(m, key), RELEASE_FLAGS)])
  {
    var held := MarkAll(s.active, HOLD_FLAGS);
    var t := Flagged(MakeTouchInfo(m, key), PRESS_FLAGS);
    PressAppends(m, s, key);
    ReleaseLast(s.pressed + {key}, held, key, t);
    MarkAllIdempotent(s.active, HOLD_FLAGS);
    assert s.pressed + {key} - {key} == s.pressed;
  }

  /** The whole session: events handled one after another from the state
      given, collecting the batches submitted. */
  function Run(m: KeyPositions, s: State, events: seq<KeyEvent>): (r: (State, seq<Frame>))
    ensures |r.1| <= |events|
    decreases |events|
  {
    if |events| == 0 then (s, [])
    else
      var o := OnKeyEvent(m, s, events[0]);
      var rest := Run(m, o.next, events[1..]);
      (rest.0, (if o.frame.Some? then [o.frame.value] else []) + rest.1)
  }

  /** From any state satisfying the invariant (the initial one in
      particular), any sequence of events keeps it. */
  lemma {:induction false} RunPreservesInv(m: KeyPositions, s: State, events: seq<KeyEvent>)
    requires Inv(m, s)
    ensures Inv(m, Run(m, s, events).0)
    decreases |events|
  {
    if |events| > 0 {
      OnKeyEventPreservesInv(m, s, events[0]);
      RunPreservesInv(m, OnKeyEvent(m, s, events[0]).next, events[1..]);
    }
  }

  /** The shipped mapping numbers a, s, d, f as 0, 1, 2, 3. */
  lemma DefaultPointerIds()
    ensures "a" in Keys(DEFAULT_POSITIONS) && PointerIdOf(DEFAULT_POSITIONS, "a") == 0
    ensures "s" in Keys(DEFAULT_POSITIONS) && PointerIdOf(DEFAULT_POSITIONS, "s") == 1
    ensures "d" in Keys(DEFAULT_POSITIONS) && PointerIdOf(DEFAULT_POSITIONS, "d") == 2
    ensures "f" in Keys(DEFAULT_POSITIONS) && PointerIdOf(DEFAULT_POSITIONS, "f") == 3
  {
    var m := DEFAULT_POSITIONS;
    assert DistinctKeys(m);
    PointerIdIsEnumerationIndex(m, 0);
    PointerIdIsEnumerationIndex(m, 1);
    PointerIdIsEnumerationIndex(m, 2);
    PointerIdIsEnumerationIndex(m, 3);
  }

  /** The contact the shipped mapping builds for the key with pointer id pid
      at (x, y), carrying the given flags. */
  function DefaultContact(pid: nat, x: int, flags: bv32): (t: PointerTouchInfo)
    ensures t.pointerId == pid && t.pointerFlags == flags && t.pixelLocation == Point(x, 500)
  {
    PointerTouchInfo(PT_TOUCH, pid, flags, Point(x, 500), NONE, MASK_ALL, Rect(x - 5, 495, x + 5, 505))
  }

  lemma DefaultContactOfA()
    ensures "a" in Keys(DEFAULT_POSITIONS) && MakeTouchInfo(DEFAULT_POSITIONS, "a") == DefaultContact(0, 300, NONE)
  {
    assert Keys(DEFAULT_POSITIONS)[0] == "a";
    DefaultPointerIds();
    assert PositionOf(DEFAULT_POSITIONS, "a") == (300, 500);
  }

  lemma DefaultContactOfS()
    ensures "s" in Keys(DEFAULT_POSITIONS) && MakeTouchInfo(DEFAULT_POSITIONS, "s") == DefaultContact(1, 400, NONE)
  {
    assert Keys(DEFAULT_POSITIONS)[1] == "s";
    DefaultPointerIds();
    assert PositionOf(DEFAULT_POSITIONS, "s") == (400, 500);
  }

  /** The held-a state of the session below. */
  const HOLDING_A: State := State({"a"}, [("a", DefaultContact(0, 300, PRESS_FLAGS))])
  /** The held-a-and-s state of the session below. */
  const HOLDING_A_S: State :=
    State({"a", "s"}, [("a", DefaultContact(0, 300, HOLD_FLAGS)), ("s", DefaultContact(1, 400, PRESS_FLAGS))])
  /** The held-s state of the session below. */
  const HOLDING_S: State := State({"s"}, [("s", DefaultContact(1, 400, HOLD_FLAGS))])

  lemma DefaultPressA()
    ensures OnKeyEvent(DEFAULT_POSITIONS, INITIAL, KeyEvent("a", "down"))
      == Outcome(HOLDING_A, Some([DefaultContact(0, 300, PRESS_FLAGS)]), None)
  {
    DefaultContactOfA();
    var c := DefaultContact(0, 300, PRESS_FLAGS);
    assert Flagged(MakeTouchInfo(DEFAULT_POSITIONS, "a"), PRESS_FLAGS) == c;
    assert MarkAll(INITIAL.active, HOLD_FLAGS) == [];
    assert Put([], "a", c) == HOLDING_A.active;
    assert Values(HOLDING_A.active) == [c];
    assert INITIAL.pressed + {"a"} == HOLDING_A.pressed;
  }

  lemma DefaultPressSTable()
    ensures Put(MarkAll(HOLDING_A.active, HOLD_FLAGS), "s", DefaultContact(1, 400, PRESS_FLAGS)) == HOLDING_A_S.active
  {
    var held := MarkAll(HOLDING_A.active, HOLD_FLAGS);
    assert held == [("a", DefaultContact(0, 300, HOLD_FLAGS))];
    assert "s" !in Keys(held);
  }

  lemma DefaultPressS()
    ensures OnKeyEvent(DEFAULT_POSITIONS, HOLDING_A, KeyEvent("s", "down"))
      == Outcome(HOLDING_A_S, Some([DefaultContact(0, 300, HOLD_FLAGS), DefaultContact(1, 400, PRESS_FLAGS)]), None)
  {
    var m := DEFAULT_POSITIONS;
    var c := DefaultContact(1, 400, PRESS_FLAGS);
    assert "s" in Keys(m) && Flagged(MakeTouchInfo(m, "s"), PRESS_FLAGS) == c by { DefaultContactOfS(); }
    DefaultPressSTable();
    assert Values(HOLDING_A_S.active) == [DefaultContact(0, 300, HOLD_FLAGS), c];
    assert HOLDING_A.pressed + {"s"} == HOLDING_A_S.pressed;
  }

  lemma DefaultReleaseA()
    ensures OnKeyEvent(DEFAULT_POSITIONS, HOLDING_A_S, KeyEvent("a", "up"))
      == Outcome(HOLDING_S, Some([DefaultContact(0, 300, RELEASE_FLAGS), DefaultContact(1, 400, HOLD_FLAGS)]), None)
  {
    assert Keys(DEFAULT_POSITIONS)[0] == "a";
    var marked := MarkRelease(HOLDING_A_S.active, "a");
    assert marked == [("a", DefaultContact(0, 300, RELEASE_FLAGS)), ("s", DefaultContact(1, 400, HOLD_FLAGS))];
    assert Keys(marked)[0] == "a";
    assert IndexOf(marked, "a") == 0;
    assert marked[..0] + marked[1..] == HOLDING_S.active;
    assert Delete(marked, "a") == Some(HOLDING_S.active);
    assert Values(marked) == [DefaultContact(0, 300, RELEASE_FLAGS), DefaultContact(1, 400, HOLD_FLAGS)];
    assert {"a", "s"} - {"a"} == {"s"};
  }

  lemma DefaultRepeatA()
    ensures OnKeyEvent(DEFAULT_POSITIONS, HOLDING_A, KeyEvent("a", "down")) == Outcome(HOLDING_A, None, None)
  {
    assert "a" in HOLDING_A.pressed;
  }

  /** A keep-alive pass while only s is held re-sends s as held. */
  lemma DefaultTick()
    ensures KeepAliveTick(HOLDING_S) == Sent(HOLDING_S, Some([DefaultContact(1, 400, HOLD_FLAGS)]))
  {
    assert MarkAll(HOLDING_S.active, HOLD_FLAGS) == HOLDING_S.active;
    assert Values(HOLDING_S.active) == [DefaultContact(1, 400, HOLD_FLAGS)];
  }
}
