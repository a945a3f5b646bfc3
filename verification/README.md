# Key2touch: the key-to-touch mapper, modelled in Dafny

Key2touch turns keyboard presses into synthetic multi-touch input on Windows. Each mapped key stands for one finger at a fixed screen position. Pressing the key puts the finger down. Holding it keeps the finger in contact, and releasing it lifts the finger. Every change is reported to the platform as one batch: the whole table of active contacts, each carrying pointer flags that say what happened to it. A background loop re-sends the table while any key is held, so the platform does not cancel a long press.

This project models that logic as pure functions over immutable values:

- `basics.dfy` (`Basics`): `Option`, plus the 32-bit truncation ctypes applies to the signed `LONG` fields of `POINT`/`RECT` and to the unsigned `UINT` pointer id.
- `ordered_dict.dfy` (`OrderedDict`): a Python dict as an insertion-ordered sequence of entries. `Put` replaces a value in place or appends a new key. `Delete` fails with `None` where Python raises `KeyError`.
- `pointer_ids.dfy` (`PointerIdTable`): `pointer_ids = {key: idx for idx, key in enumerate(...)}`.
- `pointer_flags.dfy` (`PointerFlags`):
  - the flag constants of `Const` and of test.py;
  - `parse_flag`, with flag words as `bv32`;
  - `DecodeFlagString`, an independent reader of its output, used to state the round trip.
- `decimal.dfy` (`Decimal`): Python's `str()` of an integer, and a parser that reads it back.
- `touch_info.dfy` (`TouchInfo`): the contact record, restricted to the fields the mapper writes; `__repr__`; and `ParseRepr`, a reader of that text.
- `touch_mapper.dfy` (`TouchMapper`):
  - `make_touch_info` and `inject_contacts`;
  - the two locked handler bodies (`on_key_event` split into `Press` and `Release`, and one `update_loop` pass);
  - the invariant that both keep;
  - a session over the shipped mapping a, s, d, f.

The shared state is `State(pressed, active)`: `pressed_keys` and `active_touches`. A handler returns an `Outcome`, made of:
- the next state;
- the batch it submitted, if any (`Inject` of the table);
- the exception it raised, if any.

Each handler body runs under `touch_lock` in the source, so each is one atomic step here.

This code does not do several things a broader description of the system mentions. The model follows the code.
- There are no chords.
- Release always flags the lifted contact `UP | INRANGE`. There is no "superseded end" or CANCELED policy.
- `InitializeTouchInjection` runs once at load time (test.py:69). It is not re-run at the start of each idle period.
- Auto-repeat is suppressed by `pressed_keys`, not by the presence of a contact.
- The batch is sent, and the contact is then deleted, whether or not the platform call succeeded.

## Model

| member | source | states |
|---|---|---|
| Basics.Long | test.py:81 | A Python int stored in a signed 32-bit ctypes field is in the LONG range and congruent to the value modulo 2^32 |
| Basics.ULong | test.py:80 | A Python int stored in the UINT pointerId field is below 2^32 and congruent to the value modulo 2^32 |
| Basics.LongIsIdentityExactlyInRange | test.py:81 | Storing into a LONG field leaves the value unchanged if and only if it fits the signed 32-bit range |
| Basics.ULongIsIdentityExactlyInRange | test.py:80 | Storing into a UINT field leaves the value unchanged if and only if it is in 0 .. 2^32-1 |
| OrderedDict.Get | test.py:76 | A dict lookup succeeds exactly for present keys, and what it returns is stored under that key |
| OrderedDict.GetEntry | test.py:76 | In a dict with distinct keys, looking up the key of any entry yields that entry's value |
| OrderedDict.Put | test.py:141 | `d[k] = v` on a present key keeps the key order; on a new key it appends at the end; other entries are untouched; the key then maps to v; keys stay distinct |
| OrderedDict.Delete | test.py:166 | `del d[k]` succeeds exactly when k is present, and then removes that one entry and keeps the others in order |
| OrderedDict.DeleteLeavesOtherKeys | test.py:166 | After `del d[k]` the keys are exactly the old keys except k, still distinct |
| OrderedDict.DeleteLast | test.py:166 | Deleting the key that was appended last gives back the dict as it was before the append |
| PointerIdTable.PointerIds | test.py:60 | Every enumerated key gets an id, and each id is a position of its own key in the enumeration |
| PointerIdTable.IdsAreEnumerationIndices | test.py:60 | For distinct keys the ids are a bijection onto 0 .. N-1: the i-th key gets id i, no two keys share an id, and every id below N is used |
| PointerFlags.FlagBitsAreDistinctSingleBits | utils.py:9-17 | DOWN, INRANGE, INCONTACT, UPDATE, UP and CANCELED are nonzero single bits, pairwise disjoint, whose union is the known mask |
| PointerFlags.ParseFlag | utils.py:54-68 | `parse_flag` returns "0" exactly when no known bit is set, and otherwise the names joined by the bar separator |
| PointerFlags.NoNamesIffNoKnownBits | utils.py:65-68 | The name list is empty if and only if none of the six known bits is set, so a flag word of 0 renders as "0" |
| PointerFlags.FlagNamedIffBitSet | utils.py:66-67 | A flag's name is listed if and only if that flag's bit is set in the word |
| PointerFlags.FlagNamesInTableOrder | utils.py:58-67 | The listed names are those at the set positions of the table, in ascending table order DOWN, INRANGE, INCONTACT, UPDATE, UP, CANCELED |
| PointerFlags.ParseFlagRoundTrip | utils.py:54-68 | Reading the output back recovers exactly the known bits of the word |
| PointerFlags.ParseFlagInjectiveOnNamedBits | utils.py:54-68 | Two words render the same if and only if they agree on the six known bits |
| PointerFlags.ParseFlagAvoidsDelimiters | utils.py:58-68 | The rendering never contains ',' or ')', so it can be the last field of the repr |
| PointerFlags.ParseFlagOfUpRelease | utils.py:58-68 | The word UP+INRANGE renders as INRANGE, bar, UP |
| Decimal.NatToString | utils.py:52 | The f-string rendering of a natural is a nonempty digit string without a leading zero, and its value is the number |
| Decimal.IntToString | utils.py:52 | The rendering of any integer is nonempty and holds no ',', ')' or ' ' |
| Decimal.ParseIntRoundTrip | utils.py:52 | Parsing the rendering of an integer gives back that integer |
| TouchInfo.Repr | utils.py:51-52 | `__repr__` starts with "POINTER_TOUCH_INFO(" and ends with ")" |
| TouchInfo.ReprRoundTrip | utils.py:51-52 | From `__repr__` a reader recovers the pointer id, x, y and the known flag bits of the contact |
| TouchInfo.ReprFieldsOfLiftedContact | utils.py:52 | The lifted contact with id 0 at (300, 500) shows the fields "0", "300", "500" and the rendering INRANGE, bar, UP |
| TouchMapper.PositionOf | test.py:76 | `key_positions[key]` is the position stored with that key |
| TouchMapper.PointerIdOf | test.py:77 | `pointer_ids[key]` is a position in the mapping that holds this key |
| TouchMapper.PointerIdIsEnumerationIndex | test.py:60 | The i-th mapped key has pointer id i |
| TouchMapper.DefaultPointerIds | test.py:52-60 | The shipped mapping numbers a, s, d, f as 0, 1, 2, 3 |
| TouchMapper.PixelPoint | test.py:81 | `POINT(x, y)` holds exactly x and y whenever they fit the LONG fields |
| TouchMapper.ContactArea | test.py:87 | `RECT(x-5, y-5, x+5, y+5)` is a square of side 10 centred on (x, y) whenever its corners fit |
| TouchMapper.ContactId | test.py:77-80 | The UINT pointerId written is the key's own id whenever the mapping has at most 2^32 keys |
| TouchMapper.MakeTouchInfo | test.py:74-88 | A contact built for a key has type PT_TOUCH, zero pointer and touch flags, mask ALL, the id of that key, the key's pixel position, and the ±5 square around it |
| TouchMapper.DefaultContactOfA | test.py:74-88 | The contact built for "a" in the shipped mapping has id 0 at (300, 500) with rect (295, 495, 305, 505) |
| TouchMapper.DefaultContactOfS | test.py:74-88 | The contact built for "s" in the shipped mapping has id 1 at (400, 500) with rect (395, 495, 405, 505) |
| TouchMapper.Inject | test.py:90-98 | An empty batch makes no platform call; a nonempty one makes exactly one call carrying all contacts in order |
| TouchMapper.MarkAll | test.py:132-135 | Re-flagging keeps every key in place and gives each contact the new flags |
| TouchMapper.MarkRelease | test.py:157-163 | The released key's contact gets UP+INRANGE and every other one UPDATE+INRANGE+INCONTACT, in table order |
| TouchMapper.Press | test.py:128-142 | A fresh down marks the key pressed, stores its contact as DOWN+INRANGE+INCONTACT (appended if new), re-flags every other contact UPDATE+INRANGE+INCONTACT and submits the whole table |
| TouchMapper.Release | test.py:153-166 | An up unmarks the key and submits the table with the key lifted and the others held; the key's entry is then deleted, or KeyError is raised exactly when it had none |
| TouchMapper.OnKeyEvent | test.py:119-166 | Unmapped keys, repeated downs, ups of unpressed keys and other event types change nothing and submit nothing; a fresh down presses and an up of a held key releases |
| TouchMapper.KeepAliveTick | test.py:109-117 | An empty table stops the loop; otherwise every contact is re-flagged UPDATE+INRANGE+INCONTACT, nothing else changes, and the whole table is submitted |
| TouchMapper.KeepAliveTickIdempotent | test.py:113-117 | A second keep-alive pass right after one sends the same batch and leaves the same state |
| TouchMapper.MarkAllIdempotent | test.py:113-116 | Re-flagging every contact twice with the same flags is re-flagging once |
| TouchMapper.InitialInv | test.py:63-64 | The empty pressed set and empty table satisfy the invariant |
| TouchMapper.PressPreservesInv | test.py:128-142 | A fresh down keeps the table a dict whose keys are the pressed keys and whose entries are the contacts of their keys |
| TouchMapper.ReleasePreservesInv | test.py:153-166 | An up of a held key keeps the invariant and never reaches the KeyError |
| TouchMapper.OnKeyEventPreservesInv | test.py:119-166 | Every handled event keeps the invariant and raises nothing |
| TouchMapper.KeepAliveTickPreservesInv | test.py:109-117 | A keep-alive pass keeps the invariant |
| TouchMapper.ActivePointerIdsDistinct | test.py:60-64 | Under the invariant no two active contacts share a pointer id |
| TouchMapper.FramePointerIdsDistinct | test.py:119-166 | Every batch an event submits carries each pointer id at most once |
| TouchMapper.PressAppends | test.py:132-141 | A down of a key not yet in the table appends its pressed contact after the held table |
| TouchMapper.ReleaseLast | test.py:157-166 | Releasing the last entry submits the held table followed by the lifted contact, and leaves the held table |
| TouchMapper.PressThenReleaseRestores | test.py:128-166 | Pressing a free key and releasing it restores the pressed set and the table (re-flagged as held), and the release batch ends with the key lifted |
| TouchMapper.Run | test.py:119-166 | Handling a sequence of events submits at most one batch per event |
| TouchMapper.RunPreservesInv | test.py:119-166 | Any sequence of events from a state keeping the invariant ends in one keeping it |
| TouchMapper.DefaultPressA | test.py:124-142 | Pressing a in the shipped mapping from the start sends one DOWN contact (id 0, (300, 500)) and holds it |
| TouchMapper.DefaultPressSTable | test.py:132-141 | Pressing s while a is down leaves the table a held, then s pressed |
| TouchMapper.DefaultPressS | test.py:124-142 | Pressing s while a is down sends a as UPDATE and s as DOWN in one batch |
| TouchMapper.DefaultRepeatA | test.py:126-127 | An auto-repeated down of a changes nothing and sends nothing |
| TouchMapper.DefaultReleaseA | test.py:150-166 | Releasing a while a and s are down sends a as UP and s as UPDATE, then leaves only s |
| TouchMapper.DefaultTick | test.py:109-117 | A keep-alive pass while only s is held re-sends s as UPDATE and changes nothing |

## Left out

- ctypes structure layouts (test.py:19-49, utils.py:20-49). Only the fields the mapper writes are modelled. The others stay zero in the source, and `rcContactRaw` and the other fields play no part in the logic.
- The Win32 calls `InitializeTouchInjection`, `InjectTouchInput` and `GetLastError`, and the failure message (test.py:68-72, 98-100). These are foreign calls. A submission is modelled as the batch value it carries. A failed call changes no state in the source, so nothing is lost.
- Threading: `touch_lock`, the updater-thread start and restart (test.py:65, 144-148, 169), and `time.sleep` (test.py:108). This is concurrency and timing. Each locked block is one atomic step, and one `update_loop` iteration is `KeepAliveTick`.
- `pressed_keys.add` and `pressed_keys.remove` happen outside the lock in the source. The model folds them into the same atomic step as the locked block that follows, because a key event handler is not re-entered by the keyboard hook.
- `keyboard.hook` and `keyboard.wait` (test.py:172-175). This is OS input plumbing. `Run` feeds a sequence of events instead.
- The interactive shells, mapping authoring and file writing (kt_shell.py, code/kt_shell.py, code/map_creator.py, writer.py, mouse_reader.py). These are terminal and file I/O outside the mapper.
- The chord-aware mapper module that code/kt_shell.py imports is not part of this model. No chord behaviour is modelled.
- `pointerFlags` is a signed INT field in the structure but a `bv32` here. Every value the mapper writes is below 2^31, so the two agree.
- `utils.Const.in_range` is an `IntEnum` alias of `pt_touch`, since both are 2. `parse_flag` looks flags up by value, so this has no effect on its output and is not modelled separately.
- TouchInfo.Repr: the exact text of a whole repr is stated only through `ReprRoundTrip`, `ReprParts` and the fields of one concrete contact, not as a single literal string.
- TouchMapper.Run: its own contract bounds only the number of batches. Its meaning comes from `OnKeyEvent` and `RunPreservesInv`.
