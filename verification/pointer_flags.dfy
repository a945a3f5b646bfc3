/** The pointer-flag constants of utils.py's `Const` (repeated as module
    constants in test.py) and `Pointer_Touch_Info.parse_flag`, which renders a
    flag word as the `" | "`-joined names of the flags it carries. */
module PointerFlags {
  import opened Basics

  const PT_TOUCH: bv32 := 0x0000_0002
  const DOWN: bv32 := 0x0001_0000
  const IN_RANGE: bv32 := 0x0000_0002
  const IN_CONTACT: bv32 := 0x0000_0004
  const UPDATE: bv32 := 0x0002_0000
  const UP: bv32 := 0x0004_0000
  const MASK_ALL: bv32 := 0x0000_0007
  const NONE: bv32 := 0x0000_0000
  const CANCELED: bv32 := 0x0000_8000

  /** parse_flag walks six (bit, name) pairs in one fixed order; position j
      of that table holds BITS[j] and NAMES[j]. */
  const FLAG_COUNT: nat := 6
  const BITS: seq<bv32> := [DOWN, IN_RANGE, IN_CONTACT, UPDATE, UP, CANCELED]
  const NAMES: seq<string> := ["DOWN", "INRANGE", "INCONTACT", "UPDATE", "UP", "CANCELED"]

  /** Every bit parse_flag can name. */
  const KNOWN: bv32 := 0x0007_8006

  const SEPARATOR: string := " | "

  /** The outcome of parse_flag's test `flag & flags` at each table position. */
  function SetBits(flag: bv32): (bits: seq<bool>)
    ensures |bits| == FLAG_COUNT
  {
    [flag & DOWN != 0, flag & IN_RANGE != 0, flag & IN_CONTACT != 0,
     flag & UPDATE != 0, flag & UP != 0, flag & CANCELED != 0]
  }

  /** The names of the set positions among j .. 5, in table order. */
  function NamesFrom(bits: seq<bool>, j: nat): seq<string>
    requires |bits| == FLAG_COUNT && j <= FLAG_COUNT
  {
    Pick(NAMES, bits, j)
  }

  /** The entries of table at the set positions among j .. 5, in order. */
  function Pick<T>(table: seq<T>, bits: seq<bool>, j: nat): seq<T>
    requires |table| == FLAG_COUNT && |bits| == FLAG_COUNT && j <= FLAG_COUNT
    decreases FLAG_COUNT - j
  {
    if j == FLAG_COUNT then []
    else if bits[j] then [table[j]] + Pick(table, bits, j + 1)
    else Pick(table, bits, j + 1)
  }

  /** The list `temp` that parse_flag builds. */
  function FlagNames(flag: bv32): seq<string> {
    NamesFrom(SetBits(flag), 0)
  }

  /** Python's `sep.join(parts)`. */
  function Join(parts: seq<string>, sep: string): string {
    if |parts| == 0 then ""
    else if |parts| == 1 then parts[0]
    else parts[0] + sep + Join(parts[1..], sep)
  }

  /** `parse_flag(flag)`: the joined names, or "0" when no named bit is set. */
  function ParseFlag(flag: bv32): (s: string)
    ensures s == "0" <==> flag & KNOWN == 0
    ensures s != "0" ==> s == Join(FlagNames(flag), SEPARATOR)
  {
    var names := FlagNames(flag);
    NoNamesIffNoKnownBits(flag);
    if |names| == 0 then "0"
    else
      ListedNames(SetBits(flag), 0);
      NameLength(Listed(SetBits(flag), 0)[0]);
      JoinStartsWithHead(names, SEPARATOR);
      Join(names, SEPARATOR)
  }

  /** The set positions from j on, in increasing order: the positions behind
      the names NamesFrom(bits, j) lists. */
  function Listed(bits: seq<bool>, j: nat): (ps: seq<nat>)
    requires |bits| == FLAG_COUNT && j <= FLAG_COUNT
    ensures forall a :: 0 <= a < |ps| ==> j <= ps[a] < FLAG_COUNT
    decreases FLAG_COUNT - j
  {
    if j == FLAG_COUNT then []
    else if bits[j] then [j] + Listed(bits, j + 1)
    else Listed(bits, j + 1)
  }

  /** Listed holds exactly the set positions from j on, in increasing order. */
  lemma ListedExactly(bits: seq<bool>, j: nat)
    requires |bits| == FLAG_COUNT && j <= FLAG_COUNT
    ensures forall a :: 0 <= a < |Listed(bits, j)| ==> bits[Listed(bits, j)[a]]
    ensures forall a, b :: 0 <= a < b < |Listed(bits, j)| ==> Listed(bits, j)[a] < Listed(bits, j)[b]
    ensures forall i :: j <= i < FLAG_COUNT && bits[i] ==> i in Listed(bits, j)
  {
    forall a | 0 <= a < |Listed(bits, j)| ensures bits[Listed(bits, j)[a]] {
      ListedAt(bits, j, a);
    }
    forall a, b | 0 <= a < b < |Listed(bits, j)| ensures Listed(bits, j)[a] < Listed(bits, j)[b] {
      ListedAt(bits, j, a);
      ListedAt(bits, j, b);
    }
    forall i | j <= i < FLAG_COUNT && bits[i] ensures i in Listed(bits, j) {
      ListedComplete(bits, j, i);
    }
  }

  /** The a-th listed position is set, and every listed position after it
      is larger. */
  lemma {:induction false} ListedAt(bits: seq<bool>, j: nat, a: nat)
    requires |bits| == FLAG_COUNT && j <= FLAG_COUNT && a < |Listed(bits, j)|
    ensures bits[Listed(bits, j)[a]]
    ensures forall b :: a < b < |Listed(bits, j)| ==> Listed(bits, j)[a] < Listed(bits, j)[b]
    decreases FLAG_COUNT - j
  {
    var ps := Listed(bits, j + 1);
    if bits[j] {
      assert Listed(bits, j) == [j] + ps;
      if a > 0 {
        ListedAt(bits, j + 1, a - 1);
      }
    } else {
      ListedAt(bits, j + 1, a);
    }
  }

  /** Every set position from j on is listed. */
  lemma {:induction false} ListedComplete(bits: seq<bool>, j: nat, i: nat)
    requires |bits| == FLAG_COUNT && j <= i < FLAG_COUNT && bits[i]
    ensures i in Listed(bits, j)
    decreases FLAG_COUNT - j
  {
    if i > j {
      ListedComplete(bits, j + 1, i);
      var ps := Listed(bits, j + 1);
      assert Listed(bits, j) == ps || Listed(bits, j) == [j] + ps;
    }
  }

  /** The a-th listed name is the name at the a-th listed position. */
  lemma ListedNames(bits: seq<bool>, j: nat)
    requires |bits| == FLAG_COUNT && j <= FLAG_COUNT
    ensures |NamesFrom(bits, j)| == |Listed(bits, j)|
    ensures forall a :: 0 <= a < |Listed(bits, j)| ==> NamesFrom(bits, j)[a] == NAMES[Listed(bits, j)[a]]
  {
    PickListed(NAMES, bits, j);
  }

  /** Picking from a table gives the entries at the listed positions. */
  lemma PickListed<T>(table: seq<T>, bits: seq<bool>, j: nat)
    requires |table| == FLAG_COUNT && |bits| == FLAG_COUNT && j <= FLAG_COUNT
    ensures |Pick(table, bits, j)| == |Listed(bits, j)|
    ensures forall a :: 0 <= a < |Listed(bits, j)| ==> Pick(table, bits, j)[a] == table[Listed(bits, j)[a]]
  {
    PickLength(table, bits, j);
    forall a | 0 <= a < |Listed(bits, j)| ensures Pick(table, bits, j)[a] == table[Listed(bits, j)[a]] {
      PickAt(table, bits, j, a);
    }
  }

  lemma {:induction false} PickLength<T>(table: seq<T>, bits: seq<bool>, j: nat)
    requires |table| == FLAG_COUNT && |bits| == FLAG_COUNT && j <= FLAG_COUNT
    ensures |Pick(table, bits, j)| == |Listed(bits, j)|
    decreases FLAG_COUNT - j
  {
    if j < FLAG_COUNT {
      PickLength(table, bits, j + 1);
    }
  }

  /** The a-th picked entry is the table entry at the a-th listed position. */
  lemma {:induction false} PickAt<T>(table: seq<T>, bits: seq<bool>, j: nat, a: nat)
    requires |table| == FLAG_COUNT && |bits| == FLAG_COUNT && j <= FLAG_COUNT
    requires a < |Listed(bits, j)|
    ensures a < |Pick(table, bits, j)| && Pick(table, bits, j)[a] == table[Listed(bits, j)[a]]
    decreases FLAG_COUNT - j
  {
    PickLength(table, bits, j);
    if bits[j] {
      if a > 0 {
        PickAt(table, bits, j + 1, a - 1);
      }
    } else {
      PickAt(table, bits, j + 1, a);
    }
  }

  /** The six names differ, already in length (4, 7, 9, 6, 2 and 8). */
  lemma NameLength(i: nat)
    requires i < FLAG_COUNT
    ensures |NAMES[i]| == [4, 7, 9, 6, 2, 8][i]
  {
  }

  lemma NamesDiffer(i: nat, k: nat)
    requires i < FLAG_COUNT && k < FLAG_COUNT
    ensures NAMES[i] == NAMES[k] <==> i == k
  {
    NameLength(i);
    NameLength(k);
  }

  /** The six named constants are distinct single bits whose union is KNOWN,
      and SetBits(flag)[i] tests exactly the bit at position i. */
  lemma FlagBitsAreDistinctSingleBits(flag: bv32)
    ensures forall i :: 0 <= i < FLAG_COUNT ==> BITS[i] != 0 && BITS[i] & (BITS[i] - 1) == 0
    ensures forall i, j :: 0 <= i < j < FLAG_COUNT ==> BITS[i] & BITS[j] == 0
    ensures DOWN | IN_RANGE | IN_CONTACT | UPDATE | UP | CANCELED == KNOWN
    ensures forall i :: 0 <= i < FLAG_COUNT ==> (SetBits(flag)[i] <==> flag & BITS[i] != 0)
  {
  }

  /** The named part of a flag word is exactly what SetBits records. */
  lemma KnownBitsBySetBits(flag: bv32)
    ensures flag & KNOWN == 0 <==> forall i :: 0 <= i < FLAG_COUNT ==> !SetBits(flag)[i]
    ensures flag & KNOWN == Encode(Positions(SetBits(flag), 0))
  {
    var bits := SetBits(flag);
    assert !bits[0] && !bits[1] && !bits[2] && !bits[3] && !bits[4] && !bits[5]
      ==> forall i :: 0 <= i < FLAG_COUNT ==> !bits[i];
  }

  /** The set positions at or after j. */
  function Positions(bits: seq<bool>, j: nat): set<nat>
    requires |bits| == FLAG_COUNT && j <= FLAG_COUNT
  {
    set i | j <= i < FLAG_COUNT && bits[i]
  }

  /** The flag word carrying exactly the bits at the given table positions. */
  function Encode(ps: set<nat>): bv32 {
    (if 0 in ps then DOWN else 0)
    | (if 1 in ps then IN_RANGE else 0)
    | (if 2 in ps then IN_CONTACT else 0)
    | (if 3 in ps then UPDATE else 0)
    | (if 4 in ps then UP else 0)
    | (if 5 in ps then CANCELED else 0)
  }

  /** parse_flag lists no name exactly when the word has none of the six bits. */
  lemma NoNamesIffNoKnownBits(flag: bv32)
    ensures |FlagNames(flag)| == 0 <==> flag & KNOWN == 0
  {
    var bits := SetBits(flag);
    ListedNames(bits, 0);
    ListedExactly(bits, 0);
    KnownBitsBySetBits(flag);
    var ps := Listed(bits, 0);
    if |ps| > 0 {
      assert bits[ps[0]];
    }
  }

  /** parse_flag names a flag exactly when its bit is set. */
  lemma FlagNamedIffBitSet(flag: bv32, i: nat)
    requires i < FLAG_COUNT
    ensures NAMES[i] in FlagNames(flag) <==> flag & BITS[i] != 0
  {
    FlagBitsAreDistinctSingleBits(flag);
    var bits := SetBits(flag);
    ListedNames(bits, 0);
    ListedExactly(bits, 0);
    var ps := Listed(bits, 0);
    var ns := FlagNames(flag);
    if bits[i] {
      var a :| 0 <= a < |ps| && ps[a] == i;
      assert ns[a] == NAMES[i];
    }
    if NAMES[i] in ns {
      var a :| 0 <= a < |ns| && ns[a] == NAMES[i];
      NamesDiffer(ps[a], i);
    }
  }

  /** The names appear in table order DOWN, INRANGE, INCONTACT, UPDATE, UP,
      CANCELED: the a-th name comes from a strictly earlier table position
      than the b-th whenever a < b, and each comes from a set bit. */
  lemma FlagNamesInTableOrder(flag: bv32)
    ensures var ps := Listed(SetBits(flag), 0);
      && |FlagNames(flag)| == |ps|
      && (forall a :: 0 <= a < |ps| ==> FlagNames(flag)[a] == NAMES[ps[a]] && flag & BITS[ps[a]] != 0)
      && (forall a, b :: 0 <= a < b < |ps| ==> ps[a] < ps[b])
  {
    ListedNames(SetBits(flag), 0);
    ListedExactly(SetBits(flag), 0);
    FlagBitsAreDistinctSingleBits(flag);
  }

  lemma JoinStartsWithHead(parts: seq<string>, sep: string)
    requires |parts| > 0
    ensures |Join(parts, sep)| >= |parts[0]|
    ensures Join(parts, sep)[..|parts[0]|] == parts[0]
  {
  }

  /** Inverse of ParseFlag on the named bits: reads the names back in table
      order. None for text parse_flag cannot produce. */
  function DecodeFlagString(s: string): Option<bv32> {
    if s == "0" then Some(0)
    else
      match DecodeFrom(s, 0)
      case Some(ps) => Some(Encode(ps))
      case None => None
  }

  /** The table positions named by s, reading from position j on. */
  function DecodeFrom(s: string, j: nat): Option<set<nat>>
    requires j <= FLAG_COUNT
    decreases FLAG_COUNT - j
  {
    if j == FLAG_COUNT then
      if s == "" then Some({}) else None
    else
      var head := NAMES[j] + SEPARATOR;
      if s == NAMES[j] then Some({j})
      else if |head| < |s| && s[..|head|] == head then
        match DecodeFrom(s[|head|..], j + 1)
        case Some(rest) => Some({j} + rest)
        case None => None
      else DecodeFrom(s, j + 1)
  }

  /** A later name, followed by nothing or by a separator, never starts with
      an earlier name. */
  lemma LaterNameIsNotPrefixed(j: nat, k: nat, tail: string)
    requires j < k < FLAG_COUNT
    requires tail == "" || (|tail| >= |SEPARATOR| && tail[..|SEPARATOR|] == SEPARATOR)
    ensures var s := NAMES[k] + tail;
      !(|NAMES[j]| <= |s| && s[..|NAMES[j]|] == NAMES[j])
  {
    var s := NAMES[k] + tail;
    var name := NAMES[j];
    var p := if (j == 1 && k == 2) || (j == 3 && k == 4) then 2 else 0;
    if j == 3 && k == 4 && tail == "" {
      assert |s| < |name|;
    } else {
      assert p < |name| && p < |s|;
      if k == 4 && p == 2 {
        assert tail[0] == SEPARATOR[0];
        assert s[p] == tail[0];
      } else {
        assert s[p] == NAMES[k][p];
      }
      assert s[p] != name[p];
      if |name| <= |s| {
        assert s[..|name|][p] != name[p];
      }
    }
  }

  lemma {:induction false} DecodeFromJoin(bits: seq<bool>, j: nat)
    requires |bits| == FLAG_COUNT && j <= FLAG_COUNT
    ensures DecodeFrom(Join(NamesFrom(bits, j), SEPARATOR), j) == Some(Positions(bits, j))
    decreases FLAG_COUNT - j
  {
    if j == FLAG_COUNT {
      assert Positions(bits, j) == {};
    } else {
      DecodeFromJoin(bits, j + 1);
      ListedNames(bits, j + 1);
      ListedExactly(bits, j + 1);
      if |NamesFrom(bits, j + 1)| == 0 {
        assert Positions(bits, j + 1) == {};
      }
      if bits[j] {
        DecodeSetPosition(bits, j);
      } else {
        DecodeUnsetPosition(bits, j);
      }
    }
  }

  /** Decoding one step where position j is set: its name, then the rest. */
  lemma DecodeSetPosition(bits: seq<bool>, j: nat)
    requires |bits| == FLAG_COUNT && j < FLAG_COUNT && bits[j]
    requires DecodeFrom(Join(NamesFrom(bits, j + 1), SEPARATOR), j + 1) == Some(Positions(bits, j + 1))
    requires |NamesFrom(bits, j + 1)| == 0 ==> Positions(bits, j + 1) == {}
    ensures DecodeFrom(Join(NamesFrom(bits, j), SEPARATOR), j) == Some(Positions(bits, j))
  {
    var name := NAMES[j];
    var rest := NamesFrom(bits, j + 1);
    assert NamesFrom(bits, j) == [name] + rest;
    assert Positions(bits, j) == {j} + Positions(bits, j + 1);
    if |rest| == 0 {
      assert Join([name] + rest, SEPARATOR) == name by {
        assert [name] + rest == [name];
      }
      assert DecodeFrom(name, j) == Some({j});
      assert Positions(bits, j) == {j};
    } else {
      var t := Join(rest, SEPARATOR);
      assert Join([name] + rest, SEPARATOR) == name + SEPARATOR + t by {
        assert ([name] + rest)[1..] == rest;
      }
      assert |t| > 0 by {
        ListedNames(bits, j + 1);
        NameLength(Listed(bits, j + 1)[0]);
        JoinStartsWithHead(rest, SEPARATOR);
      }
      DecodeNameThenRest(j, t, Positions(bits, j + 1));
    }
  }

  /** A name, a separator and text that decodes from the next position on
      decode to that name's position plus the rest. */
  lemma DecodeNameThenRest(j: nat, t: string, ps: set<nat>)
    requires j < FLAG_COUNT && |t| > 0
    requires DecodeFrom(t, j + 1) == Some(ps)
    ensures DecodeFrom(NAMES[j] + SEPARATOR + t, j) == Some({j} + ps)
  {
    var head := NAMES[j] + SEPARATOR;
    var s := head + t;
    assert s != NAMES[j] by { NameLength(j); }
    assert s[..|head|] == head;
    assert s[|head|..] == t;
  }

  /** Decoding one step where position j is not set: the text does not start
      with its name, so decoding moves on. */
  lemma DecodeUnsetPosition(bits: seq<bool>, j: nat)
    requires |bits| == FLAG_COUNT && j < FLAG_COUNT && !bits[j]
    requires DecodeFrom(Join(NamesFrom(bits, j + 1), SEPARATOR), j + 1) == Some(Positions(bits, j + 1))
    ensures DecodeFrom(Join(NamesFrom(bits, j), SEPARATOR), j) == Some(Positions(bits, j))
  {
    var rest := NamesFrom(bits, j + 1);
    assert NamesFrom(bits, j) == rest;
    assert Positions(bits, j) == Positions(bits, j + 1);
    var s := Join(rest, SEPARATOR);
    assert !(|NAMES[j]| <= |s| && s[..|NAMES[j]|] == NAMES[j]) by {
      if |rest| > 0 {
        ListedNames(bits, j + 1);
        var k := Listed(bits, j + 1)[0];
        var tail := JoinSplitsHead(rest, SEPARATOR);
        LaterNameIsNotPrefixed(j, k, tail);
      }
    }
    DecodeSkipsOtherText(s, j);
  }

  /** A join is its first part followed by nothing or by a separator. */
  lemma JoinSplitsHead(parts: seq<string>, sep: string) returns (tail: string)
    requires |parts| > 0
    ensures Join(parts, sep) == parts[0] + tail
    ensures tail == "" || (|tail| >= |sep| && tail[..|sep|] == sep)
  {
    tail := if |parts| == 1 then "" else sep + Join(parts[1..], sep);
    assert |parts| > 1 ==> tail[..|sep|] == sep;
  }

  /** Text that does not start with the name at position j decodes as if
      decoding began at position j + 1. */
  lemma DecodeSkipsOtherText(s: string, j: nat)
    requires j < FLAG_COUNT
    requires !(|NAMES[j]| <= |s| && s[..|NAMES[j]|] == NAMES[j])
    ensures DecodeFrom(s, j) == DecodeFrom(s, j + 1)
  {
  }

  /** Reading parse_flag's text back recovers exactly the named bits of the
      flag word: the rendering loses nothing but the bits it does not name. */
  lemma ParseFlagRoundTrip(flag: bv32)
    ensures DecodeFlagString(ParseFlag(flag)) == Some(flag & KNOWN)
  {
    KnownBitsBySetBits(flag);
    if flag & KNOWN != 0 {
      DecodeFromJoin(SetBits(flag), 0);
    }
  }

  /** Two flag words render alike exactly when they agree on the named bits. */
  lemma ParseFlagInjectiveOnNamedBits(f: bv32, g: bv32)
    ensures ParseFlag(f) == ParseFlag(g) <==> f & KNOWN == g & KNOWN
  {
    ParseFlagRoundTrip(f);
    ParseFlagRoundTrip(g);
    if f & KNOWN == g & KNOWN {
      SameKnownBitsSameSetBits(f, g);
    }
  }

  lemma SameKnownBitsSameSetBits(f: bv32, g: bv32)
    requires f & KNOWN == g & KNOWN
    ensures SetBits(f) == SetBits(g)
  {
  }

  /** A join contains a character only if a part or the separator does. */
  lemma {:induction false} JoinAvoids(parts: seq<string>, sep: string, c: char)
    requires forall i :: 0 <= i < |parts| ==> c !in parts[i]
    requires c !in sep
    ensures c !in Join(parts, sep)
  {
    if |parts| > 1 {
      JoinAvoids(parts[1..], sep, c);
    }
  }

  /** Every table name is written in capital letters only. */
  lemma NameIsUpperCase(i: nat)
    requires i < FLAG_COUNT
    ensures forall p :: 0 <= p < |NAMES[i]| ==> 'A' <= NAMES[i][p] <= 'Z'
  {
    var name := NAMES[i];
    if i == 0 { assert name == "DOWN"; }
    else if i == 1 { assert name == "INRANGE"; }
    else if i == 2 { assert name == "INCONTACT"; }
    else if i == 3 { assert name == "UPDATE"; }
    else if i == 4 { assert name == "UP"; }
    else { assert name == "CANCELED"; }
  }

  /** parse_flag's text never contains a comma or a closing parenthesis, so
      it can be embedded as the last field of a contact's repr. */
  lemma ParseFlagAvoidsDelimiters(flag: bv32)
    ensures ',' !in ParseFlag(flag) && ')' !in ParseFlag(flag)
  {
    var ns := FlagNames(flag);
    ListedNames(SetBits(flag), 0);
    forall a | 0 <= a < |ns| ensures ',' !in ns[a] && ')' !in ns[a] {
      NameIsUpperCase(Listed(SetBits(flag), 0)[a]);
    }
    if flag & KNOWN != 0 {
      JoinAvoids(ns, SEPARATOR, ',');
      JoinAvoids(ns, SEPARATOR, ')');
    }
  }

  lemma ParseFlagOfUpRelease()
    ensures ParseFlag(UP | IN_RANGE) == "INRANGE | UP"
  {
    var bits := SetBits(UP | IN_RANGE);
    assert bits == [false, true, false, false, true, false];
    assert NamesFrom(bits, 4) == ["UP"];
    assert Join(["INRANGE", "UP"], SEPARATOR) == "INRANGE" + SEPARATOR + "UP";
  }
}
