/** The contact record passed to the platform (`POINTER_TOUCH_INFO` in
    test.py, `Pointer_Touch_Info` in utils.py) restricted to the fields the
    mapper sets, and utils.py's `__repr__` of it. */
module TouchInfo {
  import opened Basics
  import opened Decimal
  import opened PointerFlags

  /** A ctypes POINT: two signed 32-bit coordinates. */
  datatype Point = Point(x: int, y: int)

  /** A ctypes RECT. */
  datatype Rect = Rect(left: int, top: int, right: int, bottom: int)

  /** The fields of one contact record that the mapper writes; every other
      field of the structure stays zero. */
  datatype PointerTouchInfo = PointerTouchInfo(
    pointerType: bv32,
    pointerId: nat,
    pointerFlags: bv32,
    pixelLocation: Point,
    touchFlags: bv32,
    touchMask: bv32,
    contact: Rect
  )

  const REPR_PREFIX: string := "POINTER_TOUCH_INFO("
  const FIELD_SEPARATOR: string := ", "

  /** `__repr__`: pointer id, pixel x, pixel y and the parse_flag rendering of
      the pointer flags. */
  function Repr(t: PointerTouchInfo): (r: string)
    ensures |r| > |REPR_PREFIX| && r[..|REPR_PREFIX|] == REPR_PREFIX && r[|r| - 1] == ')'
  {
    var r := REPR_PREFIX + Join(ReprParts(t), FIELD_SEPARATOR) + ")";
    assert r[..|REPR_PREFIX|] == REPR_PREFIX;
    r
  }

  /** The four rendered fields, in order. */
  function ReprParts(t: PointerTouchInfo): (parts: seq<string>)
    ensures |parts| == 4
  {
    [IntToString(t.pointerId), IntToString(t.pixelLocation.x), IntToString(t.pixelLocation.y), ParseFlag(t.pointerFlags)]
  }

  /** What a repr string tells a reader about the contact. */
  datatype ReprFields = ReprFields(pointerId: int, x: int, y: int, flags: bv32)

  /** Reads a repr back: the three integers and the named flag bits. None for
      text that Repr cannot produce. */
  function ParseRepr(s: string): Option<ReprFields> {
    if |s| <= |REPR_PREFIX| || s[..|REPR_PREFIX|] != REPR_PREFIX || s[|s| - 1] != ')' then None
    else ParseFields(Split(s[|REPR_PREFIX|..|s| - 1], ','))
  }

  /** The four comma-separated fields between the parentheses. */
  function ParseFields(parts: seq<string>): Option<ReprFields> {
    if |parts| != 4 then None
    else
      var id := ParseInt(parts[0]);
      var x := ParseFieldInt(parts[1]);
      var y := ParseFieldInt(parts[2]);
      var f := Field(parts[3]);
      if id.None? || x.None? || y.None? || f.None? then None
      else
        var flags := DecodeFlagString(f.value);
        if flags.None? then None
        else Some(ReprFields(id.value, x.value, y.value, flags.value))
  }

  function ParseFieldInt(p: string): Option<int> {
    var f := Field(p);
    if f.None? then None else ParseInt(f.value)
  }

  /** A field after the first: the text after the separator's space. */
  function Field(p: string): Option<string> {
    if |p| > 0 && p[0] == ' ' then Some(p[1..]) else None
  }

  /** Position of the first c in s. */
  function FirstIndex(s: string, c: char): (i: nat)
    requires c in s
    ensures i < |s| && s[i] == c && c !in s[..i]
  {
    if s[0] == c then 0
    else
      assert c in s[1..] by { var k :| 0 <= k < |s| && s[k] == c; assert s[1..][k - 1] == c; }
      var i := 1 + FirstIndex(s[1..], c);
      assert s[..i] == [s[0]] + s[1..][..i - 1];
      i
  }

  /** Python's `s.split(c)`. */
  function Split(s: string, c: char): (parts: seq<string>)
    ensures |parts| > 0
    decreases |s|
  {
    if c !in s then [s]
    else
      var i := FirstIndex(s, c);
      [s[..i]] + Split(s[i + 1..], c)
  }

  /** Splitting at a separator that the first piece does not contain peels
      off exactly that piece. */
  lemma SplitPeels(a: string, c: char, b: string)
    requires c !in a
    ensures Split(a + [c] + b, c) == [a] + Split(b, c)
  {
    var s := a + [c] + b;
    assert s[|a|] == c;
    var i := FirstIndex(s, c);
    assert s[..i] == a;
    assert s[i + 1..] == b;
  }

  /** Reading a repr back recovers the pointer id, the pixel location and the
      flag bits parse_flag names: `__repr__` loses only unnamed flag bits. */
  lemma ReprRoundTrip(t: PointerTouchInfo)
    ensures ParseRepr(Repr(t)) == Some(ReprFields(t.pointerId, t.pixelLocation.x, t.pixelLocation.y, t.pointerFlags & KNOWN))
  {
    var parts := ReprParts(t);
    var pieces := ReprPieces(t);
    assert ParseInt(pieces[0]) == Some(t.pointerId as int) by {
      ParseIntRoundTrip(t.pointerId);
    }
    assert ParseFieldInt(pieces[1]) == Some(t.pixelLocation.x) by {
      assert Field(pieces[1]) == Some(parts[1]);
      ParseIntRoundTrip(t.pixelLocation.x);
    }
    assert ParseFieldInt(pieces[2]) == Some(t.pixelLocation.y) by {
      assert Field(pieces[2]) == Some(parts[2]);
      ParseIntRoundTrip(t.pixelLocation.y);
    }
    assert Field(pieces[3]) == Some(parts[3]);
    ParseFlagRoundTrip(t.pointerFlags);
  }

  /** The text between the parentheses of a repr splits at its commas into
      the four rendered fields. */
  lemma ReprPieces(t: PointerTouchInfo) returns (pieces: seq<string>)
    ensures ParseRepr(Repr(t)) == ParseFields(pieces)
    ensures var parts := ReprParts(t);
      && |pieces| == |parts|
      && pieces[0] == parts[0]
      && forall i :: 1 <= i < |parts| ==> pieces[i] == " " + parts[i]
  {
    var parts := ReprParts(t);
    var inner := Join(parts, FIELD_SEPARATOR);
    var s := Repr(t);
    pieces := Split(inner, ',');
    assert ParseRepr(s) == ParseFields(pieces) by {
      assert s[..|REPR_PREFIX|] == REPR_PREFIX;
      assert s[|REPR_PREFIX|..|s| - 1] == inner;
    }
    ParseFlagAvoidsDelimiters(t.pointerFlags);
    assert forall i :: 0 <= i < |parts| ==> ',' !in parts[i];
    assert "" + inner == inner;
    SplitJoinedFields("", parts);
    assert "" + parts[0] == parts[0];
  }

  /** Splitting `lead + ", ".join(parts)` at commas gives back the parts, the
      first behind lead and every later one behind the separator's space,
      provided no part contains a comma. */
  lemma {:induction false} SplitJoinedFields(lead: string, parts: seq<string>)
    requires |parts| > 0
    requires ',' !in lead
    requires forall i :: 0 <= i < |parts| ==> ',' !in parts[i]
    ensures var pieces := Split(lead + Join(parts, FIELD_SEPARATOR), ',');
      && |pieces| == |parts|
      && pieces[0] == lead + parts[0]
      && forall i :: 1 <= i < |parts| ==> pieces[i] == " " + parts[i]
    decreases |parts|
  {
    if |parts| == 1 {
      assert ',' !in lead + parts[0];
    } else {
      var rest := Join(parts[1..], FIELD_SEPARATOR);
      assert lead + Join(parts, FIELD_SEPARATOR) == (lead + parts[0]) + [','] + (" " + rest);
      assert ',' !in lead + parts[0];
      SplitPeels(lead + parts[0], ',', " " + rest);
      SplitJoinedFields(" ", parts[1..]);
    }
  }

  lemma RenderedZero()
    ensures IntToString(0) == "0"
  {
  }

  lemma RenderedHundreds(d: nat)
    requires 1 <= d <= 9
    ensures IntToString(d * 100) == [DigitChar(d), '0', '0']
  {
    assert NatToString(d * 10) == [DigitChar(d), '0'];
  }

  /** The fields `__repr__` shows for a lifted contact with pointer id 0 at
      (300, 500): "0", "300", "500" and "INRANGE | UP". */
  lemma ReprFieldsOfLiftedContact()
    ensures ReprParts(PointerTouchInfo(PT_TOUCH, 0, UP | IN_RANGE, Point(300, 500), NONE, MASK_ALL, Rect(295, 495, 305, 505)))
      == ["0", "300", "500", "INRANGE | UP"]
  {
    ParseFlagOfUpRelease();
    RenderedZero();
    RenderedHundreds(3);
    RenderedHundreds(5);
  }
}
