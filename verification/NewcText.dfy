/** The text of New ASCII headers: which fields Python's `int(text, 16)` takes, and what an entry is made of. */
module NewcText {
  import opened ByteStrings
  import opened Wrappers
  import opened Newc

  const LOWER: seq<Byte> := Ascii("0123456789abcdef")
  const UPPER: seq<Byte> := Ascii("0123456789ABCDEF")

  /** The character is a digit of that value, in either case. */
  predicate Means(b: Byte, d: nat) {
    d < 16 && (b == LOWER[d] || b == UPPER[d])
  }

  predicate IsDigit(b: Byte) {
    exists d :: 0 <= d < 16 && Means(b, d)
  }

  lemma DigitIff(b: Byte, d: nat)
    ensures HexValue(b) == Some(d) <==> Means(b, d)
  {
    if d < 16 {
      assert LOWER[d] == if d < 10 then 0x30 + d else 0x61 + d - 10;
      assert UPPER[d] == if d < 10 then 0x30 + d else 0x41 + d - 10;
    }
  }

  lemma IsDigitIff(b: Byte)
    ensures IsDigit(b) <==> HexValue(b).Some?
    ensures IsDigit(b) ==> b != 0x5f && !Blank(b) && b != 0x2b && b != 0x2d && b != 0x78 && b != 0x58
    ensures HexValue(b).Some? ==> HexValue(b).value < 16
  {
    if HexValue(b).Some? {
      DigitIff(b, HexValue(b).value);
    }
    if d :| 0 <= d < 16 && Means(b, d) {
      DigitIff(b, d);
    }
  }

  predicate Blank(b: Byte) {
    b in {9, 10, 11, 12, 13, 32}
  }

  /** Digits with single underscores between them; the first of `s` may follow one. */
  predicate Continues(s: seq<Byte>) {
    && (forall i :: 0 <= i < |s| ==> IsDigit(s[i]) || s[i] == 0x5f)
    && (forall i :: 0 <= i < |s| - 1 && s[i] == 0x5f ==> s[i + 1] != 0x5f)
    && (s != [] ==> s[|s| - 1] != 0x5f)
  }

  predicate Spelled(s: seq<Byte>) {
    s != [] && s[0] != 0x5f && Continues(s)
  }

  /** The digits of `s`, most significant first, behind a number already read. */
  function Horner(acc: nat, s: seq<Byte>): nat
    decreases |s|
  {
    if s == [] then acc
    else Horner(if HexValue(s[0]).Some? then 16 * acc + HexValue(s[0]).value else acc, s[1..])
  }

  lemma {:induction false} MoreDigitsIff(s: seq<Byte>, acc: nat)
    ensures MoreDigits(s, acc).Some? <==> Continues(s)
    ensures MoreDigits(s, acc).Some? ==> MoreDigits(s, acc).value == Horner(acc, s)
    decreases |s|
  {
    hide HexValue, IsDigit;
    if |s| > 0 {
      IsDigitIff(s[0]);
      if s[0] != 0x5f {
        ContinuesTail(s, 1);
        if HexValue(s[0]).Some? {
          MoreDigitsIff(s[1..], 16 * acc + HexValue(s[0]).value);
        }
      } else if |s| >= 2 {
        IsDigitIff(s[1]);
        if s[1] != 0x5f {
          ContinuesTail(s, 2);
        }
        if HexValue(s[1]).Some? {
          assert s[1..][0] == s[1] && s[1..][1..] == s[2..];
          MoreDigitsIff(s[2..], 16 * acc + HexValue(s[1]).value);
        }
      }
    }
  }

  lemma ContinuesTail(s: seq<Byte>, k: nat)
    requires 1 <= k <= |s| && k <= 2 && s[k - 1] != 0x5f && (k == 2 ==> s[0] == 0x5f)
    ensures Continues(s) <==> IsDigit(s[k - 1]) && Continues(s[k..])
  {
    hide IsDigit;
    var t := s[k..];
    forall i | 0 <= i < |t|
      ensures t[i] == s[i + k]
    {}
    if IsDigit(s[k - 1]) && Continues(t) {
      forall i | 0 <= i < |s|
        ensures IsDigit(s[i]) || s[i] == 0x5f
      {
        assert i >= k ==> t[i - k] == s[i];
      }
      forall i | 0 <= i < |s| - 1 && s[i] == 0x5f
        ensures s[i + 1] != 0x5f
      {
        assert i >= k ==> t[i - k] == s[i] && t[i - k + 1] == s[i + 1];
      }
    }
  }

  lemma DigitsIff(s: seq<Byte>)
    ensures Digits(s).Some? <==> Spelled(s)
    ensures Digits(s).Some? ==> Digits(s).value == Horner(0, s)
  {
    hide HexValue, IsDigit, MoreDigits;
    if s != [] {
      IsDigitIff(s[0]);
      if s[0] != 0x5f {
        ContinuesTail(s, 1);
        if HexValue(s[0]).Some? {
          MoreDigitsIff(s[1..], HexValue(s[0]).value);
        }
      }
    }
  }

  /** An optional 0x or 0X, which one underscore may follow, in front of the digits. */
  ghost predicate Number(s: seq<Byte>, prefix: seq<Byte>, digits: seq<Byte>) {
    s == prefix + digits && Spelled(digits)
    && prefix in {[], [0x30, 0x78], [0x30, 0x58], [0x30, 0x78, 0x5f], [0x30, 0x58, 0x5f]}
  }

  lemma NumberReads(s: seq<Byte>, prefix: seq<Byte>, digits: seq<Byte>)
    requires Number(s, prefix, digits)
    ensures Unsigned(s) == Some(Horner(0, digits))
    ensures s != [] && IsDigit(s[0]) && IsDigit(s[|s| - 1])
  {
    hide HexValue, Continues, Digits;
    DigitsIff(digits);
    EndsInDigits(digits);
    assert s[|s| - 1] == digits[|digits| - 1];
    DigitIff(0x30, 0);
    assert Means(0x30, 0);
    if prefix == [] {
      assert s == digits;
      if |s| >= 2 {
        SecondIsNoX(digits);
      }
    } else if |prefix| == 2 {
      assert s[2..] == digits && s[2] == digits[0];
    } else {
      assert s[3..] == digits && s[2] == 0x5f;
    }
  }

  lemma EndsInDigits(s: seq<Byte>)
    requires Spelled(s)
    ensures IsDigit(s[0]) && IsDigit(s[|s| - 1])
  {
    hide IsDigit;
  }

  lemma SecondIsNoX(s: seq<Byte>)
    requires Spelled(s) && |s| >= 2
    ensures s[1] != 0x78 && s[1] != 0x58
  {
    hide IsDigit;
    IsDigitIff(s[1]);
  }

  lemma UnsignedSplits(s: seq<Byte>) returns (prefix: seq<Byte>, digits: seq<Byte>)
    requires Unsigned(s).Some?
    ensures Number(s, prefix, digits)
  {
    hide HexValue, Continues, Digits;
    if |s| >= 2 && s[0] == 0x30 && (s[1] == 0x78 || s[1] == 0x58) {
      prefix, digits := [s[0], s[1]], s[2..];
      if |s| >= 3 && s[2] == 0x5f {
        prefix, digits := [s[0], s[1], s[2]], s[3..];
      }
    } else {
      prefix, digits := [], s;
    }
    assert s == prefix + digits;
    DigitsIff(digits);
  }

  predicate AllBlank(s: seq<Byte>) {
    forall i :: 0 <= i < |s| ==> Blank(s[i])
  }

  lemma {:induction false} SkipIs(a: seq<Byte>, rest: seq<Byte>)
    requires AllBlank(a) && (rest != [] ==> !Blank(rest[0]))
    ensures SkipSpace(a + rest) == rest
  {
    if a == [] {
      assert a + rest == rest;
    } else {
      assert (a + rest)[1..] == a[1..] + rest;
      SkipIs(a[1..], rest);
    }
  }

  lemma {:induction false} TrimIs(rest: seq<Byte>, b: seq<Byte>)
    requires AllBlank(b) && (rest != [] ==> !Blank(rest[|rest| - 1]))
    ensures TrimSpace(rest + b) == rest
    decreases |b|
  {
    var s := rest + b;
    if b == [] {
      assert s == rest;
    } else {
      assert s[|s| - 1] == b[|b| - 1] && s[..|s| - 1] == rest + b[..|b| - 1];
      TrimIs(rest, b[..|b| - 1]);
    }
  }

  lemma {:induction false} SkipSplits(s: seq<Byte>) returns (a: seq<Byte>)
    ensures AllBlank(a) && s == a + SkipSpace(s)
  {
    a := [];
    if |s| > 0 && IsSpace(s[0]) {
      var more := SkipSplits(s[1..]);
      a := [s[0]] + more;
      assert s == [s[0]] + s[1..];
    }
  }

  lemma {:induction false} TrimSplits(s: seq<Byte>) returns (b: seq<Byte>)
    ensures AllBlank(b) && s == TrimSpace(s) + b
    decreases |s|
  {
    b := [];
    if |s| > 0 && IsSpace(s[|s| - 1]) {
      var more := TrimSplits(s[..|s| - 1]);
      b := more + [s[|s| - 1]];
      assert s == s[..|s| - 1] + [s[|s| - 1]];
    }
  }

  /** Blanks, an optional sign, a number, blanks: and the value this denotes. */
  ghost predicate Text(field: seq<Byte>, value: int, a: seq<Byte>, sign: seq<Byte>, prefix: seq<Byte>,
                       digits: seq<Byte>, b: seq<Byte>) {
    && field == a + (sign + (prefix + digits)) + b
    && AllBlank(a) && AllBlank(b) && sign in {[], [0x2b], [0x2d]} && Number(prefix + digits, prefix, digits)
    && value == if sign == [0x2d] then 0 - Horner(0, digits) else Horner(0, digits)
  }

  lemma TextReads(field: seq<Byte>, value: int, a: seq<Byte>, sign: seq<Byte>, prefix: seq<Byte>, digits: seq<Byte>,
                  b: seq<Byte>)
    requires Text(field, value, a, sign, prefix, digits, b)
    ensures HexField(field) == Some(value)
  {
    hide Unsigned, SkipSpace, TrimSpace, HexValue, IsDigit, Horner, Blank, Spelled;
    var u := prefix + digits;
    NumberReads(u, prefix, digits);
    var s := sign + u;
    IsDigitIff(u[0]);
    IsDigitIff(u[|u| - 1]);
    assert s[|s| - 1] == u[|u| - 1];
    SignNotBlank();
    assert field == a + (s + b);
    assert (s + b)[0] == s[0];
    SkipIs(a, s + b);
    TrimIs(s, b);
    if sign == [] {
      assert s == u;
    } else {
      assert s[1..] == u && s[0] == sign[0];
    }
  }

  lemma TextSplits(field: seq<Byte>, value: int)
    returns (a: seq<Byte>, sign: seq<Byte>, prefix: seq<Byte>, digits: seq<Byte>, b: seq<Byte>)
    requires HexField(field) == Some(value)
    ensures Text(field, value, a, sign, prefix, digits, b)
  {
    hide Unsigned, HexValue, IsDigit, Horner, Blank, Spelled;
    a := SkipSplits(field);
    b := TrimSplits(SkipSpace(field));
    var s := TrimSpace(SkipSpace(field));
    hide SkipSpace, TrimSpace;
    sign := if |s| > 0 && (s[0] == 0x2d || s[0] == 0x2b) then [s[0]] else [];
    var u := if sign == [] then s else s[1..];
    assert s == sign + u;
    prefix, digits := UnsignedSplits(u);
    NumberReads(u, prefix, digits);
  }

  lemma SignNotBlank()
    ensures !Blank(0x2b) && !Blank(0x2d)
  {}

  /**
   * A header field is accepted exactly when it is a hexadecimal number as Python spells one: blanks around an
   * optional sign, an optional 0x or 0X that one underscore may follow, and digits of either case with single
   * underscores between them. The value is that of the digits.
   */
  lemma HexFieldIff(field: seq<Byte>, value: int)
    ensures HexField(field) == Some(value) <==>
      exists a, sign, prefix, digits, b :: Text(field, value, a, sign, prefix, digits, b)
  {
    hide HexField, Text;
    if HexField(field) == Some(value) {
      var a, sign, prefix, digits, b := TextSplits(field, value);
    }
    if a, sign, prefix, digits, b :| Text(field, value, a, sign, prefix, digits, b) {
      TextReads(field, value, a, sign, prefix, digits, b);
    }
  }

  // ---- what an entry is made of ----

  /** Upper-case and lower-case spellings of a number have the same value. */
  lemma {:induction false} CaseAlike(acc: nat, s: seq<Byte>, t: seq<Byte>)
    requires |s| == |t|
    requires forall i :: 0 <= i < |s| ==>
      s[i] == t[i] || exists d :: 0 <= d < 16 && s[i] == LOWER[d] && t[i] == UPPER[d]
    ensures Horner(acc, s) == Horner(acc, t)
    decreases |s|
  {
    hide HexValue;
    if s != [] {
      if s[0] != t[0] {
        var d :| 0 <= d < 16 && s[0] == LOWER[d] && t[0] == UPPER[d];
        assert Means(s[0], d) && Means(t[0], d);
        DigitIff(s[0], d);
        DigitIff(t[0], d);
      }
      CaseAlike(if HexValue(s[0]).Some? then 16 * acc + HexValue(s[0]).value else acc, s[1..], t[1..]);
    }
  }

  /** A field of the header, at its place. */
  predicate Holds(s: seq<Byte>, at: nat, value: int) {
    at + 8 <= |s| && HexField(s[at..at + 8]) == Some(value % 0x1_0000_0000)
  }

  lemma {:induction false} FieldAt(vs: seq<int>, i: nat)
    requires i < |vs|
    ensures EncodeFields(vs)[8 * i..8 * i + 8] == Field(vs[i])
  {
    hide Field;
    var s := EncodeFields(vs);
    if i == 0 {
      assert s[0..8] == Field(vs[0]);
    } else {
      FieldAt(vs[1..], i - 1);
      var rest := EncodeFields(vs[1..]);
      assert s == Field(vs[0]) + rest;
      assert s[8 * i..8 * i + 8] == rest[8 * (i - 1)..8 * (i - 1) + 8];
    }
  }

  lemma FieldHolds(s: seq<Byte>, vs: seq<int>, i: nat)
    requires |vs| == 13 && i < 13 && |s| >= 110 && s[6..110] == EncodeFields(vs)
    ensures Holds(s, 6 + 8 * i, vs[i])
  {
    hide Field, HexField;
    FieldAt(vs, i);
    FieldRoundTrip(vs[i]);
    SliceOfSlice(s, 6, 110, 8 * i, 8 * i + 8);
  }

  /** The thirteen numbers of a header, at the offsets of the format. */
  predicate HeaderHolds(s: seq<Byte>, m: Meta, size: int, nameSize: int) {
    && Holds(s, 6, m.ino) && Holds(s, 14, m.mode) && Holds(s, 22, m.uid) && Holds(s, 30, m.gid)
    && Holds(s, 38, m.nlink) && Holds(s, 46, m.mtime) && Holds(s, 54, size)
    && Holds(s, 62, m.devmajor) && Holds(s, 70, m.devminor) && Holds(s, 78, m.rdevmajor) && Holds(s, 86, m.rdevminor)
    && Holds(s, 94, nameSize) && Holds(s, 102, m.check)
  }

  lemma FieldsHold(s: seq<Byte>, e: Entry)
    requires |s| >= 110 && s[6..110] == EncodeFields(Values(e))
    ensures HeaderHolds(s, e.meta, |e.data|, |e.name| + 1)
  {
    hide Holds, EncodeFields;
    var vs := Values(e);
    forall i | 0 <= i < 13
      ensures Holds(s, 6 + 8 * i, vs[i])
    {
      FieldHolds(s, vs, i);
    }
    assert Holds(s, 6 + 8 * 0, vs[0]) && Holds(s, 6 + 8 * 1, vs[1]) && Holds(s, 6 + 8 * 2, vs[2]);
    assert Holds(s, 6 + 8 * 3, vs[3]) && Holds(s, 6 + 8 * 4, vs[4]) && Holds(s, 6 + 8 * 5, vs[5]);
    assert Holds(s, 6 + 8 * 6, vs[6]) && Holds(s, 6 + 8 * 7, vs[7]) && Holds(s, 6 + 8 * 8, vs[8]);
    assert Holds(s, 6 + 8 * 9, vs[9]) && Holds(s, 6 + 8 * 10, vs[10]) && Holds(s, 6 + 8 * 11, vs[11]);
    assert Holds(s, 6 + 8 * 12, vs[12]);
  }

  /** The place of the data, in terms of the name. */
  function DataAt(e: Entry): nat {
    var named := 110 + |e.name| + 1;
    named + (4 - named % 4) % 4
  }

  /**
   * An emitted entry, field by field at the offsets of the format: magic, thirteen numbers of eight digits, the name
   * with its NUL, and the data at the next multiple of four, zeros in between and to the next multiple of four.
   */
  lemma EmitLayout(e: Entry)
    requires KnownMagic(e)
    ensures
      var s, named, start := Emit(e), 110 + |e.name| + 1, DataAt(e);
      && named <= start && |s| == start + |e.data| + (4 - (start + |e.data|) % 4) % 4
      && s[..6] == e.magic && (e.magic == Ascii("070701") || e.magic == Ascii("070702"))
      && HeaderHolds(s, e.meta, |e.data|, |e.name| + 1)
      && s[110..named - 1] == e.name && s[named - 1] == 0
      && AllZero(s[named..start]) && s[start..start + |e.data|] == e.data && AllZero(s[start + |e.data|..])
  {
    hide EncodeFields, HeaderHolds, Values, Emit, AllZero, Ascii, Align4, DataAt, Pad4;
    EmitParts(e, []);
    EmitGaps(e);
    var s := Emit(e);
    assert s + [] == s;
    FieldsHold(s, e);
    NameParts(s, e.name);
  }

  lemma NameParts(s: seq<Byte>, name: seq<Byte>)
    requires 110 + |name| + 1 <= |s| && s[110..110 + |name| + 1] == name + [0]
    ensures s[110..110 + |name|] == name && s[110 + |name|] == 0
  {
    var text := s[110..110 + |name| + 1];
    assert text[|name|] == 0;
    assert s[110..110 + |name|] == text[..|name|];
  }

  lemma EmitGaps(e: Entry)
    requires KnownMagic(e)
    ensures
      var s, named, start := Emit(e), 110 + |e.name| + 1, DataAt(e);
      && named <= start == Align4(named) && start + |e.data| <= |s|
      && |s| == start + |e.data| + (4 - (start + |e.data|) % 4) % 4
      && AllZero(s[named..start]) && AllZero(s[start + |e.data|..])
  {
    hide EncodeFields, Values, Align4, DataAt, Pad4, Zeros, AllZero;
    var head := e.magic + EncodeFields(Values(e)) + (e.name + [0]);
    PadsTo(|head|);
    PadsBehind(|head| + Pad4(|head|), |e.data|);
    DataPlace(e);
    Gaps(head, Zeros(Pad4(|head|)), e.data, Zeros(Pad4(|e.data|)));
  }

  lemma PadsTo(n: nat)
    ensures n + Pad4(n) == Align4(n) == n + (4 - n % 4) % 4 && Align4(n) % 4 == 0
  {}

  lemma PadsBehind(start: nat, n: nat)
    requires start % 4 == 0
    ensures Pad4(n) == (4 - (start + n) % 4) % 4
  {}

  lemma DataPlace(e: Entry)
    ensures DataAt(e) == 110 + |e.name| + 1 + (4 - (110 + |e.name| + 1) % 4) % 4
  {}

  lemma Gaps(head: seq<Byte>, gap: seq<Byte>, data: seq<Byte>, pad: seq<Byte>)
    ensures
      var s := head + gap + data + pad;
      && s[|head|..|head| + |gap|] == gap
      && s[|head| + |gap| + |data|..] == pad
  {}

  // ---- what the straight reading accepts ----

  /** All thirteen fields of a header are numbers, and these are their values. */
  ghost predicate Numbers(data: seq<Byte>, vs: seq<int>)
    requires |data| >= 110
  {
    |vs| == 13 && forall i :: 0 <= i < 13 ==> HexField(data[6 + 8 * i..14 + 8 * i]) == Some(vs[i])
  }

  lemma {:induction false} DecodeIff(s: seq<Byte>, vs: seq<int>)
    requires |s| % 8 == 0
    ensures DecodeFields(s) == Some(vs) <==>
      8 * |vs| == |s| && forall i :: 0 <= i < |vs| ==> HexField(s[8 * i..8 * i + 8]) == Some(vs[i])
    decreases |s|
  {
    hide HexField;
    if s != [] && vs != [] {
      var rest, ws := s[8..], vs[1..];
      DecodeIff(rest, ws);
      forall i | 0 <= i < |ws| && 8 * |vs| == |s|
        ensures rest[8 * i..8 * i + 8] == s[8 * (i + 1)..8 * (i + 1) + 8]
      {}
      assert vs == [vs[0]] + ws;
      if 8 * |vs| == |s| && forall i :: 0 <= i < |vs| ==> HexField(s[8 * i..8 * i + 8]) == Some(vs[i]) {
        assert s[8 * 0..8 * 0 + 8] == s[..8];
        forall i | 0 <= i < |ws|
          ensures HexField(rest[8 * i..8 * i + 8]) == Some(ws[i])
        {
          assert ws[i] == vs[i + 1];
        }
      }
      if DecodeFields(s) == Some(vs) {
        forall i | 0 <= i < |vs|
          ensures HexField(s[8 * i..8 * i + 8]) == Some(vs[i])
        {
          if i == 0 {
            assert s[8 * 0..8 * 0 + 8] == s[..8];
          } else {
            assert vs[i] == ws[i - 1] && rest[8 * (i - 1)..8 * (i - 1) + 8] == s[8 * i..8 * i + 8];
          }
        }
      }
    }
  }

  lemma NumbersIff(data: seq<Byte>, vs: seq<int>)
    requires |data| >= 110
    ensures DecodeFields(data[6..110]) == Some(vs) <==> Numbers(data, vs)
  {
    hide HexField;
    var s := data[6..110];
    DecodeIff(s, vs);
    forall i | 0 <= i < 13
      ensures s[8 * i..8 * i + 8] == data[6 + 8 * i..14 + 8 * i]
    {
      SliceOfSlice(data, 6, 110, 8 * i, 8 * i + 8);
    }
  }

  /**
   * Bytes are read as an entry exactly when they start with one of the two magics and thirteen numbers, the twelfth a
   * name size that covers a NUL at its end, the seventh a data size, and reach to the end of the data at the next
   * multiple of four; the metadata are the other eleven numbers in their order.
   */
  lemma ParseIff(data: seq<Byte>, e: Entry, next: nat)
    ensures ParseEntry(data) == Some(Parsed(e, next)) <==>
      && |data| >= 110 && (data[..6] == Ascii("070701") || data[..6] == Ascii("070702")) && e.magic == data[..6]
      && exists vs :: Numbers(data, vs) && Spells(data, e, next, vs)
  {
    hide HexField, DecodeFields, Align4;
    if |data| >= 110 && (data[..6] == MAGIC || data[..6] == MAGIC_CRC) {
      if ParseEntry(data) == Some(Parsed(e, next)) {
        var vs := DecodeFields(data[6..110]).value;
        NumbersIff(data, vs);
        SpellsIff(data, e, next, vs);
        assert Numbers(data, vs) && Spells(data, e, next, vs);
      }
      if vs :| Numbers(data, vs) && Spells(data, e, next, vs) {
        NumbersIff(data, vs);
        SpellsIff(data, e, next, vs);
      }
    }
  }

  /** The next multiple of four. */
  function Up4(n: nat): nat {
    n + (4 - n % 4) % 4
  }

  ghost predicate Spells(data: seq<Byte>, e: Entry, next: nat, vs: seq<int>)
    requires |data| >= 110 && |vs| == 13
  {
    && vs[11] >= 1 && 110 + vs[11] <= |data| && data[110 + vs[11] - 1] == 0
    && e.name == data[110..110 + vs[11] - 1]
    && vs[6] >= 0
    && var start := Up4(110 + vs[11]);
    && start + vs[6] <= |data| && e.data == data[start..start + vs[6]] && next == Up4(start + vs[6])
    && [e.meta.ino, e.meta.mode, e.meta.uid, e.meta.gid, e.meta.nlink, e.meta.mtime] == vs[..6]
    && [e.meta.devmajor, e.meta.devminor, e.meta.rdevmajor, e.meta.rdevminor] == vs[7..11] && e.meta.check == vs[12]
  }

  lemma UpIs(n: nat)
    ensures Up4(n) == Align4(n)
  {}

  lemma MetaIs(m: Meta, vs: seq<int>)
    requires |vs| == 13
    ensures MetaOf(vs) == m <==>
      && [m.ino, m.mode, m.uid, m.gid, m.nlink, m.mtime] == vs[..6]
      && [m.devmajor, m.devminor, m.rdevmajor, m.rdevminor] == vs[7..11] && m.check == vs[12]
  {
    var a, b := [m.ino, m.mode, m.uid, m.gid, m.nlink, m.mtime], [m.devmajor, m.devminor, m.rdevmajor, m.rdevminor];
    if a == vs[..6] && b == vs[7..11] {
      assert a[0] == vs[0] && a[1] == vs[1] && a[2] == vs[2] && a[3] == vs[3] && a[4] == vs[4] && a[5] == vs[5];
      assert b[0] == vs[7] && b[1] == vs[8] && b[2] == vs[9] && b[3] == vs[10];
    }
  }

  lemma SpellsIff(data: seq<Byte>, e: Entry, next: nat, vs: seq<int>)
    requires |data| >= 110 && |vs| == 13 && (data[..6] == MAGIC || data[..6] == MAGIC_CRC)
    requires DecodeFields(data[6..110]) == Some(vs)
    ensures ParseEntry(data) == Some(Parsed(e, next)) <==> e.magic == data[..6] && Spells(data, e, next, vs)
  {
    hide HexField, DecodeFields, Align4, MetaOf, Up4;
    MetaIs(e.meta, vs);
    if vs[11] >= 1 && vs[6] >= 0 {
      UpIs(110 + vs[11]);
      UpIs(Align4(110 + vs[11]) + vs[6]);
    }
  }
}
