/** The part of C's sscanf that the device-manager decoder relies on: `%d`
    conversions and literal characters, over a NUL-terminated buffer, plus the
    printf-style `%d` rendering that a producer of such records uses. */
module Scan {
  import opened BatteryTypes

  /** isspace in the C locale: space and the controls \t \n \v \f \r (9..13). */
  predicate IsSpace(c: char) {
    c == ' ' || 9 <= c as int <= 13
  }

  predicate IsDigit(c: char) {
    '0' <= c <= '9'
  }

  predicate AllDigits(ds: string) {
    forall k :: 0 <= k < |ds| ==> IsDigit(ds[k])
  }

  function DigitValue(c: char): (d: int)
    requires IsDigit(c)
    ensures 0 <= d <= 9
  {
    c as int - '0' as int
  }

  function DigitChar(d: int): (c: char)
    requires 0 <= d <= 9
    ensures IsDigit(c) && DigitValue(c) == d
  {
    (d + '0' as int) as char
  }

  predicate NoNul(s: string) {
    forall k :: 0 <= k < |s| ==> s[k] != '\0'
  }

  /** The C string held by a buffer: everything before its first NUL. */
  function CString(buf: string): (s: string)
    ensures |s| <= |buf| && s == buf[..|s|]
    ensures NoNul(s)
    ensures |s| < |buf| ==> buf[|s|] == '\0'
  {
    if |buf| == 0 || buf[0] == '\0' then "" else [buf[0]] + CString(buf[1..])
  }

  /** Text without a NUL survives into the C string whole. */
  lemma {:induction false} CStringAppend(a: string, b: string)
    requires NoNul(a)
    ensures CString(a + b) == a + CString(b)
    decreases |a|
  {
    if |a| > 0 {
      assert (a + b)[1..] == a[1..] + b;
      CStringAppend(a[1..], b);
      assert [a[0]] + (a[1..] + CString(b)) == a + CString(b);
    } else {
      assert a + b == b;
    }
  }

  /** Text without a NUL is its own C string. */
  lemma CStringWhole(s: string)
    requires NoNul(s)
    ensures CString(s) == s
  {
    CStringAppend(s, "");
    assert s + "" == s;
  }

  /** Joining texts without a NUL gives a text without a NUL. */
  lemma NoNulJoin(a: string, b: string)
    requires NoNul(a) && NoNul(b)
    ensures NoNul(a + b)
  {
  }

  /** First index at or after i that does not hold white space. */
  function SkipSpace(s: string, i: nat): (j: nat)
    requires i <= |s|
    ensures i <= j <= |s|
    ensures forall k :: i <= k < j ==> IsSpace(s[k])
    ensures j < |s| ==> !IsSpace(s[j])
    decreases |s| - i
  {
    if i < |s| && IsSpace(s[i]) then SkipSpace(s, i + 1) else i
  }

  /** End of the maximal run of decimal digits that starts at i. */
  function DigitEnd(s: string, i: nat): (j: nat)
    requires i <= |s|
    ensures i <= j <= |s|
    ensures forall k :: i <= k < j ==> IsDigit(s[k])
    ensures j < |s| ==> !IsDigit(s[j])
    decreases |s| - i
  {
    if i < |s| && IsDigit(s[i]) then DigitEnd(s, i + 1) else i
  }

  /** Value of the decimal digits s[i..j], most significant digit first.
      Indices are used rather than a slice so that scanning one string never
      takes two different slices of it. */
  function DigitsValue(s: string, i: nat, j: nat): nat
    requires i <= j <= |s|
    requires forall q :: i <= q < j ==> IsDigit(s[q])
    decreases j - i
  {
    if j == i then 0 else DigitsValue(s, i, j - 1) * 10 + DigitValue(s[j - 1])
  }

  /** Equal digit runs have equal values, wherever they sit. */
  lemma {:induction false} DigitsShift(s: string, i: nat, t: string, j: nat, len: nat)
    requires i + len <= |s| && j + len <= |t|
    requires forall q :: i <= q < i + len ==> IsDigit(s[q])
    requires forall q :: j <= q < j + len ==> IsDigit(t[q])
    requires forall q :: i <= q < i + len ==> s[q] == t[q - i + j]
    ensures DigitsValue(s, i, i + len) == DigitsValue(t, j, j + len)
    decreases len
  {
    if len > 0 {
      DigitsShift(s, i, t, j, len - 1);
      assert s[i + len - 1] == t[j + len - 1];
    }
  }

  /** A successful `%d` conversion: the value stored and the index just
      past the last character consumed. */
  datatype Conv = Conv(value: int, next: nat)

  /** A number starts at index j: a digit, or a sign followed by a digit. */
  predicate NumberAt(s: string, j: nat) {
    j < |s| && (IsDigit(s[j]) || ((s[j] == '-' || s[j] == '+') && j + 1 < |s| && IsDigit(s[j + 1])))
  }

  /** One `%d` conversion starting at index i of s: leading white space is
      skipped, an optional sign is taken, and at least one digit must
      follow; the longest digit run is consumed. None is a matching or input
      failure. */
  function ScanInt(s: string, i: nat): (r: Option<Conv>)
    requires i <= |s|
    ensures r.Some? ==> i < r.value.next <= |s| && IsDigit(s[r.value.next - 1])
    ensures r.Some? ==> r.value.next == |s| || !IsDigit(s[r.value.next])
    ensures r.Some? <==> NumberAt(s, SkipSpace(s, i))
    ensures r.Some? ==> var j := SkipSpace(s, i);
                        var k := if IsDigit(s[j]) then j else j + 1;
                        && r.value.next == DigitEnd(s, k)
                        && r.value.value == (if s[j] == '-' then -1 else 1) * DigitsValue(s, k, r.value.next)
  {
    var j := SkipSpace(s, i);
    var signed := j < |s| && (s[j] == '-' || s[j] == '+');
    var k := if signed then j + 1 else j;
    var e := DigitEnd(s, k);
    if e == k then None
    else
      var v: int := DigitsValue(s, k, e);
      Some(Conv(if signed && s[j] == '-' then -v else v, e))
  }

  /** The values sscanf assigns when it runs the format "%d|" k times over s
      from index i (the record format "%d|%d|%d|%d|" from the start is
      i = 0, k = 4). A `%d` skips white space, a '|' must match exactly, and
      scanning stops at the first directive that fails. The number of values
      is sscanf's return (its EOF return, -1, is not distinguished from 0). */
  function RecordFields(s: string, i: nat, k: nat): (r: seq<int>)
    requires i <= |s|
    ensures |r| <= k
    decreases k
  {
    if k == 0 then []
    else match ScanInt(s, i)
      case None => []
      case Some(cv) =>
        var e := cv.next;
        [cv.value] + (if e < |s| && s[e] == '|' then RecordFields(s, e + 1, k - 1) else [])
  }

  /** The '|' after the last conversion is matched but assigns nothing:
      the last field counts whatever follows its digits. */
  lemma LastFieldIgnoresBar(s: string, i: nat)
    requires i <= |s| && ScanInt(s, i).Some?
    ensures RecordFields(s, i, 1) == [ScanInt(s, i).value.value]
  {
  }

  /** A conversion not followed by '|' ends the scan, however many
      conversions remain: its value is the last one assigned. */
  lemma FieldWithoutBar(s: string, i: nat, k: nat, cv: Conv)
    requires i <= |s| && ScanInt(s, i) == Some(cv) && k >= 1
    requires cv.next == |s| || s[cv.next] != '|'
    ensures RecordFields(s, i, k) == [cv.value]
  {
  }

  /** printf's `%d` rendering of a natural number. */
  function NatText(n: nat): (t: string)
    ensures |t| > 0 && AllDigits(t)
  {
    if n < 10 then [DigitChar(n)] else NatText(n / 10) + [DigitChar(n % 10)]
  }

  /** printf's `%d` rendering of an integer. */
  function IntText(n: int): (t: string)
    ensures |t| > 0 && (IsDigit(t[0]) || t[0] == '-')
    ensures NoNul(t)
  {
    if n < 0 then "-" + NatText(-n) else NatText(n)
  }

  /** One field of a record as a producer writes it: the number and a '|'. */
  function FieldText(n: int): (t: string)
    ensures NoNul(t)
  {
    IntText(n) + "|"
  }

  /** The record "magic|state|capacity|minutes|" as a producer writes it. */
  function RecordText(magic: int, state: int, capacity: int, minutes: int): (t: string)
    ensures NoNul(t)
  {
    FieldText(magic) + FieldText(state) + FieldText(capacity) + FieldText(minutes)
  }

  /** Text t appears in s at index i. */
  predicate TextAt(s: string, i: nat, t: string) {
    i + |t| <= |s| && Matches(s, i, t)
  }

  /** The characters of t agree with those of s from index i on. Stated
      character by character so that it unfolds one position at a time. */
  predicate Matches(s: string, i: nat, t: string)
    requires i + |t| <= |s|
    decreases |t|
  {
    |t| == 0 || (s[i] == t[0] && Matches(s, i + 1, t[1..]))
  }

  /** Each character of text that appears at i sits at its offset from i. */
  lemma {:induction false} TextAtIndex(s: string, i: nat, t: string)
    requires TextAt(s, i, t)
    ensures i + |t| <= |s|
    ensures forall q :: i <= q < i + |t| ==> s[q] == t[q - i]
    decreases |t|
  {
    if |t| > 0 {
      TextAtIndex(s, i + 1, t[1..]);
      forall q | i < q < i + |t| ensures s[q] == t[q - i] {
        assert t[1..][q - (i + 1)] == t[q - i];
      }
    }
  }

  /** Text matching s character by character from i appears there. */
  lemma {:induction false} TextAtOfIndex(s: string, i: nat, t: string)
    requires i + |t| <= |s|
    requires forall q :: i <= q < i + |t| ==> s[q] == t[q - i]
    ensures TextAt(s, i, t)
    decreases |t|
  {
    if |t| > 0 {
      assert s[i] == t[0];
      forall q | i + 1 <= q < i + 1 + |t[1..]| ensures s[q] == t[1..][q - (i + 1)] {
        assert s[q] == t[q - i];
      }
      TextAtOfIndex(s, i + 1, t[1..]);
    }
  }

  /** Text that appears at i splits into its parts. */
  lemma {:induction false} TextAtAppend(s: string, i: nat, a: string, b: string)
    requires TextAt(s, i, a + b)
    ensures TextAt(s, i, a) && TextAt(s, i + |a|, b)
    decreases |a|
  {
    if |a| == 0 {
      assert a + b == b;
      TextAtIndex(s, i, b);
    } else {
      assert (a + b)[0] == a[0];
      assert (a + b)[1..] == a[1..] + b;
      TextAtAppend(s, i + 1, a[1..], b);
    }
  }

  /** Both halves of a concatenation appear in it where they were put. */
  lemma TextAtConcat(a: string, b: string)
    ensures TextAt(a + b, 0, a) && TextAt(a + b, |a|, b)
  {
    TextAtOfIndex(a + b, 0, a);
    TextAtOfIndex(a + b, |a|, b);
  }

  /** A digit run followed by a non-digit (or the end) is exactly what
      DigitEnd measures. */
  lemma {:induction false} DigitEndExact(s: string, i: nat, e: nat)
    requires i <= e <= |s|
    requires forall k :: i <= k < e ==> IsDigit(s[k])
    requires e == |s| || !IsDigit(s[e])
    ensures DigitEnd(s, i) == e
    decreases e - i
  {
    if i < e {
      DigitEndExact(s, i + 1, e);
    }
  }

  /** Reading back a rendered natural number gives the number. */
  lemma {:induction false} NatTextValue(n: nat)
    ensures DigitsValue(NatText(n), 0, |NatText(n)|) == n
    decreases n
  {
    if n >= 10 {
      var t := NatText(n);
      var p := NatText(n / 10);
      assert t == p + [DigitChar(n % 10)];
      DigitsShift(t, 0, p, 0, |p|);
      NatTextValue(n / 10);
    }
  }

  /** A rendered natural number at index i, followed by a non-digit or the
      end, is one maximal digit run whose value is the number. */
  lemma DigitsText(s: string, i: nat, m: nat)
    requires TextAt(s, i, NatText(m))
    requires i + |NatText(m)| == |s| || !IsDigit(s[i + |NatText(m)|])
    ensures forall q :: i <= q < i + |NatText(m)| ==> IsDigit(s[q])
    ensures DigitEnd(s, i) == i + |NatText(m)|
    ensures DigitsValue(s, i, i + |NatText(m)|) == m
  {
    var ds := NatText(m);
    TextAtIndex(s, i, ds);
    forall q | i <= q < i + |ds| ensures IsDigit(s[q]) {
      assert s[q] == ds[q - i];
    }
    DigitEndExact(s, i, i + |ds|);
    DigitsShift(s, i, ds, 0, |ds|);
    NatTextValue(m);
  }

  /** `%d` reads back a rendered natural number. */
  lemma ScanNatText(s: string, i: nat, m: nat)
    requires TextAt(s, i, NatText(m))
    requires i + |NatText(m)| == |s| || !IsDigit(s[i + |NatText(m)|])
    ensures ScanInt(s, i) == Some(Conv(m, i + |NatText(m)|))
  {
    DigitsText(s, i, m);
    assert IsDigit(s[i]);
    assert SkipSpace(s, i) == i;
  }

  /** `%d` reads back a rendered negative number. */
  lemma ScanNegText(s: string, i: nat, m: nat)
    requires TextAt(s, i, "-" + NatText(m))
    requires i + 1 + |NatText(m)| == |s| || !IsDigit(s[i + 1 + |NatText(m)|])
    ensures ScanInt(s, i) == Some(Conv(-(m as int), i + 1 + |NatText(m)|))
  {
    TextAtAppend(s, i, "-", NatText(m));
    assert s[i] == '-';
    DigitsText(s, i + 1, m);
    assert SkipSpace(s, i) == i;
  }

  /** `%d` reads back what `%d` printed, when a non-digit or the end
      follows. */
  lemma ScanIntText(s: string, i: nat, n: int)
    requires TextAt(s, i, IntText(n))
    requires i + |IntText(n)| == |s| || !IsDigit(s[i + |IntText(n)|])
    ensures ScanInt(s, i) == Some(Conv(n, i + |IntText(n)|))
  {
    if n < 0 {
      ScanNegText(s, i, -n);
    } else {
      ScanNatText(s, i, n);
    }
  }

  /** White space then a non-space at index e: SkipSpace stops exactly at e. */
  lemma {:induction false} SkipSpaceExact(s: string, i: nat, e: nat)
    requires i <= e < |s|
    requires forall q :: i <= q < e ==> IsSpace(s[q])
    requires !IsSpace(s[e])
    ensures SkipSpace(s, i) == e
    decreases e - i
  {
    if i < e {
      SkipSpaceExact(s, i + 1, e);
    }
  }

  /** `%d` skips the white space before a printed integer and reads the
      integer back, when a non-digit or the end follows. */
  lemma ScanSpacedText(s: string, i: nat, ws: string, n: int)
    requires TextAt(s, i, ws + IntText(n))
    requires forall q :: 0 <= q < |ws| ==> IsSpace(ws[q])
    requires i + |ws| + |IntText(n)| == |s| || !IsDigit(s[i + |ws| + |IntText(n)|])
    ensures ScanInt(s, i) == Some(Conv(n, i + |ws| + |IntText(n)|))
  {
    var e := i + |ws|;
    TextAtAppend(s, i, ws, IntText(n));
    TextAtIndex(s, i, ws);
    TextAtIndex(s, e, IntText(n));
    assert s[e] == IntText(n)[0];
    forall q | i <= q < e ensures IsSpace(s[q]) {
      assert s[q] == ws[q - i];
    }
    SkipSpaceExact(s, i, e);
    SkipSpaceExact(s, e, e);
    ScanIntText(s, e, n);
  }

  /** A rendered field at index i: `%d` reads its number and stops on its
      closing '|'. */
  lemma FieldStep(s: string, i: nat, n: int)
    requires TextAt(s, i, FieldText(n))
    ensures i + |FieldText(n)| <= |s|
    ensures ScanInt(s, i) == Some(Conv(n, i + |IntText(n)|))
    ensures s[i + |IntText(n)|] == '|'
    ensures |FieldText(n)| == |IntText(n)| + 1
  {
    TextAtAppend(s, i, IntText(n), "|");
    ScanIntText(s, i, n);
  }

  /** A rendered field contributes its number and hands the scan on to the
      text after its '|', at index j. */
  lemma FieldCons(s: string, i: nat, j: nat, n: int, k: nat)
    requires TextAt(s, i, FieldText(n)) && j == i + |FieldText(n)|
    ensures j <= |s|
    ensures RecordFields(s, i, k + 1) == [n] + RecordFields(s, j, k)
  {
    var e := i + |IntText(n)|;
    FieldStep(s, i, n);
    assert s[e] == '|';
    assert ScanInt(s, i) == Some(Conv(n, e));
    assert e + 1 == j;
  }

  // Small steps for the proofs below. Each states one fact about counts or
  // sequences that the solver finds quickly on its own but slowly inside a
  // larger proof; the lemmas about rendered records also pass the field
  // boundaries p1, p2, p3 as parameters for the same reason, so that every
  // proof mentions each index by one and the same term.

  /** Scans that ask for the same number of conversions agree. */
  lemma SameCount(s: string, i: nat, a: nat, b: nat)
    requires i <= |s| && a == b
    ensures RecordFields(s, i, a) == RecordFields(s, i, b)
  {
  }

  /** Three conses in a row. */
  lemma Cons3(r0: seq<int>, r1: seq<int>, r2: seq<int>, r3: seq<int>, a: int, b: int, c: int)
    requires r0 == [a] + r1 && r1 == [b] + r2 && r2 == [c] + r3
    ensures r0 == [a, b, c] + r3
  {
  }

  /** Three values, then a last value, then nothing. */
  lemma ConsLast(r0: seq<int>, r3: seq<int>, r4: seq<int>, a: int, b: int, c: int, d: int)
    requires r0 == [a, b, c] + r3 && r3 == [d] + r4 && r4 == []
    ensures r0 == [a, b, c, d]
  {
  }

  /** The text s opened by three rendered fields a, b, c, which end at p1,
      p2 and p3, and followed by rest. */
  predicate ThreeFieldsOpen(s: string, a: int, b: int, c: int, rest: string, p1: nat, p2: nat, p3: nat) {
    && s == FieldText(a) + FieldText(b) + FieldText(c) + rest
    && p1 == |FieldText(a)| && p2 == p1 + |FieldText(b)| && p3 == p2 + |FieldText(c)|
  }

  /** Where three texts open s, each sits at its place, and what follows
      them sits at p3. */
  lemma ThreeAt(s: string, x: string, y: string, z: string, rest: string, p1: nat, p2: nat, p3: nat)
    requires s == x + y + z + rest
    requires p1 == |x| && p2 == p1 + |y| && p3 == p2 + |z|
    ensures TextAt(s, 0, x) && TextAt(s, p1, y) && TextAt(s, p2, z) && TextAt(s, p3, rest)
  {
    var xy := x + y;
    TextAtConcat(xy + z, rest);
    TextAtAppend(s, 0, xy, z);
    TextAtAppend(s, 0, x, y);
  }

  /** Where three rendered fields open s, each sits at its place, and what
      follows them sits at p3. */
  lemma ThreeFieldsAt(s: string, a: int, b: int, c: int, rest: string, p1: nat, p2: nat, p3: nat)
    requires ThreeFieldsOpen(s, a, b, c, rest, p1, p2, p3)
    ensures ThreeFieldsPlaced(s, a, b, c, p1, p2, p3) && TextAt(s, p3, rest)
  {
    ThreeAt(s, FieldText(a), FieldText(b), FieldText(c), rest, p1, p2, p3);
  }

  /** Rendered fields a, b, c sit in s at 0, p1 and p2, ending at p3. */
  predicate ThreeFieldsPlaced(s: string, a: int, b: int, c: int, p1: nat, p2: nat, p3: nat) {
    && TextAt(s, 0, FieldText(a)) && p1 == |FieldText(a)|
    && TextAt(s, p1, FieldText(b)) && p2 == p1 + |FieldText(b)|
    && TextAt(s, p2, FieldText(c)) && p3 == p2 + |FieldText(c)|
  }

  /** Three rendered fields at the start of s assign their numbers and hand
      the scan on to what follows them. */
  lemma ThreeFieldsScan(s: string, a: int, b: int, c: int, p1: nat, p2: nat, p3: nat, k: nat, k3: nat)
    requires ThreeFieldsPlaced(s, a, b, c, p1, p2, p3) && k3 == k + 3
    ensures p3 <= |s|
    ensures RecordFields(s, 0, k3) == [a, b, c] + RecordFields(s, p3, k)
  {
    var k1 := k + 1;
    var k2 := k1 + 1;
    FieldCons(s, p2, p3, c, k);
    FieldCons(s, p1, p2, b, k1);
    FieldCons(s, 0, p1, a, k2);
    SameCount(s, 0, k2 + 1, k3);
    var r0 := RecordFields(s, 0, k2 + 1);
    var r1 := RecordFields(s, p1, k2);
    var r2 := RecordFields(s, p2, k1);
    var r3 := RecordFields(s, p3, k);
    Cons3(r0, r1, r2, r3, a, b, c);
  }

  /** Scanning a rendered record, whatever follows it, assigns its four
      numbers in order. */
  lemma RecordRoundTrip(s: string, magic: int, state: int, capacity: int, minutes: int, rest: string)
    requires s == RecordText(magic, state, capacity, minutes) + rest
    ensures RecordFields(s, 0, 4) == [magic, state, capacity, minutes]
  {
    var tail := FieldText(minutes) + rest;
    assert s == FieldText(magic) + FieldText(state) + FieldText(capacity) + tail;
    var p1 := |FieldText(magic)|;
    var p2 := p1 + |FieldText(state)|;
    var p3 := p2 + |FieldText(capacity)|;
    ThreeFieldsThenField(s, magic, state, capacity, minutes, rest, tail, p1, p2, p3);
  }

  /** The step of RecordRoundTrip past its first three fields: the fourth
      field is read from tail. */
  lemma ThreeFieldsThenField(s: string, a: int, b: int, c: int, d: int, rest: string, tail: string,
                             p1: nat, p2: nat, p3: nat)
    requires ThreeFieldsOpen(s, a, b, c, tail, p1, p2, p3) && tail == FieldText(d) + rest
    ensures RecordFields(s, 0, 4) == [a, b, c, d]
  {
    ThreeFieldsAt(s, a, b, c, tail, p1, p2, p3);
    ThreeFieldsScan(s, a, b, c, p1, p2, p3, 1, 4);
    TextAtAppend(s, p3, FieldText(d), rest);
    var p4 := p3 + |FieldText(d)|;
    FieldCons(s, p3, p4, d, 0);
    var r0 := RecordFields(s, 0, 4);
    var r3 := RecordFields(s, p3, 1);
    var r4 := RecordFields(s, p4, 0);
    ConsLast(r0, r3, r4, a, b, c, d);
  }

  /** Three fields followed by a last number without its closing '|'
      still assign all four numbers: the closing '|' is not needed. */
  lemma FieldsThenNumber(s: string, a: int, b: int, c: int, last: int)
    requires s == FieldText(a) + FieldText(b) + FieldText(c) + IntText(last)
    ensures RecordFields(s, 0, 4) == [a, b, c, last]
  {
    var p1 := |FieldText(a)|;
    var p2 := p1 + |FieldText(b)|;
    var p3 := p2 + |FieldText(c)|;
    ThreeFieldsThenNumber(s, a, b, c, last, p1, p2, p3);
  }

  /** The step of FieldsThenNumber past its first three fields. */
  lemma ThreeFieldsThenNumber(s: string, a: int, b: int, c: int, last: int, p1: nat, p2: nat, p3: nat)
    requires ThreeFieldsOpen(s, a, b, c, IntText(last), p1, p2, p3)
    ensures RecordFields(s, 0, 4) == [a, b, c, last]
  {
    ThreeFieldsAt(s, a, b, c, IntText(last), p1, p2, p3);
    ThreeFieldsScan(s, a, b, c, p1, p2, p3, 1, 4);
    ScanIntText(s, p3, last);
    LastFieldIgnoresBar(s, p3);
    var r0 := RecordFields(s, 0, 4);
    var r3 := RecordFields(s, p3, 1);
    assert r3 == [last];
    assert r0 == [a, b, c] + [last];
  }

  /** A record cut off after three fields assigns only their three
      numbers, however many conversions the format asks for. */
  lemma FieldsThenEnd(s: string, a: int, b: int, c: int)
    requires s == FieldText(a) + FieldText(b) + FieldText(c)
    ensures RecordFields(s, 0, 4) == [a, b, c]
  {
    var p1 := |FieldText(a)|;
    var p2 := p1 + |FieldText(b)|;
    var p3 := p2 + |FieldText(c)|;
    assert s == FieldText(a) + FieldText(b) + FieldText(c) + "";
    NothingAtEnd(s);
    FieldsThenFailure(s, a, b, c, "", p1, p2, p3);
  }

  /** A `%d` at the end of the text fails. */
  lemma NothingAtEnd(s: string)
    ensures ScanInt(s, |s|).None?
  {
    assert SkipSpace(s, |s|) == |s|;
  }

  /** Three fields followed by text at which a `%d` fails assign only
      their own three numbers, however many conversions the format asks
      for. */
  lemma FieldsThenFailure(s: string, a: int, b: int, c: int, rest: string, p1: nat, p2: nat, p3: nat)
    requires ThreeFieldsOpen(s, a, b, c, rest, p1, p2, p3) && ScanInt(s, p3).None?
    ensures RecordFields(s, 0, 4) == [a, b, c]
  {
    ThreeFieldsAt(s, a, b, c, rest, p1, p2, p3);
    ThreeFieldsScan(s, a, b, c, p1, p2, p3, 1, 4);
    var r0 := RecordFields(s, 0, 4);
    var r3 := RecordFields(s, p3, 1);
    assert r3 == [];
    assert r0 == [a, b, c] + [];
  }
}
