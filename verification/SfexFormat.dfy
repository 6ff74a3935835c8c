/**
 * The on-disk format of tools/sfex_lib.c as pure functions: NUL-padded decimal and string
 * fields, the control block, the lock slots behind it, and what reading undoes of writing.
 */
module SfexFormat {
  import opened Arithmetic
  import opened Bytes
  import opened SfexRecord
  import opened Wrappers

  datatype ControlData = ControlData(magic: seq<byte>, version: int, revision: int, blocksize: nat, numlocks: int)

  const SFEX_MAGIC: seq<byte> := [83, 70, 69, 88]  // "SFEX"
  const SFEX_VERSION := 1
  const SFEX_REVISION := 3

  // Sizes of the packed structures sfex_lockdata_ondisk and sfex_controldata_ondisk.
  const LOCKDATA_SIZE := 261
  const CONTROLDATA_SIZE := 24

  // ----- Fields -----

  function Zeros(n: nat): (z: seq<byte>)
    ensures |z| == n
  {
    seq(n, _ => 0)
  }

  function Min(a: nat, b: nat): nat {
    if a < b then a else b
  }

  /** Decimal digits, as printf writes them. */
  function Digits(n: nat): seq<byte> {
    if n < 10 then [48 + n] else Digits(n / 10) + [48 + n % 10]
  }

  function Decimal(i: int): seq<byte> {
    if i < 0 then [45] + Digits(-i) else Digits(i)
  }

  /** The C string at the start of `s`. */
  function CString(s: seq<byte>): (r: seq<byte>) {
    if s == [] || s[0] == 0 then [] else [s[0]] + CString(s[1..])
  }

  /** What `snprintf(field, width, "%s", s)` leaves in a field that was cleared before. */
  function Field(s: seq<byte>, width: nat): (f: seq<byte>)
    requires 0 < width
    ensures |f| == width
  {
    var n := Min(|s|, width - 1);
    s[..n] + Zeros(width - n)
  }

  predicate IsDigit(b: byte) {
    48 <= b <= 57
  }

  predicate IsSpace(b: byte) {
    b == 32 || 9 <= b <= 13
  }

  /** Horner's rule over the leading digits. */
  function ParseDigits(acc: nat, s: seq<byte>): nat
    decreases |s|
  {
    if s == [] || !IsDigit(s[0]) then acc else ParseDigits(10 * acc + (s[0] - 48), s[1..])
  }

  /** atoi: white space, one sign, digits. */
  function Atoi(s: seq<byte>): int {
    if s == [] then 0
    else if IsSpace(s[0]) then Atoi(s[1..])
    else if s[0] == 45 then -(ParseDigits(0, s[1..]) as int)
    else if s[0] == 43 then ParseDigits(0, s[1..])
    else ParseDigits(0, s)
  }

  // ----- Records -----

  function EncodeLock(l: LockData, blocksize: nat): (b: seq<byte>)
    requires LOCKDATA_SIZE <= blocksize
    ensures |b| == blocksize
  {
    [l.status] + Field(Decimal(l.count), 4) + Field(CString(l.nodename), 256) + Zeros(blocksize - LOCKDATA_SIZE)
  }

  function DecodeLock(b: seq<byte>): Result<LockData>
    requires LOCKDATA_SIZE <= |b|
  {
    if b[4] != 0 || b[260] != 0 then Err
    else if b[0] != STATUS_UNLOCK && b[0] != STATUS_LOCK then Err
    else Ok(LockData(b[0], Atoi(CString(b[1..5])), CString(b[5..261])))
  }

  function EncodeControl(c: ControlData, blocksize: nat): (b: seq<byte>)
    requires CONTROLDATA_SIZE <= blocksize && |c.magic| == 4
    ensures |b| == blocksize
  {
    c.magic + Field(Decimal(c.version), 4) + Field(Decimal(c.revision), 4)
    + Field(Digits(c.blocksize % 0x1_0000_0000), 8) + Field(Decimal(c.numlocks), 4)
    + Zeros(blocksize - CONTROLDATA_SIZE)
  }

  function DecodeControl(b: seq<byte>): Result<ControlData>
    requires CONTROLDATA_SIZE <= |b|
  {
    if b[..4] != SFEX_MAGIC then Err
    else if b[7] != 0 || b[11] != 0 || b[19] != 0 || b[23] != 0 then Err
    else if Atoi(CString(b[4..8])) != SFEX_VERSION then Err
    else
      var blocksize := Atoi(CString(b[12..20]));
      // The assignment to a size_t wraps.
      Ok(ControlData(b[..4], SFEX_VERSION, Atoi(CString(b[8..12])),
                     blocksize % 0x1_0000_0000_0000_0000, Atoi(CString(b[20..24]))))
  }

  // ----- Digits -----

  function Pow10(k: nat): nat {
    if k == 0 then 1 else 10 * Pow10(k - 1)
  }

  predicate AllDigits(s: seq<byte>) {
    forall i :: 0 <= i < |s| ==> IsDigit(s[i])
  }

  lemma {:induction false} DigitsShape(n: nat)
    ensures AllDigits(Digits(n)) && |Digits(n)| > 0
  {
    if n >= 10 {
      DigitsShape(n / 10);
    }
  }

  lemma {:induction false} ParseSnoc(acc: nat, s: seq<byte>, d: byte)
    requires AllDigits(s) && IsDigit(d)
    ensures ParseDigits(acc, s + [d]) == 10 * ParseDigits(acc, s) + (d - 48)
    decreases |s|
  {
    if s == [] {
      assert [d][1..] == [];
      assert s + [d] == [d];
    } else {
      assert (s + [d])[1..] == s[1..] + [d];
      ParseSnoc(10 * acc + (s[0] - 48), s[1..], d);
    }
  }

  lemma {:induction false} ParseDigitsInverse(n: nat)
    ensures ParseDigits(0, Digits(n)) == n
  {
    if n < 10 {
      assert [48 + n][1..] == [];
    } else {
      DigitsShape(n / 10);
      ParseDigitsInverse(n / 10);
      ParseSnoc(0, Digits(n / 10), 48 + n % 10);
    }
  }

  lemma {:induction false} ParseBound(acc: nat, s: seq<byte>)
    ensures ParseDigits(acc, s) < (acc + 1) * Pow10(|s|)
    decreases |s|
  {
    if s != [] && IsDigit(s[0]) {
      ParseBound(10 * acc + (s[0] - 48), s[1..]);
      PowGrows(10 * acc + (s[0] - 48), acc, |s| - 1);
    } else {
      PowPositive(|s|);
      MulAtLeast(acc + 1, Pow10(|s|));
    }
  }

  lemma PowPositive(k: nat)
    ensures Pow10(k) > 0
  {
  }

  lemma MulAtLeast(a: nat, b: nat)
    requires b > 0
    ensures a <= a * b
  {
  }

  lemma PowGrows(x: nat, acc: nat, k: nat)
    requires x <= 10 * acc + 9
    ensures (x + 1) * Pow10(k) <= (acc + 1) * Pow10(k + 1)
  {
    var p := Pow10(k);
    MulMonotone(x + 1, 10 * acc + 10, p);
    assert (acc + 1) * (10 * p) == (10 * acc + 10) * p;
  }

  /** A number has at most `k` digits exactly when it is below 10 to the `k`. */
  lemma {:induction false} DigitCount(n: nat, k: nat)
    requires k > 0
    ensures |Digits(n)| <= k <==> n < Pow10(k)
    decreases n
  {
    if n >= 10 {
      DigitsShape(n / 10);
      if k > 1 {
        DigitCount(n / 10, k - 1);
      }
    } else {
      assert Pow10(k) == 10 * Pow10(k - 1);
      PowPositive(k - 1);
    }
  }

  lemma DivTwice(n: nat, p: nat)
    requires p > 0
    ensures n / (10 * p) == n / 10 / p
  {
    var q := n / 10;
    var x, y := q / p, q % p;
    Quotient(q, p);
    TenTimes(p, x);
    DivModUnique(n, 10 * p, x, 10 * y + n % 10);
  }

  lemma Quotient(q: nat, p: nat)
    requires p > 0
    ensures q == p * (q / p) + q % p && q % p < p
  {
  }

  lemma TenTimes(p: nat, x: nat)
    ensures 10 * p * x == 10 * (p * x)
  {
  }

  /** Digit `k` from the right is the one for 10 to the `k`. */
  lemma {:induction false} DigitsArePositional(n: nat, k: nat)
    requires k < |Digits(n)|
    ensures Pow10(k) > 0
    ensures Digits(n)[|Digits(n)| - 1 - k] == '0' as int + n / Pow10(k) % 10
    decreases n
  {
    PowPositive(k);
    if n >= 10 && k > 0 {
      DigitsArePositional(n / 10, k - 1);
      DivTwice(n, Pow10(k - 1));
    }
  }

  // ----- Reading back one field -----

  lemma {:induction false} CStringOfPadded(s: seq<byte>, n: nat)
    requires 0 !in s && n > 0
    ensures CString(s + Zeros(n)) == s
  {
    if s == [] {
      assert s + Zeros(n) == Zeros(n);
    } else {
      assert (s + Zeros(n))[1..] == s[1..] + Zeros(n);
      CStringOfPadded(s[1..], n);
    }
  }

  lemma {:induction false} CStringShape(s: seq<byte>)
    ensures 0 !in CString(s) && |CString(s)| <= |s|
    ensures CString(s) == s <==> 0 !in s
  {
    if s != [] {
      CStringShape(s[1..]);
      assert s == [s[0]] + s[1..];
    }
  }

  /** A string field gives back what fits before its terminating NUL. */
  lemma StringField(s: seq<byte>, width: nat)
    requires 0 < width && 0 !in s
    ensures CString(Field(s, width)) == s[..Min(|s|, width - 1)]
  {
    var n := Min(|s|, width - 1);
    CStringOfPadded(s[..n], width - n);
  }

  lemma DecimalShape(i: int)
    ensures 0 !in Decimal(i) && |Decimal(i)| > 0
  {
    DigitsShape(if i < 0 then -i else i);
  }

  /** Cutting digits off makes a number smaller. */
  lemma CutDigits(n: nat, k: nat)
    requires k > 0
    ensures ParseDigits(0, Digits(n)[..Min(|Digits(n)|, k)]) == n <==> |Digits(n)| <= k
  {
    var d := Digits(n);
    DigitsShape(n);
    if |d| <= k {
      assert d[..Min(|d|, k)] == d;
      ParseDigitsInverse(n);
    } else {
      ParseBound(0, d[..k]);
      DigitCount(n, k);
    }
  }

  /** A printed and truncated number reads back as itself exactly when nothing was cut off. */
  lemma NumberField(i: int, width: nat)
    requires 2 < width
    ensures Atoi(CString(Field(Decimal(i), width))) == i <==> |Decimal(i)| <= width - 1
  {
    var n := if i < 0 then -i else i;
    var k := if i < 0 then width - 2 else width - 1;
    DecimalShape(i);
    StringField(Decimal(i), width);
    DigitsShape(n);
    var digits := Digits(n)[..Min(|Digits(n)|, k)];
    assert Decimal(i)[..Min(|Decimal(i)|, width - 1)] == if i < 0 then [45] + digits else digits;
    AtoiOfPrinted(i < 0, digits);
    CutDigits(n, k);
  }

  lemma AtoiOfPrinted(negative: bool, digits: seq<byte>)
    requires AllDigits(digits) && digits != []
    ensures Atoi(if negative then [45] + digits else digits) ==
            (if negative then -(ParseDigits(0, digits) as int) else ParseDigits(0, digits))
  {
    assert ([45] + digits)[1..] == digits;
    assert IsDigit(digits[0]);
  }

  lemma DecimalWidth(i: int)
    ensures |Decimal(i)| <= 3 <==> -99 <= i <= 999
  {
    assert Pow10(2) == 100 && Pow10(3) == 1000 by { assert Pow10(1) == 10; }
    if i < 0 {
      DigitCount(-i, 2);
    } else {
      DigitCount(i, 3);
    }
  }

  lemma SmallField(i: int)
    ensures Atoi(CString(Field(Decimal(i), 4))) == i <==> -99 <= i <= 999
  {
    NumberField(i, 4);
    DecimalWidth(i);
  }

  lemma NameField(s: seq<byte>)
    ensures CString(Field(CString(s), 256)) == s <==> |s| <= 255 && 0 !in s
  {
    CStringShape(s);
    var c := CString(s);
    StringField(c, 256);
    var kept := c[..Min(|c|, 255)];
    if kept == s {
      assert |c| <= |s| == |kept| <= |c|;
      assert kept == c;
    }
  }

  lemma {:induction false} AtoiSkips(space: seq<byte>, text: seq<byte>)
    requires forall i :: 0 <= i < |space| ==> space[i] == 32 || 9 <= space[i] <= 13
    ensures Atoi(space + text) == Atoi(text)
    decreases |space|
  {
    if space == [] {
      assert space + text == text;
    } else {
      assert (space + text)[1..] == space[1..] + text;
      AtoiSkips(space[1..], text);
    }
  }

  lemma AtoiOfNumber(n: nat, rest: seq<byte>)
    requires rest == [] || rest[0] < '0' as int || rest[0] > '9' as int
    ensures ParseDigits(0, Digits(n) + rest) == n
    ensures Atoi(Digits(n) + rest) == n
  {
    DigitsShape(n);
    ParseStops(0, Digits(n), rest);
    ParseDigitsInverse(n);
    assert (Digits(n) + rest)[0] == Digits(n)[0];
  }

  /** White space, at most one sign, digits, and anything that does not go on with a digit. */
  lemma AtoiOfText(space: seq<byte>, sign: seq<byte>, n: nat, rest: seq<byte>)
    requires forall i :: 0 <= i < |space| ==> space[i] == 32 || 9 <= space[i] <= 13
    requires sign == [] || sign == ['+' as int] || sign == ['-' as int]
    requires rest == [] || rest[0] < '0' as int || rest[0] > '9' as int
    ensures Atoi(space + (sign + (Digits(n) + rest))) == if sign == ['-' as int] then -(n as int) else n
  {
    var number := Digits(n) + rest;
    AtoiSkips(space, sign + number);
    AtoiOfNumber(n, rest);
    if sign == [] {
      assert sign + number == number;
    } else {
      assert (sign + number)[1..] == number;
    }
  }

  lemma {:induction false} ParseStops(acc: nat, digits: seq<byte>, rest: seq<byte>)
    requires AllDigits(digits) && (rest == [] || !IsDigit(rest[0]))
    ensures ParseDigits(acc, digits + rest) == ParseDigits(acc, digits)
    decreases |digits|
  {
    if digits == [] {
      assert digits + rest == rest;
    } else {
      assert (digits + rest)[1..] == digits[1..] + rest;
      ParseStops(10 * acc + (digits[0] - 48), digits[1..], rest);
    }
  }

  /** A field that starts with no number reads as 0. */
  lemma AtoiOfNothing(s: seq<byte>)
    requires s == [] || (s[0] != 32 && !(9 <= s[0] <= 13) && s[0] != '+' as int && s[0] != '-' as int &&
                         !('0' as int <= s[0] <= '9' as int))
    ensures Atoi(s) == 0
  {
  }

  // ----- Reading back whole records -----

  /** The records the format can hold. */
  predicate LockFits(l: LockData) {
    && (l.status == STATUS_LOCK || l.status == STATUS_UNLOCK)
    && -99 <= l.count <= 999
    && |l.nodename| <= 255 && 0 !in l.nodename
  }

  lemma LockLayout(l: LockData, blocksize: nat)
    requires LOCKDATA_SIZE <= blocksize
    ensures var b := EncodeLock(l, blocksize);
            && b[0] == l.status
            && b[1..5] == Field(Decimal(l.count), 4)
            && b[5..261] == Field(CString(l.nodename), 256)
            && b[4] == 0 && b[260] == 0
  {
    var b := EncodeLock(l, blocksize);
    assert b[4] == b[1..5][3] && b[260] == b[5..261][255];
  }

  /** A written lock record reads back as it was exactly when it fits; a fitting one is always accepted. */
  lemma LockRoundTrip(l: LockData, blocksize: nat)
    requires LOCKDATA_SIZE <= blocksize
    ensures DecodeLock(EncodeLock(l, blocksize)) == Ok(l) <==> LockFits(l)
  {
    LockLayout(l, blocksize);
    SmallField(l.count);
    NameField(l.nodename);
  }

  predicate ControlFits(c: ControlData) {
    && c.magic == SFEX_MAGIC && c.version == SFEX_VERSION
    && -99 <= c.revision <= 999
    && c.blocksize < 10_000_000
    && -99 <= c.numlocks <= 999
  }

  /** The parts of a block are found again where the format puts them. */
  lemma ControlParts(m: seq<byte>, v: seq<byte>, r: seq<byte>, s: seq<byte>, n: seq<byte>, z: seq<byte>)
    requires |m| == |v| == |r| == |n| == 4 && |s| == 8
    ensures var b := m + v + r + s + n + z;
            b[..4] == m && b[4..8] == v && b[8..12] == r && b[12..20] == s && b[20..24] == n
    ensures var b := m + v + r + s + n + z;
            b[7] == v[3] && b[11] == r[3] && b[19] == s[7] && b[23] == n[3]
  {
  }

  lemma ControlLayout(c: ControlData, blocksize: nat)
    requires CONTROLDATA_SIZE <= blocksize && |c.magic| == 4
    ensures var b := EncodeControl(c, blocksize);
            && b[..4] == c.magic
            && b[4..8] == Field(Decimal(c.version), 4)
            && b[8..12] == Field(Decimal(c.revision), 4)
            && b[12..20] == Field(Digits(c.blocksize % 0x1_0000_0000), 8)
            && b[20..24] == Field(Decimal(c.numlocks), 4)
            && b[7] == 0 && b[11] == 0 && b[19] == 0 && b[23] == 0
  {
    FieldTerminated(Decimal(c.version), 4);
    FieldTerminated(Decimal(c.revision), 4);
    FieldTerminated(Digits(c.blocksize % 0x1_0000_0000), 8);
    FieldTerminated(Decimal(c.numlocks), 4);
    ControlParts(c.magic, Field(Decimal(c.version), 4), Field(Decimal(c.revision), 4),
                 Field(Digits(c.blocksize % 0x1_0000_0000), 8), Field(Decimal(c.numlocks), 4),
                 Zeros(blocksize - CONTROLDATA_SIZE));
  }

  lemma FieldTerminated(s: seq<byte>, width: nat)
    requires 0 < width
    ensures Field(s, width)[width - 1] == 0
  {
  }

  /** The block size is printed as a 32-bit number and read back as an int. */
  lemma BlocksizeField(n: nat)
    ensures var r := Atoi(CString(Field(Digits(n % 0x1_0000_0000), 8)));
            0 <= r < 10_000_000 && (r == n <==> n < 10_000_000)
  {
    var m := n % 0x1_0000_0000;
    var d := Digits(m);
    DigitsShape(m);
    StringField(d, 8);
    var kept := d[..Min(|d|, 7)];
    AtoiOfPrinted(false, kept);
    Pow10Seven();
    DigitCount(m, 7);
    CutDigits(m, 7);
    ParseBound(0, kept);
    if |d| > 7 {
      assert |kept| == 7;
    }
  }

  lemma Pow10Seven()
    ensures Pow10(7) == 10_000_000
  {
    assert Pow10(2) == 100;
    assert Pow10(4) == 10_000;
    assert Pow10(6) == 1_000_000;
  }

  lemma DecodeEncodedControl(c: ControlData, blocksize: nat)
    requires CONTROLDATA_SIZE <= blocksize && |c.magic| == 4
    ensures DecodeControl(EncodeControl(c, blocksize)) ==
            if c.magic != SFEX_MAGIC || Atoi(CString(Field(Decimal(c.version), 4))) != SFEX_VERSION then Err
            else Ok(ControlData(c.magic, SFEX_VERSION,
                                Atoi(CString(Field(Decimal(c.revision), 4))),
                                Atoi(CString(Field(Digits(c.blocksize % 0x1_0000_0000), 8))) % 0x1_0000_0000_0000_0000,
                                Atoi(CString(Field(Decimal(c.numlocks), 4)))))
  {
    ControlLayout(c, blocksize);
  }

  /** The same for the control block, which is only accepted with this program's magic and version. */
  lemma ControlRoundTrip(c: ControlData, blocksize: nat)
    requires CONTROLDATA_SIZE <= blocksize && |c.magic| == 4
    ensures DecodeControl(EncodeControl(c, blocksize)) == Ok(c) <==> ControlFits(c)
  {
    DecodeEncodedControl(c, blocksize);
    SmallField(c.version);
    SmallField(c.revision);
    SmallField(c.numlocks);
    BlocksizeField(c.blocksize);
    ControlSame(c,
                Atoi(CString(Field(Decimal(c.version), 4))),
                Atoi(CString(Field(Decimal(c.revision), 4))),
                Atoi(CString(Field(Digits(c.blocksize % 0x1_0000_0000), 8))),
                Atoi(CString(Field(Decimal(c.numlocks), 4))));
  }

  /** What is read from the four fields makes up the control block again exactly when all of it fitted. */
  lemma ControlSame(c: ControlData, version: int, revision: int, blocksize: int, numlocks: int)
    requires version == c.version <==> -99 <= c.version <= 999
    requires revision == c.revision <==> -99 <= c.revision <= 999
    requires 0 <= blocksize < 10_000_000 && (blocksize == c.blocksize <==> c.blocksize < 10_000_000)
    requires numlocks == c.numlocks <==> -99 <= c.numlocks <= 999
    ensures ControlFits(c) <==>
              && c.magic == SFEX_MAGIC && version == SFEX_VERSION
              && ControlData(c.magic, SFEX_VERSION, revision, blocksize % 0x1_0000_0000_0000_0000, numlocks) == c
  {
  }

  lemma {:induction false} AtoiBound(s: seq<byte>)
    requires |s| <= 3
    ensures -99 <= Atoi(s) <= 999
    decreases |s|
  {
    assert Pow10(2) == 100 && Pow10(3) == 1000 by { assert Pow10(1) == 10; }
    if s != [] {
      PowMonotone(|s|, 3);
      PowMonotone(|s| - 1, 2);
      ParseBound(0, s);
      ParseBound(0, s[1..]);
      AtoiBound(s[1..]);
    }
  }

  lemma {:induction false} PowMonotone(j: nat, k: nat)
    requires j <= k
    ensures Pow10(j) <= Pow10(k)
  {
    if j < k {
      PowMonotone(j, k - 1);
    }
  }

  /** Whatever is on the disk, a record that is accepted fits its fields. */
  lemma DecodedFits(b: seq<byte>)
    requires LOCKDATA_SIZE <= |b| && DecodeLock(b).Ok?
    ensures LockFits(DecodeLock(b).value)
  {
    Unterminated(b[1..5]);
    Unterminated(b[5..261]);
    CStringShape(b[5..261]);
    AtoiBound(CString(b[1..5]));
  }

  lemma {:induction false} Unterminated(s: seq<byte>)
    requires s != [] && s[|s| - 1] == 0
    ensures |CString(s)| < |s|
  {
    if |s| > 1 && s[0] != 0 {
      Unterminated(s[1..]);
    }
  }

  /** A lock record is accepted exactly when its text fields end in NUL and its status letter is known. */
  lemma LockAccepted(b: seq<byte>)
    requires LOCKDATA_SIZE <= |b|
    ensures DecodeLock(b).Ok? <==> b[4] == 0 && b[260] == 0 && (b[0] == 'u' as int || b[0] == 'l' as int)
  {
  }

  /** A control block is accepted exactly when its magic is right, its text fields end in NUL and its version is 1. */
  lemma ControlAccepted(b: seq<byte>)
    requires CONTROLDATA_SIZE <= |b|
    ensures DecodeControl(b).Ok? <==>
              && b[0] == 'S' as int && b[1] == 'F' as int && b[2] == 'E' as int && b[3] == 'X' as int
              && b[7] == 0 && b[11] == 0 && b[19] == 0 && b[23] == 0
              && Atoi(CString(b[4..8])) == 1
  {
    assert b[..4] == [b[0], b[1], b[2], b[3]];
  }
}
