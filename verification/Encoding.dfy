// crates/myvault-drive/src/transfer.rs and model.rs: provider versions are decimal texts, the
// sync engine's revisions are 64 lowercase hexadecimal digits of the same number.

module Encoding {
  import opened Wrappers
  import opened Order

  const U64 := 0x1_0000_0000_0000_0000

  function DigitValue(c: char): nat {
    if '0' <= c <= '9' then c as int - '0' as int
    else if 'a' <= c <= 'f' then c as int - 'a' as int + 10
    else 0
  }

  predicate IsDigit(c: char) {
    '0' <= c <= '9'
  }

  predicate IsLowerHex(c: char) {
    '0' <= c <= '9' || 'a' <= c <= 'f'
  }

  predicate AllDigits(s: string) {
    forall c :: c in s ==> IsDigit(c)
  }

  predicate AllLowerHex(s: string) {
    forall c :: c in s ==> IsLowerHex(c)
  }

  /** The number a text of digits denotes. */
  function Value(s: string, base: nat): nat {
    if s == "" then 0 else Value(s[..|s| - 1], base) * base + DigitValue(s[|s| - 1])
  }

  function DigitChar(d: nat): char
    requires d < 16
  {
    if d < 10 then ('0' as int + d) as char else ('a' as int + d - 10) as char
  }

  /** Exactly `width` hexadecimal digits. */
  function FixedHex(v: nat, width: nat): string {
    if width == 0 then "" else FixedHex(v / 16, width - 1) + [DigitChar(v % 16)]
  }

  /** The shortest decimal text. */
  function Decimal(v: nat): string {
    if v < 10 then [DigitChar(v)] else Decimal(v / 10) + [DigitChar(v % 10)]
  }

  function StripZeros(s: string): string {
    if |s| > 1 && s[0] == '0' then StripZeros(s[1..]) else s
  }

  /** `str::parse::<u64>`: an optional plus sign, then at least one digit, no overflow. */
  function ParseU64(s: string): Option<nat> {
    var digits := if s != "" && s[0] == '+' then s[1..] else s;
    if digits != "" && AllDigits(digits) && Value(digits, 10) < U64 then Some(Value(digits, 10)) else None
  }

  predicate ValidVersion(s: string) {
    s != "" && |s| <= 20 && AllDigits(s) && ParseU64(s).Some?
  }

  /** `sync_revision_from_provider_version` */
  function Encode(version: string): Option<string> {
    if ValidVersion(version) then Some(FixedHex(ParseU64(version).value, 64)) else None
  }

  /** `provider_version_from_sync_revision` */
  function Decode(revision: string): Option<string> {
    if |revision| != 64 || !AllLowerHex(revision) || Value(revision, 16) >= U64 then None
    else if FixedHex(Value(revision, 16), 64) != revision then None
    else Some(Decimal(Value(revision, 16)))
  }

  /** The revision `RemoteFile::to_remote_entry` attaches. */
  function ScannedRevision(version: string): Option<string> {
    if version == "" then None
    else match ParseU64(version)
      case Some(v) => Some(FixedHex(v, 64))
      case None => None
  }

  /** `require_provider_version_not_regressed`, on two valid versions. */
  predicate NotRegressed(previous: string, current: string)
    requires ValidVersion(previous) && ValidVersion(current)
  {
    ParseU64(current).value >= ParseU64(previous).value
  }

  // ----- Fixed-width hexadecimal

  function Power(base: nat, k: nat): nat {
    if k == 0 then 1 else base * Power(base, k - 1)
  }

  lemma FixedHexShape(v: nat, width: nat)
    ensures |FixedHex(v, width)| == width && AllLowerHex(FixedHex(v, width))
  {
  }

  lemma {:induction false} ValueOfHex(v: nat, width: nat)
    requires v < Power(16, width)
    ensures Value(FixedHex(v, width), 16) == v
  {
    if width > 0 {
      ValueOfHex(v / 16, width - 1);
      var s := FixedHex(v, width);
      assert s[..|s| - 1] == FixedHex(v / 16, width - 1);
    }
  }

  lemma {:induction false} HexOfValue(s: string)
    requires AllLowerHex(s)
    ensures FixedHex(Value(s, 16), |s|) == s
  {
    if s != "" {
      var init, last := s[..|s| - 1], s[|s| - 1];
      assert s == init + [last];
      assert AllLowerHex(init) && IsLowerHex(last) by {
        assert forall c :: c in init ==> c in s;
        assert last in s;
      }
      HexOfValue(init);
      HexAppend(Value(init, 16), |init|, last);
    }
  }

  lemma HexAppend(v: nat, width: nat, c: char)
    requires IsLowerHex(c)
    ensures FixedHex(v * 16 + DigitValue(c), width + 1) == FixedHex(v, width) + [c]
  {
    LastDigit(v, 16, c);
  }

  lemma LastDigit(v: nat, base: nat, c: char)
    requires (base == 16 && IsLowerHex(c)) || (base == 10 && IsDigit(c))
    ensures (v * base + DigitValue(c)) / base == v && (v * base + DigitValue(c)) % base == DigitValue(c)
    ensures DigitValue(c) < base && DigitChar(DigitValue(c)) == c
  {
  }

  lemma {:induction false} BelowAppend(s: string, t: string, x: char, y: char)
    requires |s| == |t|
    ensures Below(s + [x], t + [y]) <==> Below(s, t) || (s == t && x < y)
  {
    if s != "" {
      assert (s + [x])[1..] == s[1..] + [x] && (t + [y])[1..] == t[1..] + [y];
      BelowAppend(s[1..], t[1..], x, y);
      assert s == [s[0]] + s[1..] && t == [t[0]] + t[1..];
    }
  }

  /** Numeric order is text order. */
  lemma {:induction false} HexMonotone(a: nat, b: nat, width: nat)
    requires a < Power(16, width) && b < Power(16, width)
    ensures a < b <==> Below(FixedHex(a, width), FixedHex(b, width))
    decreases width
  {
    if width > 0 {
      var s, t := FixedHex(a / 16, width - 1), FixedHex(b / 16, width - 1);
      HexMonotone(a / 16, b / 16, width - 1);
      HexMonotone(b / 16, a / 16, width - 1);
      FixedHexShape(a / 16, width - 1);
      FixedHexShape(b / 16, width - 1);
      BelowAppend(s, t, DigitChar(a % 16), DigitChar(b % 16));
      if s == t {
        BelowIrreflexive(s);
      }
    }
  }

  lemma FitsSixtyFour(v: nat)
    requires v < U64
    ensures v < Power(16, 64)
  {
    PowerAdd(16, 16, 48);
    PowerPositive(16, 48);
    SixteenDigits();
    assert Power(16, 64) == Power(16, 16) * Power(16, 48) >= Power(16, 16);
  }

  lemma SixteenDigits()
    ensures Power(16, 16) == U64
  {
    assert Power(16, 4) == 0x1_0000;
    PowerAdd(16, 4, 4);
    PowerAdd(16, 8, 8);
  }

  lemma {:induction false} PowerAdd(base: nat, a: nat, b: nat)
    ensures Power(base, a + b) == Power(base, a) * Power(base, b)
  {
    if a > 0 {
      PowerAdd(base, a - 1, b);
      MulAssociates(base, Power(base, a - 1), Power(base, b));
    }
  }

  lemma MulAssociates(a: nat, b: nat, c: nat)
    ensures a * (b * c) == (a * b) * c
  {
  }

  lemma {:induction false} PowerPositive(base: nat, k: nat)
    requires base > 0
    ensures Power(base, k) >= 1
  {
    if k > 0 {
      PowerPositive(base, k - 1);
    }
  }

  // ----- Decimal

  lemma {:induction false} DecimalShape(v: nat)
    ensures Value(Decimal(v), 10) == v && AllDigits(Decimal(v)) && Decimal(v) != ""
    ensures v > 0 ==> Decimal(v)[0] != '0'
  {
    var s := Decimal(v);
    if v >= 10 {
      DecimalShape(v / 10);
      assert s[..|s| - 1] == Decimal(v / 10);
    } else {
      assert s[..0] == "";
    }
  }

  lemma {:induction false} LeadingZero(s: string)
    requires s != "" && s[0] == '0'
    ensures Value(s, 10) == Value(s[1..], 10)
  {
    if |s| > 1 {
      LeadingZero(s[..|s| - 1]);
      assert s[..|s| - 1][1..] == s[1..][..|s[1..]| - 1];
    } else {
      assert s[..0] == "" && s[1..] == "";
    }
  }

  /** The decimal text of a number is every text of it without the leading zeros. */
  lemma {:induction false} DecimalOfValue(s: string)
    requires s != "" && AllDigits(s)
    ensures Decimal(Value(s, 10)) == StripZeros(s)
    decreases |s|
  {
    if |s| == 1 {
      assert s[..0] == "" && s[0] in s;
    } else if s[0] == '0' {
      LeadingZero(s);
      DecimalOfValue(s[1..]);
    } else {
      DecimalOfLong(s);
    }
  }

  lemma {:induction false} DecimalOfLong(s: string)
    requires s != "" && AllDigits(s) && s[0] != '0'
    ensures Value(s, 10) > 0 && Decimal(Value(s, 10)) == s
  {
    var init, last := s[..|s| - 1], s[|s| - 1];
    assert s == init + [last] && IsDigit(last) && IsDigit(s[0]) by { assert last in s && s[0] in s; }
    if |s| == 1 {
      assert init == "" && s[0] == last;
      LastDigit(0, 10, last);
    } else {
      assert AllDigits(init) by { assert forall c :: c in init ==> c in s; }
      DecimalOfLong(init);
      DecimalAppend(Value(init, 10), last);
    }
  }

  lemma DecimalAppend(v: nat, c: char)
    requires v > 0 && IsDigit(c)
    ensures Decimal(v * 10 + DigitValue(c)) == Decimal(v) + [c]
  {
    LastDigit(v, 10, c);
  }

  lemma {:induction false} DecimalLength(v: nat, k: nat)
    requires k >= 1 && v < Power(10, k)
    ensures |Decimal(v)| <= k
  {
    if v >= 10 && k > 1 {
      DecimalLength(v / 10, k - 1);
    }
  }

  lemma TwentyDigits()
    ensures U64 <= Power(10, 20)
  {
    assert Power(10, 4) == 10000;
    assert Power(10, 2) == 100;
    PowerAdd(10, 4, 4);
    PowerAdd(10, 8, 8);
    PowerAdd(10, 16, 4);
  }

  lemma ParsePlain(s: string)
    requires s != "" && AllDigits(s)
    ensures ParseU64(s) == if Value(s, 10) < U64 then Some(Value(s, 10)) else None
  {
    assert s[0] in s;
  }

  // ----- The conversions

  /** Revisions are accepted exactly when they are the encoding of a number below 2^64; the
      second comparison of the code never rejects anything. */
  lemma DecodeAccepts(revision: string)
    ensures Decode(revision).Some? <==> exists v: nat :: v < U64 && revision == FixedHex(v, 64)
    ensures Decode(revision).Some? <==> |revision| == 64 && AllLowerHex(revision) && Value(revision, 16) < U64
  {
    if |revision| == 64 && AllLowerHex(revision) && Value(revision, 16) < U64 {
      HexOfValue(revision);
      assert revision == FixedHex(Value(revision, 16), 64);
    }
    if v: nat :| v < U64 && revision == FixedHex(v, 64) {
      FixedHexShape(v, 64);
      FitsSixtyFour(v);
      ValueOfHex(v, 64);
    }
  }

  /** Decoding and then encoding is the identity on every accepted revision. */
  lemma EncodeDecode(revision: string)
    requires Decode(revision).Some?
    ensures Encode(Decode(revision).value) == Some(revision)
  {
    var v := Value(revision, 16);
    DecimalShape(v);
    TwentyDigits();
    DecimalLength(v, 20);
    ParsePlain(Decimal(v));
  }

  /** Encoding and then decoding gives the version without leading zeros. */
  lemma DecodeEncode(version: string)
    requires Encode(version).Some?
    ensures Decode(Encode(version).value) == Some(StripZeros(version))
  {
    ParsePlain(version);
    var v := Value(version, 10);
    FixedHexShape(v, 64);
    FitsSixtyFour(v);
    ValueOfHex(v, 64);
    DecimalOfValue(version);
  }

  /** The encoding keeps the order of the numbers, and so is injective on them. */
  lemma EncodeMonotone(a: string, b: string)
    requires Encode(a).Some? && Encode(b).Some?
    ensures Value(a, 10) < Value(b, 10) <==> Below(Encode(a).value, Encode(b).value)
    ensures Value(a, 10) == Value(b, 10) <==> Encode(a) == Encode(b)
    ensures NotRegressed(a, b) <==> AtMost(Encode(a).value, Encode(b).value)
  {
    ParsePlain(a);
    ParsePlain(b);
    var v, w := Value(a, 10), Value(b, 10);
    FitsSixtyFour(v);
    FitsSixtyFour(w);
    HexMonotone(v, w, 64);
    HexMonotone(w, v, 64);
    if v == w {
      BelowIrreflexive(FixedHex(v, 64));
    } else {
      ValueOfHex(v, 64);
      ValueOfHex(w, 64);
    }
  }

  /** Equal encodings mean equal numbers for every accepted pair, whatever the spelling. */
  lemma EncodeInjective(a: string, b: string)
    requires Encode(a).Some? && Encode(a) == Encode(b)
    ensures StripZeros(a) == StripZeros(b)
  {
    DecodeEncode(a);
    DecodeEncode(b);
  }

  /** The scanner and the transfer code attach the same revision wherever both accept; the
      scanner accepts more exactly by a plus sign or by more than twenty characters. */
  lemma ScannerAgrees(version: string)
    ensures Encode(version).Some? ==> ScannedRevision(version) == Encode(version)
    ensures ScannedRevision(version).Some? && Encode(version).None? <==>
            ScannedRevision(version).Some? && (version[0] == '+' || |version| > 20)
  {
    if version != "" && version[0] == '+' {
      assert '+' in version;
    }
  }
}
