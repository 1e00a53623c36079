/** Asset ids and precompile addresses: `precompileFor` (web/src/shieldpool.ts) builds an
    address from an id, `assetIdOf` (web/src/token.ts) reads the id back out of its text.  */
module AssetIds {
  import opened Powers
  import opened Text
  import opened Wrappers

  // ---- the number ---------------------------------------------------------

  function BitOr(a: nat, b: nat): nat {
    if a == 0 then b
    else if b == 0 then a
    else 2 * BitOr(a / 2, b / 2) + (if a % 2 == 1 || b % 2 == 1 then 1 else 0)
  }

  /** None stands for the exception on ids of 2^64 and more. */
  function PrecompileFor(assetId: nat): Option<nat> {
    if assetId == 0 then Some(0)
    else if assetId >= Pow2(64) then None
    else Some(BitOr(assetId * Pow2(128), 0x0120 * Pow2(16)))
  }

  /** OR-ing into an even number goes on with the halves. */
  lemma {:induction false} OrStep(half: nat, b: nat)
    ensures BitOr(2 * half, b) == 2 * BitOr(half, b / 2) + b % 2
  {
  }

  lemma Doubles(a: nat, k: nat)
    requires k > 0
    ensures a * Pow2(k) == 2 * (a * Pow2(k - 1))
  {
    Pow2Step(k);
    hide Pow2;
    var p := Pow2(k - 1);
    assert a * (2 * p) == 2 * (a * p);
  }

  lemma {:induction false} OrShifted(a: nat, k: nat, shifted: nat, b: nat)
    requires shifted == a * Pow2(k) && b < Pow2(k)
    ensures BitOr(shifted, b) == shifted + b
  {
    if k == 0 {
      assert b == 0;
    } else {
      hide BitOr;
      Doubles(a, k);
      Pow2Step(k);
      hide Pow2;
      var half := a * Pow2(k - 1);
      OrShifted(a, k - 1, half, b / 2);
      OrStep(half, b);
    }
  }

  lemma {:induction false} OrDisjoint(a: nat, k: nat, b: nat)
    requires b < Pow2(k)
    ensures BitOr(a * Pow2(k), b) == a * Pow2(k) + b
  {
    OrShifted(a, k, a * Pow2(k), b);
  }

  // ---- hexadecimal text ---------------------------------------------------

  const DIGITS: string := "0123456789abcdef"

  function HexDigit(d: nat): char
    requires d < 16
  {
    DIGITS[d]
  }

  function DigitValue(c: char): (v: Option<nat>)
    ensures v.Some? ==> v.value < 16 && HexDigit(v.value) == c
  {
    if '0' <= c <= '9' then Some(c as int - '0' as int)
    else if 'a' <= c <= 'f' then Some(c as int - 'a' as int + 10)
    else None
  }

  predicate IsHex(s: string) {
    forall k :: 0 <= k < |s| ==> DigitValue(s[k]).Some?
  }

  function HexValue(s: string): nat
    requires IsHex(s)
  {
    if s == "" then 0 else 16 * HexValue(s[..|s| - 1]) + DigitValue(s[|s| - 1]).value
  }

  /** White space and line ends, as `BigInt` trims them. */
  predicate IsSpace(c: char) {
    || 0x09 as char <= c <= 0x0D as char || c == ' ' || c == 0xA0 as char || c == 0x1680 as char
    || 0x2000 as char <= c <= 0x200A as char || c == 0x2028 as char || c == 0x2029 as char
    || c == 0x202F as char || c == 0x205F as char || c == 0x3000 as char || c == 0xFEFF as char
  }

  function TrimEnd(s: string): (t: string)
    ensures t <= s && (t == "" || !IsSpace(t[|t| - 1]))
  {
    if s != "" && IsSpace(s[|s| - 1]) then TrimEnd(s[..|s| - 1]) else s
  }

  /** `BigInt("0x" + s)`: trailing white space is dropped; None without a digit or on any
      other character. */
  function ParseHex(s: string): Option<nat> {
    var t := TrimEnd(s);
    if t != "" && IsHex(t) then Some(HexValue(t)) else None
  }

  /** `n.toString(16)`. */
  function ToHex(n: nat): string {
    if n < 16 then [HexDigit(n)] else ToHex(n / 16) + [HexDigit(n % 16)]
  }

  function Zeros(k: nat): (z: string)
    ensures |z| == k
  {
    seq(k, _ => '0')
  }

  function PadStart(s: string, k: nat): string {
    if |s| >= k then s else Zeros(k - |s|) + s
  }

  function StripPrefix(s: string): string {
    if |s| >= 2 && s[..2] == "0x" then s[2..] else s
  }

  const MARKER: string := "01200000"

  datatype AssetId = NoId | Id(id: nat) | Malformed

  function AssetIdOf(token: string): AssetId {
    var a := StripPrefix(Lower(token));
    if |a| != 40 || a[32..] != MARKER then NoId
    else if a[8..32] != Zeros(24) then NoId
    else
      var id := ParseHex(a[..8]);
      if id.None? then Malformed
      else if id.value > 0 then Id(id.value) else NoId
  }

  /** The address text `topUpShielded` builds from an id. */
  function PrintedDigits(address: nat): string {
    PadStart(ToHex(address), 40)
  }

  // ---- fixed-width digits -------------------------------------------------

  function Digits(n: nat, k: nat): (s: string)
    ensures |s| == k
  {
    if k == 0 then "" else Digits(n / 16, k - 1) + [HexDigit(n % 16)]
  }

  function Pow16(k: nat): (p: nat)
    ensures p > 0
  {
    if k == 0 then 1 else 16 * Pow16(k - 1)
  }

  lemma {:induction false} Pow16IsPow2(k: nat)
    ensures Pow16(k) == Pow2(4 * k)
  {
    if k > 0 {
      Pow16IsPow2(k - 1);
      assert Pow2(4 * k) == 2 * Pow2(4 * k - 1) == 4 * Pow2(4 * k - 2);
      assert Pow2(4 * k - 2) == 2 * Pow2(4 * k - 3) == 4 * Pow2(4 * k - 4);
    }
  }

  lemma {:induction false} DigitsOfZero(k: nat)
    ensures Digits(0, k) == Zeros(k)
  {
    if k > 0 {
      DigitsOfZero(k - 1);
    }
  }

  lemma {:induction false} DigitsStep(n: nat, k: nat)
    requires k > 0
    ensures Digits(n, k) == Digits(n / 16, k - 1) + [HexDigit(n % 16)]
  {
  }

  lemma SplitLast(a: nat, p: nat, b: nat)
    ensures (a * (16 * p) + b) / 16 == a * p + b / 16
    ensures (a * (16 * p) + b) % 16 == b % 16
  {
    assert a * (16 * p) == 16 * (a * p);
  }

  lemma {:induction false} JoinStep(n: nat, a: nat, b: nat, k: nat)
    requires k > 0 && n == a * Pow16(k) + b && b < Pow16(k)
    ensures n / 16 == a * Pow16(k - 1) + b / 16 && n % 16 == b % 16 && b / 16 < Pow16(k - 1)
  {
    SplitLast(a, Pow16(k - 1), b);
  }

  lemma {:induction false} DigitsJoin(n: nat, a: nat, j: nat, b: nat, k: nat)
    requires n == a * Pow16(k) + b && b < Pow16(k)
    ensures Digits(n, j + k) == Digits(a, j) + Digits(b, k)
  {
    if k == 0 {
      assert n == a && Digits(b, 0) == "";
    } else {
      DigitsStep(n, j + k);
      DigitsStep(b, k);
      JoinStep(n, a, b, k);
      hide Digits, HexDigit, Pow16;
      DigitsJoin(n / 16, a, j, b / 16, k - 1);
    }
  }

  lemma DigitsConcat(a: nat, j: nat, b: nat, k: nat)
    requires b < Pow16(k)
    ensures Digits(a * Pow16(k) + b, j + k) == Digits(a, j) + Digits(b, k)
  {
    DigitsJoin(a * Pow16(k) + b, a, j, b, k);
  }

  lemma PadOne(c: char, k: nat)
    requires k > 0
    ensures PadStart([c], k) == Zeros(k - 1) + [c]
  {
  }

  lemma PadPush(s: string, c: char, k: nat)
    requires |s| <= k
    ensures PadStart(s + [c], k + 1) == PadStart(s, k) + [c]
  {
  }

  lemma {:induction false} HexStep(n: nat)
    ensures ToHex(n) == if n < 16 then [HexDigit(n)] else ToHex(n / 16) + [HexDigit(n % 16)]
  {
  }

  lemma FewerDigits(n: nat, k: nat)
    requires k > 0 && n < Pow16(k)
    ensures n / 16 < Pow16(k - 1) && (n >= 16 ==> k > 1)
  {
  }

  /** Padding the shortest text gives the fixed-width text, if the number fits. */
  lemma {:induction false} PaddedHex(n: nat, k: nat)
    requires k > 0 && n < Pow16(k)
    ensures |ToHex(n)| <= k && PadStart(ToHex(n), k) == Digits(n, k)
  {
    DigitsStep(n, k);
    HexStep(n);
    FewerDigits(n, k);
    hide PadStart, Zeros, Digits, ToHex, HexDigit, Pow16;
    if n < 16 {
      DigitsOfZero(k - 1);
      PadOne(HexDigit(n), k);
    } else {
      PaddedHex(n / 16, k - 1);
      PadPush(ToHex(n / 16), HexDigit(n % 16), k - 1);
    }
  }

  lemma {:induction false} TooLong(n: nat, k: nat)
    requires n >= Pow16(k)
    ensures |ToHex(n)| > k
  {
    if k > 0 {
      TooLong(n / 16, k - 1);
    }
  }

  lemma {:induction false} ValueOfDigits(n: nat, k: nat)
    requires n < Pow16(k)
    ensures IsHex(Digits(n, k)) && HexValue(Digits(n, k)) == n
  {
    if k > 0 {
      ValueOfDigits(n / 16, k - 1);
      DigitRoundTrip(n % 16);
      var s := Digits(n, k);
      assert s[..|s| - 1] == Digits(n / 16, k - 1);
    }
  }

  lemma DigitRoundTrip(d: nat)
    requires d < 16
    ensures DigitValue(HexDigit(d)) == Some(d)
  {
  }

  lemma DigitsPush(v: nat, d: nat, k: nat)
    requires d < 16
    ensures Digits(16 * v + d, k + 1) == Digits(v, k) + [HexDigit(d)]
  {
    assert (16 * v + d) / 16 == v && (16 * v + d) % 16 == d;
  }

  lemma {:induction false} HexPush(init: string, c: char)
    requires IsHex(init) && DigitValue(c).Some?
    ensures IsHex(init + [c]) && HexValue(init + [c]) == 16 * HexValue(init) + DigitValue(c).value
  {
    assert (init + [c])[..|init|] == init;
  }

  lemma {:induction false} DigitsOfValue(s: string)
    requires IsHex(s)
    ensures HexValue(s) < Pow16(|s|) && Digits(HexValue(s), |s|) == s
    decreases |s|, 0
  {
    if s != "" {
      DigitsOfPushed(s[..|s| - 1], s[|s| - 1]);
      assert s == s[..|s| - 1] + [s[|s| - 1]];
    }
  }

  lemma {:induction false} DigitsOfPushed(init: string, c: char)
    requires IsHex(init) && DigitValue(c).Some?
    ensures IsHex(init + [c]) && HexValue(init + [c]) < Pow16(|init| + 1)
    ensures Digits(HexValue(init + [c]), |init| + 1) == init + [c]
    decreases |init|, 1
  {
    hide Digits, HexValue, DigitValue;
    DigitsOfValue(init);
    HexPush(init, c);
    DigitsPush(HexValue(init), DigitValue(c).value, |init|);
  }

  lemma MarkerDigits()
    ensures Digits(0x0120_0000, 8) == MARKER
  {
    DigitsOfValue(MARKER);
    MarkerValue();
  }

  lemma {:induction false} HexChar(init: string, c: char, s: string, digit: nat)
    requires IsHex(init) && DigitValue(c) == Some(digit) && s == init + [c]
    ensures IsHex(s) && HexValue(s) == 16 * HexValue(init) + digit
  {
    HexPush(init, c);
  }

  lemma EmptyHex()
    ensures IsHex("") && HexValue("") == 0
  {
  }

  lemma MarkerValue()
    ensures IsHex(MARKER) && HexValue(MARKER) == 0x0120_0000
  {
    hide HexValue, IsHex;
    EmptyHex();
    HexChar("", '0', "0", 0);
    HexChar("0", '1', "01", 1);
    HexChar("01", '2', "012", 2);
    HexChar("012", '0', "0120", 0);
    HexChar("0120", '0', "01200", 0);
    HexChar("01200", '0', "012000", 0);
    HexChar("012000", '0', "0120000", 0);
    HexChar("0120000", '0', MARKER, 0);
  }

  lemma MarkerNumber()
    ensures 0x0120 * Pow2(16) == 0x0120_0000 < Pow16(8) == 0x1_0000_0000
  {
    Pow16IsPow2(4);
    assert Pow16(4) == 0x1_0000 && Pow16(8) == 0x1_0000 * Pow16(4);
  }

  // ---- the two directions undo each other ---------------------------------

  lemma PrecompileNumber(id: nat)
    requires 0 < id < Pow2(64)
    ensures PrecompileFor(id) == Some(id * Pow16(32) + 0x0120_0000)
  {
    hide BitOr, Pow2, Pow16;
    Pow16IsPow2(32);
    MarkerNumber();
    LowPart();
    OrDisjoint(id, 128, 0x0120_0000);
  }

  lemma PrecompileAsPower(id: nat)
    requires 0 < id < Pow2(64)
    ensures PrecompileFor(id) == Some(id * Pow2(128) + 0x0120_0000)
  {
    hide PrecompileFor, Pow2, Pow16;
    PrecompileNumber(id);
    Pow16IsPow2(32);
  }

  /** The 40 digits printed for an id below 2^32: the id, 24 zeros, the marker. */
  lemma {:induction false} PrintedForm(id: nat)
    requires 0 < id < 0x1_0000_0000
    ensures id < Pow2(64) && PrecompileFor(id).Some?
    ensures PrintedDigits(PrecompileFor(id).value) == Digits(id, 8) + Zeros(24) + MARKER
  {
    hide Digits, Zeros, PadStart, ToHex, Pow16, Pow2, PrecompileFor;
    IdFits(id);
    PrecompileNumber(id);
    var n := id * Pow16(32) + 0x0120_0000;
    MarkerNumber();
    DigitsConcat(0, 24, 0x0120_0000, 8);
    DigitsOfZero(24);
    MarkerDigits();
    assert Digits(0x0120_0000, 32) == Zeros(24) + MARKER;
    LowPart();
    DigitsConcat(id, 8, 0x0120_0000, 32);
    AddressFits(id);
    PaddedHex(n, 40);
  }

  lemma IdFits(id: nat)
    requires id < 0x1_0000_0000
    ensures id < Pow2(64)
  {
    MarkerNumber();
    Pow16IsPow2(8);
    Pow2Mono(32, 64);
  }

  lemma LowPart()
    ensures 0x0120_0000 < Pow16(32)
  {
    MarkerNumber();
    Pow16IsPow2(8);
    Pow16IsPow2(32);
    Pow2Mono(32, 128);
  }

  lemma AddressFits(id: nat)
    ensures id < 0x1_0000_0000 ==> id * Pow16(32) + 0x0120_0000 < Pow16(40)
    ensures id >= 0x1_0000_0000 ==> id * Pow16(32) + 0x0120_0000 >= Pow16(40)
  {
    LowPart();
    MarkerNumber();
    Pow16IsPow2(8);
    Pow16IsPow2(32);
    Pow16IsPow2(40);
    Pow2Add(32, 128);
    var p := Pow16(32);
    assert Pow16(40) == 0x1_0000_0000 * p;
    if id < 0x1_0000_0000 {
      MulMono(id + 1, 0x1_0000_0000, p);
      assert (id + 1) * p == id * p + p;
    } else {
      MulMono(0x1_0000_0000, id, p);
    }
  }

  lemma {:induction false} PrintedParts(id: nat)
    requires id < 0x1_0000_0000
    ensures var a := Digits(id, 8) + Zeros(24) + MARKER;
      |a| == 40 && a[32..] == MARKER && a[8..32] == Zeros(24) && a[..8] == Digits(id, 8)
  {
  }

  /** Printing and parsing is the identity on ids from 1 to 2^32 - 1. */
  lemma PrintThenParse(id: nat)
    requires 0 < id < 0x1_0000_0000
    ensures PrecompileFor(id).Some?
    ensures AssetIdOf("0x" + PrintedDigits(PrecompileFor(id).value)) == Id(id)
  {
    PrintedForm(id);
    PrintedParts(id);
    var a := PrintedDigits(PrecompileFor(id).value);
    MarkerNumber();
    ValueOfDigits(id, 8);
    HexKept(Digits(id, 8));
    LowerHex(id);
    assert ("0x" + a)[2..] == a && ("0x" + a)[..2] == "0x";
  }

  lemma {:induction false} LowerHex(id: nat)
    requires id < 0x1_0000_0000
    ensures Lower("0x" + (Digits(id, 8) + Zeros(24) + MARKER)) == "0x" + (Digits(id, 8) + Zeros(24) + MARKER)
  {
    var a := Digits(id, 8) + Zeros(24) + MARKER;
    MarkerNumber();
    ValueOfDigits(id, 8);
    forall k | 0 <= k < 40 ensures !('A' <= a[k] <= 'Z') {
      if k < 8 {
        assert DigitValue(Digits(id, 8)[k]).Some?;
      }
    }
  }

  /** Ids outside that range parse to nothing: 0 prints 40 zeros, and 2^32 or more needs
      more than 40 digits. */
  lemma OutOfRange(id: nat)
    requires id == 0 || 0x1_0000_0000 <= id < Pow2(64)
    ensures PrecompileFor(id).Some?
    ensures AssetIdOf("0x" + PrintedDigits(PrecompileFor(id).value)) == NoId
  {
    hide Pow2, Pow16, BitOr, ToHex;
    if id == 0 {
      ZeroPrints();
    } else {
      PrecompileNumber(id);
      AddressFits(id);
      TooLong(PrecompileFor(id).value, 40);
      LongText(PrintedDigits(PrecompileFor(id).value));
    }
  }

  lemma ZeroPrints()
    ensures AssetIdOf("0x" + PrintedDigits(0)) == NoId
  {
    var a := PrintedDigits(0);
    assert a == Zeros(39) + "0";
    assert Lower("0x" + a) == "0x" + a && ("0x" + a)[2..] == a;
    assert a[32..][1] == '0' && MARKER[1] == '1';
  }

  lemma LongText(a: string)
    requires |a| > 40
    ensures AssetIdOf("0x" + a) == NoId
  {
    assert Lower("0x" + a)[..2] == "0x";
  }

  lemma {:induction false} HexKept(s: string)
    requires s != "" && IsHex(s)
    ensures TrimEnd(s) == s && ParseHex(s) == Some(HexValue(s))
  {
    assert DigitValue(s[|s| - 1]).Some?;
  }

  /** A text that parses to an id is, lower-cased and without prefix, what the id prints
      exactly when its first eight characters are digits: white space may stand in for the
      last of them. */
  lemma ParseThenPrint(token: string, id: nat)
    requires AssetIdOf(token) == Id(id)
    ensures 0 < id < 0x1_0000_0000 && PrecompileFor(id).Some?
    ensures var a := StripPrefix(Lower(token));
      |a| == 40 && (PrintedDigits(PrecompileFor(id).value) == a <==> IsHex(a[..8]))
  {
    hide PrintedDigits, Pow16, HexValue, Digits;
    var a := StripPrefix(Lower(token));
    var t := TrimEnd(a[..8]);
    DigitsOfValue(t);
    Pow16Mono(|t|, 8);
    MarkerNumber();
    PrintedForm(id);
    PrintedParts(id);
    ValueOfDigits(id, 8);
    if IsHex(a[..8]) {
      HexKept(a[..8]);
      assert a == a[..8] + a[8..32] + a[32..];
    }
  }

  lemma {:induction false} Pow16Mono(a: nat, b: nat)
    requires a <= b
    ensures Pow16(a) <= Pow16(b)
  {
    if a < b {
      Pow16Mono(a, b - 1);
    }
  }

  lemma LowerKeeps(s: string)
    requires forall k :: 0 <= k < |s| ==> !('A' <= s[k] <= 'Z')
    ensures Lower(s) == s
  {
  }

  lemma SpacedParts(d: string)
    requires |d| == 7
    ensures var a := d + " " + Zeros(24) + MARKER;
      |a| == 40 && a[32..] == MARKER && a[8..32] == Zeros(24) && a[..8] == d + " " && a[7] == ' '
  {
  }

  lemma {:induction false} TrimOne(d: string)
    requires d != "" && IsHex(d)
    ensures TrimEnd(d + " ") == d && ParseHex(d + " ") == Some(HexValue(d))
  {
    assert (d + " ")[..|d|] == d;
    HexKept(d);
  }

  /** Seven digits and a space, "1234567 " say, parse to an id that prints otherwise. */
  lemma {:induction false} SpacedText(d: string)
    requires |d| == 7 && IsHex(d) && HexValue(d) > 0
    ensures var a := d + " " + Zeros(24) + MARKER;
      && AssetIdOf("0x" + a) == Id(HexValue(d)) && PrecompileFor(HexValue(d)).Some?
      && PrintedDigits(PrecompileFor(HexValue(d)).value) != a
  {
    hide PrintedDigits, HexValue, PrecompileFor, TrimEnd, ParseHex, Lower;
    var a := d + " " + Zeros(24) + MARKER;
    SpacedParts(d);
    TrimOne(d);
    forall k | 0 <= k < 7 ensures !('A' <= d[k] <= 'Z') {
      assert DigitValue(d[k]).Some?;
    }
    LowerKeeps("0x" + a);
    assert ("0x" + a)[2..] == a && ("0x" + a)[..2] == "0x";
    ParseThenPrint("0x" + a, HexValue(d));
    assert DigitValue(a[..8][7]).None?;
  }

  /** Eight characters before the zeros and the marker that are no number make the
      conversion throw. */
  lemma {:induction false} NotANumber(d: string)
    requires |d| == 8 && (forall k :: 0 <= k < 8 ==> !('A' <= d[k] <= 'Z'))
    ensures AssetIdOf("0x" + (d + Zeros(24) + MARKER)) == Malformed <==> TrimEnd(d) == "" || !IsHex(TrimEnd(d))
  {
    hide HexValue, TrimEnd, IsHex, Lower;
    var a := d + Zeros(24) + MARKER;
    EightParts(d);
    LowerKeeps("0x" + a);
    assert ("0x" + a)[2..] == a && ("0x" + a)[..2] == "0x";
  }

  lemma EightParts(d: string)
    requires |d| == 8
    ensures var a := d + Zeros(24) + MARKER;
      |a| == 40 && a[32..] == MARKER && a[8..32] == Zeros(24) && a[..8] == d
  {
  }

  /** The prefix may be left out, and letters may be of either case. */
  lemma PrefixAndCase(a: string)
    ensures AssetIdOf(Lower(a)) == AssetIdOf(a)
    ensures !(|a| >= 2 && Lower(a)[..2] == "0x") ==> AssetIdOf("0x" + a) == AssetIdOf(a)
  {
    hide ParseHex;
    assert Lower(Lower(a)) == Lower(a);
    assert Lower("0x" + a)[2..] == Lower(a) && Lower("0x" + a)[..2] == "0x";
  }

  /** The white space that is trimmed, by number. */
  lemma SpacesExactly(c: char)
    ensures var spaces := {9, 10, 11, 12, 13, 32, 160, 5760, 8192, 8193, 8194, 8195, 8196, 8197, 8198, 8199, 8200, 8201, 8202,
                           8232, 8233, 8239, 8287, 12288, 65279};
      IsSpace(c) <==> c as int in spaces
  {
  }
}
