/** Machine integers, optional values and the text primitives of Rust's standard
    library that the editor's parsers rely on (`str::find`, `u8::from_str_radix`). */
module Common {

  /** Rust `u8`. */
  type u8 = x: int | 0 <= x < 256

  /** Rust `i8`. */
  type i8 = x: int | -128 <= x < 128

  datatype Option<+T> = None | Some(value: T)

  /** `b as i8`: the two's-complement reading of a byte. */
  function AsI8(b: u8): (r: i8)
    ensures 0 <= r ==> r == b
    ensures r < 0 ==> r == b - 256
  {
    if b < 128 then b else b - 256
  }

  /** `v as i8` for any integer: keeps the low eight bits, read as two's complement. */
  function WrapI8(v: int): (r: i8)
    ensures (r - v) % 256 == 0
  {
    var m := v % 256;
    if m < 128 then m else m - 256
  }

  /** `v as u8` for any integer: keeps the low eight bits. */
  function WrapU8(v: int): (r: u8)
    ensures 0 <= v < 256 ==> r == v
  {
    v % 256
  }

  /** A value that already fits a byte is unchanged by the cast. */
  lemma WrapU8Small(v: int)
    requires 0 <= v < 256
    ensures WrapU8(v) == v
  {
  }

  /** Byte `b` read back as a character (`b as char`). */
  function BytesToString(bs: seq<u8>): (s: string)
    ensures |s| == |bs|
    ensures forall k :: 0 <= k < |bs| ==> s[k] as int == bs[k]
  {
    seq(|bs|, k requires 0 <= k < |bs| => bs[k] as char)
  }

  /** Every character is 7-bit ASCII, so byte offsets and character offsets agree. */
  predicate IsAscii(s: string)
  {
    forall k :: 0 <= k < |s| ==> s[k] as int < 128
  }

  /** `s.as_bytes()` for an ASCII string. */
  function StringToBytes(s: string): (bs: seq<u8>)
    requires IsAscii(s)
    ensures |bs| == |s|
    ensures forall k :: 0 <= k < |s| ==> bs[k] == s[k] as int
  {
    seq(|s|, k requires 0 <= k < |s| => s[k] as int)
  }

  lemma AsciiRoundTrip(s: string)
    requires IsAscii(s)
    ensures BytesToString(StringToBytes(s)) == s
  {
  }

  /** `pat` occurs in `s` starting at index `j`. */
  predicate OccursAt(s: string, pat: string, j: int)
  {
    0 <= j && j + |pat| <= |s| && s[j..j + |pat|] == pat
  }

  /** `s[from..].find(pat)` measured from `from`: the first occurrence at or after `from`. */
  function FindFrom(s: string, pat: string, from: nat): (r: Option<nat>)
    requires from <= |s|
    ensures r.Some? ==> from <= r.value && OccursAt(s, pat, r.value)
    ensures r.Some? ==> forall j :: from <= j < r.value ==> !OccursAt(s, pat, j)
    ensures r.None? ==> forall j :: from <= j ==> !OccursAt(s, pat, j)
    decreases |s| - from
  {
    if from + |pat| > |s| then None
    else if s[from..from + |pat|] == pat then Some(from)
    else FindFrom(s, pat, from + 1)
  }

  /** `s.find(pat)`: the byte index of the first occurrence of `pat` in `s`. */
  function Find(s: string, pat: string): (r: Option<nat>)
    ensures r.Some? ==> OccursAt(s, pat, r.value)
    ensures r.Some? ==> forall j :: 0 <= j < r.value ==> !OccursAt(s, pat, j)
    ensures r.None? ==> forall j :: 0 <= j ==> !OccursAt(s, pat, j)
  {
    FindFrom(s, pat, 0)
  }

  /** The matches found from `from`, as absolute offsets, by a cursor loop that searches
      the rest of the text for `pat`, records each match and moves the cursor `step`
      characters past it. The loop slices the text at the cursor again after each match,
      which panics once the cursor passes the end; the scan stops there. */
  function Scan(s: string, pat: string, step: nat, from: nat): (r: seq<nat>)
    requires from <= |s| && step >= 1
    ensures forall k :: 0 <= k < |r| ==> from <= r[k] && OccursAt(s, pat, r[k])
    decreases |s| - from
  {
    match FindFrom(s, pat, from)
    case None => []
    case Some(p) => [p] + (if p + step <= |s| then Scan(s, pat, step, p + step) else [])
  }

  /** Scanning on from a match: the match, then the scan from past it. */
  lemma ScanFromMatch(s: string, pat: string, step: nat, from: nat)
    requires from <= |s| && step >= 1
    requires FindFrom(s, pat, from).Some? && FindFrom(s, pat, from).value + step <= |s|
    ensures Scan(s, pat, step, from) ==
              [FindFrom(s, pat, from).value] + Scan(s, pat, step, FindFrom(s, pat, from).value + step)
  {
  }

  lemma ScanHead(s: string, pat: string, step: nat, i: nat)
    requires i <= |s| && step >= 1 && FindFrom(s, pat, i).Some?
    ensures |Scan(s, pat, step, i)| >= 1 && Scan(s, pat, step, i)[0] == FindFrom(s, pat, i).value
  {
  }

  lemma ScanSafeTail(s: string, pat: string, step: nat, head: seq<nat>, rest: seq<nat>, all: seq<nat>)
    requires all == head + rest
    requires forall k :: 0 <= k < |all| ==> all[k] + step <= |s|
    ensures forall k :: 0 <= k < |rest| ==> rest[k] + step <= |s|
  {
    forall k | 0 <= k < |rest| ensures rest[k] + step <= |s| {
      assert rest[k] == all[|head| + k];
    }
  }

  lemma AppendShift<T>(a: seq<T>, x: T, b: seq<T>)
    ensures a + ([x] + b) == (a + [x]) + b
  {
  }

  /** A sequence is its prefix up to `m` followed by the rest. */
  lemma SplitAt<T>(s: seq<T>, m: nat)
    requires m <= |s|
    ensures s[..m] + s[m..] == s
  {
  }

  /** A non-empty sequence is its prefix followed by its last element. */
  lemma SnocLast<T>(s: seq<T>)
    requires |s| > 0
    ensures s[..|s| - 1] + [s[|s| - 1]] == s
  {
  }

  /** One more element of `s` extends its prefix by that element. */
  lemma SnocPrefix<T>(s: seq<T>, x: nat)
    requires x < |s|
    ensures s[..x + 1] == s[..x] + [s[x]]
  {
  }

  lemma SameElements<T>(a: seq<T>, b: seq<T>)
    requires |a| == |b| && forall i :: 0 <= i < |a| ==> a[i] == b[i]
    ensures a == b
  {
  }

  /** The cursor never passes the end of the string, so the loop above does not panic. */
  predicate ScanSafe(s: string, pat: string, step: nat, from: nat)
    requires from <= |s| && step >= 1
  {
    forall k :: 0 <= k < |Scan(s, pat, step, from)| ==> Scan(s, pat, step, from)[k] + step <= |s|
  }

  /** A scan whose step does not exceed the pattern never passes the end. */
  lemma ScanSafeShortStep(s: string, pat: string, step: nat, from: nat)
    requires from <= |s| && 1 <= step <= |pat|
    ensures ScanSafe(s, pat, step, from)
  {
  }

  /** Every offset moved on by `d`. */
  function Shift(ps: seq<nat>, d: nat): (r: seq<nat>)
    ensures |r| == |ps| && forall k :: 0 <= k < |ps| ==> r[k] == ps[k] + d
  {
    seq(|ps|, k requires 0 <= k < |ps| => ps[k] + d)
  }

  lemma ShiftSnoc(ps: seq<nat>, p: nat, d: nat)
    ensures Shift(ps + [p], d) == Shift(ps, d) + [p + d]
  {
    SameElements(Shift(ps + [p], d), Shift(ps, d) + [p + d]);
  }

  /** The cursor loop `Scan` describes, recording each match `shift` characters on. */
  method ScanPositions(s: string, pat: string, step: nat, shift: nat, from: nat) returns (positions: seq<nat>)
    requires from <= |s| && step >= 1 && ScanSafe(s, pat, step, from)
    ensures positions == Shift(Scan(s, pat, step, from), shift)
  {
    ghost var found: seq<nat> := [];
    positions := [];
    var i := from;
    var pos := FindFrom(s, pat, i);
    while pos.Some?
      invariant i <= |s| && pos == FindFrom(s, pat, i)
      invariant ScanSplit(s, pat, step, from, found, i) && ScanSafe(s, pat, step, i)
      invariant positions == Shift(found, shift)
      decreases |s| - i
    {
      ScanStep(s, pat, step, from, i, found);
      ShiftSnoc(found, pos.value, shift);
      found := found + [pos.value];
      positions := positions + [pos.value + shift];
      i := pos.value + step;
      pos := FindFrom(s, pat, i);
    }
    assert found + [] == found;
  }

  /** The scan from `from` is the matches `found` so far followed by the scan from `i`. */
  predicate ScanSplit(s: string, pat: string, step: nat, from: nat, found: seq<nat>, i: nat)
    requires from <= |s| && i <= |s| && step >= 1
  {
    found + Scan(s, pat, step, i) == Scan(s, pat, step, from)
  }

  /** One turn of the cursor loop of a safe scan: the match found from `i` is the next of
      the scan, and the cursor moved past it stays within the string. */
  lemma ScanStep(s: string, pat: string, step: nat, from: nat, i: nat, found: seq<nat>)
    requires from <= |s| && step >= 1
    requires i <= |s| && FindFrom(s, pat, i).Some? && ScanSplit(s, pat, step, from, found, i)
    requires ScanSafe(s, pat, step, i)
    ensures FindFrom(s, pat, i).value + step <= |s|
    ensures ScanSplit(s, pat, step, from, found + [FindFrom(s, pat, i).value], FindFrom(s, pat, i).value + step)
    ensures ScanSafe(s, pat, step, FindFrom(s, pat, i).value + step)
  {
    var p := FindFrom(s, pat, i).value;
    ScanHead(s, pat, step, i);
    assert p + step <= |s|;
    ScanFromMatch(s, pat, step, i);
    ScanSafeTail(s, pat, step, [p], Scan(s, pat, step, p + step), Scan(s, pat, step, i));
    AppendShift(found, p, Scan(s, pat, step, p + step));
  }

  /** No character of `s` is NUL, so no byte of it reads as a terminator. */
  predicate NoNul(s: string)
  {
    forall k :: 0 <= k < |s| ==> s[k] != '\0'
  }

  /** The index of the first zero byte at or after `from`. */
  function FirstZero(bs: seq<u8>, from: nat): (r: Option<nat>)
    requires from <= |bs|
    ensures r.Some? ==> from <= r.value < |bs| && bs[r.value] == 0
    ensures r.Some? ==> forall j :: from <= j < r.value ==> bs[j] != 0
    ensures r.None? ==> forall j :: from <= j < |bs| ==> bs[j] != 0
    decreases |bs| - from
  {
    if from == |bs| then None
    else if bs[from] == 0 then Some(from)
    else FirstZero(bs, from + 1)
  }

  /** The first zero byte at or after `from` is at `z` when `z` holds a zero and nothing
      between does. */
  lemma {:induction false} FirstZeroAt(bs: seq<u8>, from: nat, z: nat)
    requires from <= z < |bs| && bs[z] == 0
    requires forall j :: from <= j < z ==> bs[j] != 0
    ensures FirstZero(bs, from) == Some(z)
    decreases z - from
  {
    if from < z {
      FirstZeroAt(bs, from + 1, z);
    }
  }

  /** The name loop of both binary readers: it reads bytes as characters up to the first
      zero byte, and indexes past the end unless a zero byte follows. */
  method ReadName(bin: seq<u8>) returns (name: string, i: nat)
    requires FirstZero(bin, 0).Some?
    ensures i == FirstZero(bin, 0).value && name == BytesToString(bin[..i])
  {
    name := "";
    i := 0;
    ghost var z := FirstZero(bin, 0).value;
    while bin[i] != 0x00
      invariant i <= z
      invariant name == BytesToString(bin[..i])
      decreases z - i
    {
      name := name + [bin[i] as char];
      i := i + 1;
      assert bin[..i] == bin[..i - 1] + [bin[i - 1]];
    }
  }

  /** `c.to_digit(radix)`: the value of one digit character, if it is a digit in `radix`. */
  function DigitValue(c: char, radix: nat): (r: Option<nat>)
    ensures r.Some? ==> r.value < radix
  {
    var v: int :=
      if '0' <= c <= '9' then c as int - '0' as int
      else if 'a' <= c <= 'z' then c as int - 'a' as int + 10
      else if 'A' <= c <= 'Z' then c as int - 'A' as int + 10
      else 36;
    if v < radix then Some(v) else None
  }

  /** The value of a non-empty string of digits, most significant first, or None on a non-digit. */
  function DigitsValue(ds: string, radix: nat): Option<nat>
  {
    if ds == [] then Some(0)
    else match DigitsValue(ds[..|ds| - 1], radix)
      case None => None
      case Some(high) =>
        match DigitValue(ds[|ds| - 1], radix)
        case None => None
        case Some(d) => Some(high * radix + d)
  }

  /** `u8::from_str_radix(s, radix)`, as Rust's core library implements it for an unsigned
      type: empty input fails, a lone sign fails, one leading `+` is accepted, `-` is not a
      digit, and a value above 255 overflows. `str::parse::<u8>()` is the radix-10 case. */
  function ParseU8(s: string, radix: nat): (r: Option<u8>)
    ensures r.Some? ==> s != [] && s != "+"
  {
    if s == [] || s == "+" || s == "-" then None
    else
      var digits := if s[0] == '+' then s[1..] else s;
      match DigitsValue(digits, radix)
      case Some(v) => if v < 256 then Some(v) else None
      case None => None
  }

  /** `parse_hex_string`: a hexadecimal `u8`, or None. */
  function ParseHex(s: string): Option<u8>
  {
    ParseU8(s, 16)
  }

  /** The lower-case hexadecimal digit of a nibble, as the lower-hex format writes it. */
  function HexDigit(n: nat): (c: char)
    requires n < 16
    ensures DigitValue(c, 16) == Some(n)
  {
    if n < 10 then ('0' as int + n) as char else ('a' as int + n - 10) as char
  }

  /** A byte written as two lower-case hexadecimal digits. */
  function HexByte(b: u8): (s: string)
    ensures |s| == 2
  {
    [HexDigit(b / 16), HexDigit(b % 16)]
  }

  /** A field of two hexadecimal digits parses back to the byte they spell. */
  lemma ParseHexByte(b: u8)
    ensures ParseHex(HexByte(b)) == Some(b)
  {
    var s := HexByte(b);
    assert s[..1][..0] == [];
    assert s[..1] == [s[0]];
    assert DigitsValue(s[..1], 16) == Some(b / 16);
    assert s[0] != '+' && s[0] != '-';
  }

  /** Two characters parse as hexadecimal exactly when both are hex digits, or the first is
      a `+` and the second a hex digit; the value is the one those digits spell. */
  lemma ParseHexPair(a: char, b: char)
    ensures ParseHex([a, b]).Some? <==>
              ((a == '+' || DigitValue(a, 16).Some?) && DigitValue(b, 16).Some?)
    ensures ParseHex([a, b]).Some? && a != '+' ==>
              ParseHex([a, b]).value == DigitValue(a, 16).value * 16 + DigitValue(b, 16).value
    ensures ParseHex([a, b]).Some? && a == '+' ==> ParseHex([a, b]).value == DigitValue(b, 16).value
  {
    var s := [a, b];
    assert s != "+" && s != "-" && s != [];
    assert [a][..0] == [] && [b][..0] == [];
    if a == '+' {
      assert s[1..] == [b];
      assert DigitsValue([b], 16) == (match DigitValue(b, 16) case None => None case Some(d) => Some(d));
    } else {
      assert s[..1] == [a];
      var da, db := DigitValue(a, 16), DigitValue(b, 16);
      assert DigitsValue([a], 16) == da;
      if da.Some? && db.Some? {
        assert da.value * 16 + db.value <= 15 * 16 + 15;
      }
    }
  }
}
