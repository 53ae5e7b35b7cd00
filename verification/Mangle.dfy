/** Identifier mangling of the Java backend in exact mode,
    `crates/backends/leek-backend-java/src/mangle.rs`. */
module Mangle {
  import opened Options

  predicate IsSafe(c: char) {
    'a' <= c <= 'z' || 'A' <= c <= 'Z' || '0' <= c <= '9' || c == '_'
  }

  // ---- UTF-16 code units and their `_uXXXX` form ----

  /** UTF-16 code units of a scalar value (section 2.1 of RFC 2781). */
  function Utf16(c: char): (units: seq<nat>)
    ensures 1 <= |units| <= 2 && forall i :: 0 <= i < |units| ==> units[i] < 0x1_0000
  {
    var n := c as int;
    if n < 0x1_0000 then [n]
    else [0xD800 + (n - 0x1_0000) / 0x400, 0xDC00 + (n - 0x1_0000) % 0x400]
  }

  function HexDigit(d: nat): char
    requires d < 16
  {
    if d < 10 then '0' + d as char else 'A' + (d - 10) as char
  }

  /** Value of an upper-case hexadecimal digit. */
  function HexValue(c: char): Option<nat> {
    if '0' <= c <= '9' then Some(c as int - '0' as int)
    else if 'A' <= c <= 'F' then Some(c as int - 'A' as int + 10)
    else None
  }

  /** One code unit as `_u` and four upper-case hexadecimal digits. */
  function EscapeUnit(u: nat): (r: string)
    requires u < 0x1_0000
    ensures |r| == 6
  {
    ['_', 'u', HexDigit(u / 4096), HexDigit(u / 256 % 16), HexDigit(u / 16 % 16), HexDigit(u % 16)]
  }

  function EscapeUnits(units: seq<nat>): string
    requires forall i :: 0 <= i < |units| ==> units[i] < 0x1_0000
  {
    if units == [] then "" else EscapeUnits(units[..|units| - 1]) + EscapeUnit(units[|units| - 1])
  }

  function Escape(c: char): string {
    if IsSafe(c) then [c] else EscapeUnits(Utf16(c))
  }

  /** What `safe_chars` computes: every unsafe character escaped. */
  function Safe(name: string): string {
    if name == "" then "" else Escape(name[0]) + Safe(name[1..])
  }

  method SafeChars(name: string) returns (out: string)
    ensures out == Safe(name)
  {
    hide IsSafe, EscapeUnits, Utf16, EscapeUnit;
    out := "";
    assert name[0..] == name && "" + Safe(name) == Safe(name);
    for i := 0 to |name|
      invariant out + Safe(name[i..]) == Safe(name)
    {
      var c := name[i];
      assert name[i..][1..] == name[i + 1..];
      assert Safe(name[i..]) == Escape(c) + Safe(name[i + 1..]);
      assert out + (Escape(c) + Safe(name[i + 1..])) == (out + Escape(c)) + Safe(name[i + 1..]);
      if IsSafe(c) {
        out := out + [c];
      } else {
        out := PushUnits(out, Utf16(c));
      }
    }
    assert name[|name|..] == "" && out + "" == out;
  }

  /** The inner loop: one escape per UTF-16 code unit. */
  method PushUnits(before: string, units: seq<nat>) returns (out: string)
    requires forall i :: 0 <= i < |units| ==> units[i] < 0x1_0000
    ensures out == before + EscapeUnits(units)
  {
    out := before;
    for k := 0 to |units|
      invariant out == before + EscapeUnits(units[..k])
    {
      assert units[..k + 1][..k] == units[..k];
      out := out + EscapeUnit(units[k]);
    }
    assert units[..|units|] == units;
  }

  // ---- Reading escapes back ----

  /** The code unit spelled at position `i`. */
  function UnitAt(s: string, i: nat): (r: Option<nat>)
    ensures r.Some? ==> r.value < 0x1_0000 && i + 6 <= |s|
  {
    if i + 6 <= |s| && s[i] == '_' && s[i + 1] == 'u'
       && HexValue(s[i + 2]).Some? && HexValue(s[i + 3]).Some? && HexValue(s[i + 4]).Some? && HexValue(s[i + 5]).Some?
    then Some(HexValue(s[i + 2]).value * 4096 + HexValue(s[i + 3]).value * 256
              + HexValue(s[i + 4]).value * 16 + HexValue(s[i + 5]).value)
    else None
  }

  predicate IsHigh(u: nat) { 0xD800 <= u < 0xDC00 }
  predicate IsLow(u: nat) { 0xDC00 <= u < 0xE000 }

  function Paired(high: nat, low: nat): char
    requires IsHigh(high) && IsLow(low)
  {
    (0x1_0000 + (high - 0xD800) * 0x400 + (low - 0xDC00)) as char
  }

  /** The unsafe character that the text at position `i` is the escape of, and its length. */
  function EscapeAt(s: string, i: nat): (r: Option<(char, nat)>)
    ensures r.Some? ==> 0 < r.value.1 && i + r.value.1 <= |s|
  {
    match UnitAt(s, i)
    case None => None
    case Some(u) =>
      if IsHigh(u) then
        match UnitAt(s, i + 6)
        case None => None
        case Some(low) => if IsLow(low) then Some((Paired(u, low), 12)) else None
      else if IsLow(u) || IsSafe(u as char) then None
      else Some((u as char, 6))
  }

  /** Every escape of an unsafe character replaced by that character. */
  function Unescaped(s: string): string {
    if s == "" then ""
    else
      match EscapeAt(s, 0)
      case None => [s[0]] + Unescaped(s[1..])
      case Some((c, n)) => [c] + Unescaped(s[n..])
  }

  /** No escape of an unsafe character is spelled out in the name itself. */
  ghost predicate EscapeFree(s: string) {
    forall i: nat :: i < |s| ==> EscapeAt(s, i).None?
  }

  // ---- Arithmetic of the escapes ----

  lemma HexRoundTrip(d: nat)
    requires d < 16
    ensures HexValue(HexDigit(d)) == Some(d) && IsSafe(HexDigit(d))
  {}

  lemma HexIsCanonical(c: char)
    requires HexValue(c).Some?
    ensures HexValue(c).value < 16 && HexDigit(HexValue(c).value) == c && IsSafe(c)
  {}

  lemma DigitsRoundTrip(a: nat, b: nat, c: nat, d: nat, rest: string)
    requires a < 16 && b < 16 && c < 16 && d < 16
    ensures UnitAt(['_', 'u', HexDigit(a), HexDigit(b), HexDigit(c), HexDigit(d)] + rest, 0)
         == Some(a * 4096 + b * 256 + c * 16 + d)
  {
    HexRoundTrip(a);
    HexRoundTrip(b);
    HexRoundTrip(c);
    HexRoundTrip(d);
    hide HexValue, HexDigit;
    var t := ['_', 'u', HexDigit(a), HexDigit(b), HexDigit(c), HexDigit(d)] + rest;
    assert t[0] == '_' && t[1] == 'u' && t[2] == HexDigit(a) && t[3] == HexDigit(b) && t[4] == HexDigit(c)
        && t[5] == HexDigit(d);
  }

  lemma UnitDigits(u: nat)
    requires u < 0x1_0000
    ensures u / 4096 < 16 && u == u / 4096 * 4096 + u / 256 % 16 * 256 + u / 16 % 16 * 16 + u % 16
  {
    assert u / 256 == u / 16 / 16 && u / 4096 == u / 16 / 16 / 16;
  }

  lemma UnitRoundTrip(u: nat, rest: string)
    requires u < 0x1_0000
    ensures UnitAt(EscapeUnit(u) + rest, 0) == Some(u)
    ensures forall i :: 0 <= i < 6 ==> IsSafe(EscapeUnit(u)[i])
  {
    UnitDigits(u);
    HexRoundTrip(u / 4096);
    HexRoundTrip(u / 256 % 16);
    HexRoundTrip(u / 16 % 16);
    HexRoundTrip(u % 16);
    SafeLetters();
    hide UnitAt, HexDigit, HexValue, IsSafe;
    DigitsRoundTrip(u / 4096, u / 256 % 16, u / 16 % 16, u % 16, rest);
  }

  lemma SafeLetters()
    ensures IsSafe('_') && IsSafe('u')
  {}

  lemma DigitsOf(a: nat, b: nat, c: nat, d: nat)
    requires a < 16 && b < 16 && c < 16 && d < 16
    ensures var u := a * 4096 + b * 256 + c * 16 + d;
            u / 4096 == a && u / 256 % 16 == b && u / 16 % 16 == c && u % 16 == d
  {
    var u := a * 4096 + b * 256 + c * 16 + d;
    LowDigit(a * 256 + b * 16 + c, d);
    LowDigit(a * 16 + b, c);
    LowDigit(a, b);
    assert u == 16 * (a * 256 + b * 16 + c) + d;
    assert u / 256 == u / 16 / 16 && u / 4096 == u / 16 / 16 / 16;
  }

  lemma LowDigit(high: nat, low: nat)
    requires low < 16
    ensures (16 * high + low) / 16 == high && (16 * high + low) % 16 == low
  {}

  lemma UnitIsCanonical(s: string, i: nat)
    requires UnitAt(s, i).Some?
    ensures s[i..i + 6] == EscapeUnit(UnitAt(s, i).value)
    ensures forall k :: i <= k < i + 6 ==> IsSafe(s[k])
  {
    HexIsCanonical(s[i + 2]);
    HexIsCanonical(s[i + 3]);
    HexIsCanonical(s[i + 4]);
    HexIsCanonical(s[i + 5]);
    SafeLetters();
    hide HexDigit, IsSafe;
    var a, b := HexValue(s[i + 2]).value, HexValue(s[i + 3]).value;
    var c, d := HexValue(s[i + 4]).value, HexValue(s[i + 5]).value;
    hide HexValue;
    DigitsOf(a, b, c, d);
    forall k | i <= k < i + 6 ensures IsSafe(s[k]) {
      assert k == i || k == i + 1 || k == i + 2 || k == i + 3 || k == i + 4 || k == i + 5;
    }
  }

  lemma PairRoundTrip(c: char)
    requires c as int >= 0x1_0000
    ensures IsHigh(Utf16(c)[0]) && IsLow(Utf16(c)[1]) && Paired(Utf16(c)[0], Utf16(c)[1]) == c
  {}

  lemma PairIsCanonical(high: nat, low: nat)
    requires IsHigh(high) && IsLow(low)
    ensures Utf16(Paired(high, low)) == [high, low] && !IsSafe(Paired(high, low))
  {}

  lemma EscapeOfUnits(c: char)
    requires !IsSafe(c)
    ensures |Utf16(c)| == 1 ==> Escape(c) == EscapeUnit(Utf16(c)[0])
    ensures |Utf16(c)| == 2 ==> Escape(c) == EscapeUnit(Utf16(c)[0]) + EscapeUnit(Utf16(c)[1])
  {
    hide EscapeUnit, IsSafe, Utf16;
    var units := Utf16(c);
    assert EscapeUnits([]) == "";
    assert units[..1] == [units[0]] && [units[0]][..0] == [];
    assert EscapeUnits([units[0]]) == "" + EscapeUnit(units[0]) == EscapeUnit(units[0]);
    if |units| == 2 {
      assert EscapeUnits(units) == EscapeUnits(units[..1]) + EscapeUnit(units[1]);
    } else {
      assert units == [units[0]];
    }
  }

  /** An escaped character is read back, whatever follows. */
  lemma EscapeReadsBack(c: char, rest: string)
    requires !IsSafe(c)
    ensures EscapeAt(Escape(c) + rest, 0) == Some((c, |Escape(c)|))
    ensures forall i :: 0 <= i < |Escape(c)| ==> IsSafe(Escape(c)[i])
  {
    hide EscapeUnit, UnitAt, Paired, Escape;
    EscapeOfUnits(c);
    var units := Utf16(c);
    if |units| == 1 {
      UnitRoundTrip(units[0], rest);
    } else {
      PairRoundTrip(c);
      hide IsSafe, Utf16;
      var first, second := EscapeUnit(units[0]), EscapeUnit(units[1]);
      UnitRoundTrip(units[0], second + rest);
      UnitRoundTrip(units[1], rest);
      assert Escape(c) + rest == first + (second + rest);
      UnitShift(first, second + rest);
    }
  }

  lemma UnitShift(a: string, b: string)
    ensures UnitAt(a + b, |a|) == UnitAt(b, 0)
  {
    hide HexValue;
    if |b| >= 6 {
      var t := a + b;
      assert t[|a|] == b[0] && t[|a| + 1] == b[1] && t[|a| + 2] == b[2] && t[|a| + 3] == b[3]
          && t[|a| + 4] == b[4] && t[|a| + 5] == b[5];
    }
  }

  /** What is read as an escape is the escape of the character it stands for. */
  lemma EscapeIsCanonical(s: string)
    requires EscapeAt(s, 0).Some?
    ensures var (c, n) := EscapeAt(s, 0).value; !IsSafe(c) && s[..n] == Escape(c)
    ensures forall k :: 0 <= k < EscapeAt(s, 0).value.1 ==> IsSafe(s[k])
  {
    var u := UnitAt(s, 0).value;
    UnitIsCanonical(s, 0);
    if IsHigh(u) {
      var low := UnitAt(s, 6).value;
      UnitIsCanonical(s, 6);
      PairIsCanonical(u, low);
      EscapeOfUnits(Paired(u, low));
      hide EscapeUnit, UnitAt, Paired, IsSafe, Escape;
      assert s[..12] == s[0..6] + s[6..12];
    } else {
      EscapeOfUnits(u as char);
    }
  }

  // ---- Escaping and escapes that were there before ----

  lemma {:induction false} SafeConcat(a: string, b: string)
    ensures Safe(a + b) == Safe(a) + Safe(b)
  {
    hide Escape;
    if a == "" {
      assert a + b == b;
    } else {
      assert (a + b)[0] == a[0] && (a + b)[1..] == a[1..] + b;
      SafeConcat(a[1..], b);
    }
  }

  lemma {:induction false} SafeKeepsSafe(s: string)
    requires forall k :: 0 <= k < |s| ==> IsSafe(s[k])
    ensures Safe(s) == s
  {
    if s == "" {
    } else {
      SafeKeepsSafe(s[1..]);
      assert Escape(s[0]) == [s[0]];
      hide IsSafe;
    }
  }

  /** Character `k` behind a safe front is itself or starts an escape. */
  lemma {:induction false} SafeAt(s: string, k: nat)
    requires k < |s| && forall i :: 0 <= i < k ==> IsSafe(s[i])
    ensures k < |Safe(s)| && Safe(s)[k] == if IsSafe(s[k]) then s[k] else '_'
    decreases k
  {
    assert Safe(s) == Escape(s[0]) + Safe(s[1..]);
    if k == 0 {
      if !IsSafe(s[0]) { EscapeOfUnits(s[0]); }
    } else {
      SafeAt(s[1..], k - 1);
      assert Escape(s[0]) == [s[0]];
    }
  }

  /** If escaping spells a unit behind a safe first character, the unit was there before. */
  lemma UnitWasThere(s: string)
    requires s != "" && IsSafe(s[0]) && UnitAt(Safe(s), 0).Some?
    ensures UnitAt(s, 0) == UnitAt(Safe(s), 0)
  {
    hide Safe, IsSafe, HexValue;
    var t := Safe(s);
    SafePrefix(s, 1);
    SafePrefix(s, 2);
    SafePrefix(s, 3);
    SafePrefix(s, 4);
    SafePrefix(s, 5);
  }

  lemma SafePrefix(s: string, n: nat)
    requires 1 <= n <= 5 && n <= |s| && (forall k :: 0 <= k < n ==> IsSafe(s[k]))
    requires UnitAt(Safe(s), 0).Some?
    ensures n < |s| && IsSafe(s[n]) && forall k :: 0 <= k <= n ==> s[k] == Safe(s)[k]
  {
    forall k | 0 <= k < n ensures s[k] == Safe(s)[k] { SafeAt(s, k); }
    if n == |s| {
      SafeKeepsSafe(s);
      assert false;
    }
    SafeAt(s, n);
    assert HexValue('_').None?;
  }

  /** The front of a name that spells a unit is left alone by escaping. */
  lemma UnitStays(s: string)
    requires UnitAt(s, 0).Some?
    ensures Safe(s) == s[..6] + Safe(s[6..]) && UnitAt(Safe(s), 0) == UnitAt(s, 0)
  {
    hide Safe, IsSafe, HexValue, EscapeUnit;
    UnitIsCanonical(s, 0);
    assert s == s[..6] + s[6..];
    SafeConcat(s[..6], s[6..]);
    SafeKeepsSafe(s[..6]);
  }

  /** The first unit of escaped text is a low surrogate only if the text spelled it. */
  lemma LowWasThere(s: string)
    requires UnitAt(Safe(s), 0).Some? && IsLow(UnitAt(Safe(s), 0).value)
    ensures UnitAt(s, 0) == UnitAt(Safe(s), 0)
  {
    if s == "" {
    } else if IsSafe(s[0]) {
      UnitWasThere(s);
    } else {
      FirstUnitOfEscape(s[0], Safe(s[1..]));
    }
  }

  /** The escape of a character never starts with a low surrogate. */
  lemma FirstUnitOfEscape(c: char, rest: string)
    requires !IsSafe(c)
    ensures UnitAt(Escape(c) + rest, 0).Some? && !IsLow(UnitAt(Escape(c) + rest, 0).value)
  {
    hide UnitAt, EscapeUnit, Escape, IsSafe;
    EscapeOfUnits(c);
    var units := Utf16(c);
    var tail := if |units| == 1 then rest else EscapeUnit(units[1]) + rest;
    UnitRoundTrip(units[0], tail);
    if |units| == 2 { PairRoundTrip(c); }
    assert !IsLow(units[0]);
    hide IsLow, Utf16;
    assert Escape(c) + rest == EscapeUnit(units[0]) + tail;
  }

  /** An escape spelled in the name survives escaping. */
  lemma EscapeStays(s: string)
    requires EscapeAt(s, 0).Some?
    ensures EscapeAt(Safe(s), 0) == EscapeAt(s, 0)
    ensures var n := EscapeAt(s, 0).value.1; Safe(s) == s[..n] + Safe(s[n..])
  {
    hide Safe, IsSafe, UnitAt, HexValue, Escape, Paired;
    EscapeIsCanonical(s);
    var n := EscapeAt(s, 0).value.1;
    assert s == s[..n] + s[n..];
    SafeConcat(s[..n], s[n..]);
    SafeKeepsSafe(s[..n]);
    UnitStays(s);
    if n == 12 {
      UnitShift(s[..6], s[6..]);
      assert s == s[..6] + s[6..];
      UnitStays(s[6..]);
      UnitShift(s[..6], Safe(s[6..]));
    }
  }

  /** Escaping creates no escape behind a safe first character. */
  lemma NoNewEscape(s: string)
    requires s != "" && IsSafe(s[0]) && EscapeAt(s, 0).None?
    ensures EscapeAt(Safe(s), 0).None?
  {
    hide Safe, IsSafe, UnitAt, HexValue, Paired;
    if EscapeAt(Safe(s), 0).Some? {
      UnitWasThere(s);
      UnitStays(s);
      var u := UnitAt(s, 0).value;
      if IsHigh(u) {
        assert Safe(s) == s[..6] + Safe(s[6..]) && s == s[..6] + s[6..];
        UnitShift(s[..6], Safe(s[6..]));
        UnitShift(s[..6], s[6..]);
        LowWasThere(s[6..]);
      }
    }
  }

  // ---- The main results ----

  /** Reading back escaped text is reading back the text. */
  lemma {:induction false} UnescapedSafe(s: string)
    ensures Unescaped(Safe(s)) == Unescaped(s)
    decreases |s|
  {
    hide EscapeAt, Escape, IsSafe;
    if s == "" {
    } else {
      var t := Safe(s);
      if EscapeAt(s, 0).Some? {
        var (c, n) := EscapeAt(s, 0).value;
        EscapeStays(s);
        assert t[n..] == Safe(s[n..]);
        UnescapedSafe(s[n..]);
      } else if IsSafe(s[0]) {
        NoNewEscape(s);
        FirstStays(s);
        UnescapedSafe(s[1..]);
      } else {
        EscapeReadsBack(s[0], Safe(s[1..]));
        assert t[|Escape(s[0])|..] == Safe(s[1..]);
        UnescapedSafe(s[1..]);
      }
    }
  }

  lemma FirstStays(s: string)
    requires s != "" && IsSafe(s[0])
    ensures Safe(s) != "" && Safe(s)[0] == s[0] && Safe(s)[1..] == Safe(s[1..])
  {}

  /** Decoding the escapes of a name does not change its Java name. */
  lemma {:induction false} SafeUnescaped(s: string)
    ensures Safe(Unescaped(s)) == Safe(s)
    decreases |s|
  {
    hide EscapeAt, Escape;
    if s == "" {
    } else {
      if EscapeAt(s, 0).Some? {
        var (c, n) := EscapeAt(s, 0).value;
        EscapeIsCanonical(s);
        EscapeStays(s);
        SafeUnescaped(s[n..]);
        assert Unescaped(s) == [c] + Unescaped(s[n..]);
        assert ([c] + Unescaped(s[n..]))[1..] == Unescaped(s[n..]);
      } else {
        SafeUnescaped(s[1..]);
        assert Unescaped(s) == [s[0]] + Unescaped(s[1..]);
        assert ([s[0]] + Unescaped(s[1..]))[1..] == Unescaped(s[1..]);
      }
    }
  }

  /** Two names share a Java spelling exactly when they differ only in spelled-out escapes. */
  lemma SafeCollidesIff(a: string, b: string)
    ensures Safe(a) == Safe(b) <==> Unescaped(a) == Unescaped(b)
  {
    UnescapedSafe(a);
    UnescapedSafe(b);
    SafeUnescaped(a);
    SafeUnescaped(b);
  }

  lemma {:induction false} UnescapedIsIdentityIff(s: string)
    ensures |Unescaped(s)| <= |s|
    ensures Unescaped(s) == s <==> EscapeFree(s)
    decreases |s|
  {
    hide EscapeAt;
    if s == "" {
    } else {
      if EscapeAt(s, 0).Some? {
        var (c, n) := EscapeAt(s, 0).value;
        UnescapedIsIdentityIff(s[n..]);
        EscapesAreLong(s);
      } else {
        UnescapedIsIdentityIff(s[1..]);
        EscapeFreeTail(s);
        assert s == [s[0]] + s[1..];
        assert Unescaped(s)[1..] == Unescaped(s[1..]);
      }
    }
  }

  lemma EscapesAreLong(s: string)
    requires EscapeAt(s, 0).Some?
    ensures EscapeAt(s, 0).value.1 >= 6
  {}

  lemma EscapeFreeTail(s: string)
    requires s != "" && EscapeAt(s, 0).None?
    ensures EscapeFree(s) <==> EscapeFree(s[1..])
  {
    forall i: nat | i < |s| - 1 ensures EscapeAt(s, i + 1).None? <==> EscapeAt(s[1..], i).None? {
      EscapeAtShift(s, i);
    }
    hide EscapeAt;
    if EscapeFree(s[1..]) {
      forall i: nat | i < |s| ensures EscapeAt(s, i).None? {
        if i > 0 {
          var j: nat := i - 1;
          assert EscapeAt(s[1..], j).None?;
          assert EscapeAt(s, j + 1).None?;
        }
      }
    }
  }

  lemma EscapeAtShift(s: string, i: nat)
    requires i + 1 < |s|
    ensures EscapeAt(s, i + 1).None? <==> EscapeAt(s[1..], i).None?
  {
    UnitAtTail(s, i);
    UnitAtTail(s, i + 6);
    hide UnitAt;
  }

  lemma UnitAtTail(s: string, i: nat)
    requires s != ""
    ensures UnitAt(s, i + 1) == UnitAt(s[1..], i)
  {}

  /** Reading back inverts escaping exactly for the names that spell no escape themselves. */
  lemma LeftInverseIff(name: string)
    ensures Unescaped(Safe(name)) == name <==> EscapeFree(name)
  {
    UnescapedSafe(name);
    UnescapedIsIdentityIff(name);
  }

  /** Distinct names that spell no escape never share a Java name. */
  lemma SafeIsInjectiveOnEscapeFree(a: string, b: string)
    requires EscapeFree(a) && EscapeFree(b) && Safe(a) == Safe(b)
    ensures a == b
  {
    LeftInverseIff(a);
    LeftInverseIff(b);
  }

  /** Every class of colliding names has one escape-free member, the decoded one. */
  lemma UnescapedIsEscapeFree(name: string)
    ensures EscapeFree(Unescaped(name)) && Safe(Unescaped(name)) == Safe(name)
  {
    SafeUnescaped(name);
    UnescapedSafe(name);
    UnescapedSafe(Unescaped(name));
    UnescapedIsIdentityIff(Unescaped(name));
  }

  lemma {:induction false} SafeIsSafe(name: string)
    ensures forall k :: 0 <= k < |Safe(name)| ==> IsSafe(Safe(name)[k])
  {
    if name == "" {
    } else {
      SafeIsSafe(name[1..]);
      if !IsSafe(name[0]) { EscapeReadsBack(name[0], ""); }
      hide IsSafe;
      assert Safe(name) == Escape(name[0]) + Safe(name[1..]);
    }
  }

  /** The result uses ASCII letters, digits and `_` only, and escaping it again changes nothing. */
  lemma SafeIsIdempotent(name: string)
    ensures forall k :: 0 <= k < |Safe(name)| ==> IsSafe(Safe(name)[k])
    ensures Safe(Safe(name)) == Safe(name)
  {
    SafeIsSafe(name);
    SafeKeepsSafe(Safe(name));
  }

  // ---- Exact-mode names ----

  datatype Kind = Function | Local | Global

  /** `function`, `local` and `global` in exact mode. */
  function JavaName(kind: Kind, name: string): string {
    (match kind case Function => "f_" case Local => "u_" case Global => "g_") + Safe(name)
  }

  /** Java names agree exactly for the same kind of entity and names equal up to escapes. */
  lemma JavaNamesCollideIff(kind: Kind, name: string, kind': Kind, name': string)
    ensures JavaName(kind, name) == JavaName(kind', name')
       <==> kind == kind' && Unescaped(name) == Unescaped(name')
  {
    SafeCollidesIff(name, name');
    hide Safe, Unescaped;
    var a, b := JavaName(kind, name), JavaName(kind', name');
    assert a[2..] == Safe(name) && b[2..] == Safe(name');
    assert kind != kind' ==> a[0] != b[0];
  }

  /** Every character is an ASCII letter, a digit or `_`. */
  predicate IsPlainWord(name: string) {
    forall k :: 0 <= k < |name| ==>
      'a' <= name[k] <= 'z' || 'A' <= name[k] <= 'Z' || '0' <= name[k] <= '9' || name[k] == '_'
  }

  lemma {:induction false} SafeNeverShortens(name: string)
    ensures |Safe(name)| >= |name|
    ensures (exists k :: 0 <= k < |name| && !IsSafe(name[k])) ==> |Safe(name)| > |name|
  {
    if name == "" {
    } else {
      SafeNeverShortens(name[1..]);
      if !IsSafe(name[0]) { EscapeReadsBack(name[0], ""); }
      hide IsSafe;
      assert forall k :: 1 <= k < |name| ==> name[k] == name[1..][k - 1];
    }
  }

  /** Escaping leaves exactly the plain words as they are. */
  lemma SafeIsIdentityIff(name: string)
    ensures Safe(name) == name <==> IsPlainWord(name)
  {
    SafeNeverShortens(name);
    if IsPlainWord(name) { SafeKeepsSafe(name); }
  }

  /** A plain word gets its kind's prefix and nothing else. */
  lemma PlainWordsArePrefixed(name: string)
    requires IsPlainWord(name)
    ensures JavaName(Function, name) == "f_" + name && JavaName(Local, name) == "u_" + name
    ensures JavaName(Global, name) == "g_" + name && InitFlag(name) == "g_init_" + name
  {
    SafeIsIdentityIff(name);
    hide Safe;
  }

  /** `class_name`. */
  function ClassName(name: string): string { "u_" + Safe(name) }

  /** The runtime takes the class name behind the first two characters: that is the name the class was
      declared with exactly when the name is a plain word. */
  lemma StrippedClassNameIff(name: string)
    ensures |ClassName(name)| >= 2 && (ClassName(name)[2..] == name <==> IsPlainWord(name))
  {
    SafeIsIdentityIff(name);
    hide Safe, IsPlainWord;
    assert ClassName(name)[2..] == Safe(name);
  }

  /** `global_init_flag`. */
  function InitFlag(name: string): string { "g_init_" + Safe(name) }

  /** The flag of a global shares the globals' prefix: it is the Java name of a global exactly when
      that global's name is `init_` and the name, up to escapes. */
  lemma InitFlagCollidesIff(kind: Kind, other: string, name: string)
    ensures JavaName(kind, other) == InitFlag(name)
       <==> kind == Global && Unescaped(other) == Unescaped("init_" + name)
  {
    FlagIsGlobalName(name);
    hide Safe, Unescaped, JavaName, InitFlag;
    JavaNamesCollideIff(kind, other, Global, "init_" + name);
  }

  lemma InitIsSafe()
    ensures Safe("init_") == "init_"
  {
    hide Safe;
    SafeKeepsSafe("init_");
  }

  lemma FlagIsGlobalName(name: string)
    ensures InitFlag(name) == JavaName(Global, "init_" + name)
  {
    hide Safe;
    SafeConcat("init_", name);
    InitIsSafe();
    assert "g_" + ("init_" + Safe(name)) == "g_init_" + Safe(name);
  }

  /** Two distinct names with one Java name: a letter and its escape spelled out. */
  lemma EscapeCollides(kind: Kind)
    ensures "\U{E9}" != "_u00E9" && JavaName(kind, "\U{E9}") == JavaName(kind, "_u00E9")
  {
    LetterEscape();
    hide Safe, JavaName;
    SafeKeepsSafe("_u00E9");
    SameSpelling(kind, "\U{E9}", "_u00E9");
  }

  lemma SameSpelling(kind: Kind, a: string, b: string)
    requires Safe(a) == Safe(b)
    ensures JavaName(kind, a) == JavaName(kind, b)
  {
    hide Safe;
  }

  lemma LetterEscape()
    ensures Safe("\U{E9}") == "_u00E9"
  {
    var c := '\U{E9}';
    EscapeOfUnits(c);
    assert Utf16(c) == [0xE9];
    assert EscapeUnit(0xE9) == "_u00E9";
    hide EscapeUnit, Utf16, Escape;
    assert [c][1..] == "" && Safe("") == "" && Safe([c]) == Escape(c) + Safe("");
  }
}
