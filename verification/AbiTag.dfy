/** The AOT ABI tag: a 64-bit FNV-1a hash of the sources that define the object/archive contract,
    `crates/backends/leek-backend-native/build.rs` (the hash is that of section 2 of
    draft-eastlake-fnv). */
module AbiTag {
  import opened ByteStrings

  const WORD := 0x1_0000_0000_0000_0000
  const OFFSET_BASIS := 0xcbf2_9ce4_8422_2325
  const PRIME := 0x0000_0100_0000_01b3
  /** PRIME * PRIME_INVERSE == 1 + INVERSE_QUOTIENT * WORD */
  const PRIME_INVERSE := 0xce96_5057_aff6_957b
  const INVERSE_QUOTIENT := 887_285_111_055

  type u64 = n: int | 0 <= n < WORD

  // ---- One step ----

  function Pow2(n: nat): nat { if n == 0 then 1 else 2 * Pow2(n - 1) }

  /** Exclusive or of the low `n` bits. */
  function Xor(n: nat, x: nat, y: nat): (r: nat)
    ensures r < Pow2(n)
  {
    if n == 0 then 0 else (if x % 2 == y % 2 then 0 else 1) + 2 * Xor(n - 1, x / 2, y / 2)
  }

  /** Bit `k` of a number. */
  function Bit(x: nat, k: nat): nat { if k == 0 then x % 2 else Bit(x / 2, k - 1) }

  /** A bit of the exclusive or is set exactly where the two numbers differ. */
  lemma {:induction false} XorSetsDifferences(n: nat, x: nat, y: nat, k: nat)
    requires k < n
    ensures Bit(Xor(n, x, y), k) == 1 <==> Bit(x, k) != Bit(y, k)
  {
    if k == 0 {
    } else {
      assert Xor(n, x, y) / 2 == Xor(n - 1, x / 2, y / 2);
      XorSetsDifferences(n - 1, x / 2, y / 2, k - 1);
    }
  }

  /** A number below 2^n is given by its bits. */
  lemma {:induction false} BitsDetermine(n: nat, x: nat, y: nat)
    requires x < Pow2(n) && y < Pow2(n) && forall k :: 0 <= k < n ==> Bit(x, k) == Bit(y, k)
    ensures x == y
  {
    if n == 0 {
    } else {
      assert Bit(x, 0) == Bit(y, 0);
      forall k | 0 <= k < n - 1 ensures Bit(x / 2, k) == Bit(y / 2, k) { assert Bit(x, k + 1) == Bit(y, k + 1); }
      BitsDetermine(n - 1, x / 2, y / 2);
    }
  }

  lemma WordIsPow2()
    ensures Pow2(64) == WORD
  {
    assert Pow2(4) == 16;
    Pow2Add(4, 4);
    Pow2Add(8, 8);
    Pow2Add(16, 16);
    Pow2Add(32, 32);
  }

  lemma {:induction false} Pow2Add(m: nat, n: nat)
    ensures Pow2(m + n) == Pow2(m) * Pow2(n)
  {
    if m == 0 {
    } else {
      Pow2Add(m - 1, n);
    }
  }

  /** `state ^ u64::from(b)`. */
  function XorByte(s: u64, b: byte): u64 {
    WordIsPow2();
    Xor(64, s, b as int)
  }

  function WrappingMul(s: u64): u64 { s * PRIME % WORD }

  function Step(s: u64, b: byte): u64 { WrappingMul(XorByte(s, b)) }

  /** The state before a step, from the state after it. */
  function Unstep(t: u64, b: byte): u64 { XorByte(t * PRIME_INVERSE % WORD, b) }

  function Hash(s: u64, bytes: Bytes): u64
    decreases |bytes|
  {
    if bytes == [] then s else Hash(Step(s, bytes[0]), bytes[1..])
  }

  lemma {:induction false} XorTwice(n: nat, x: nat, y: nat)
    requires x < Pow2(n)
    ensures Xor(n, Xor(n, x, y), y) == x
  {
    if n == 0 {
    } else {
      XorTwice(n - 1, x / 2, y / 2);
      XorSplits(n, x, y);
      XorSplits(n, Xor(n, x, y), y);
      hide Xor, Pow2;
    }
  }

  /** The lowest bit and the others. */
  lemma XorSplits(n: nat, x: nat, y: nat)
    requires n > 0
    ensures Xor(n, x, y) % 2 == (if x % 2 == y % 2 then 0 else 1) && Xor(n, x, y) / 2 == Xor(n - 1, x / 2, y / 2)
  {}

  lemma {:induction false} XorCancels(n: nat, x: nat, y: nat, z: nat)
    requires y < Pow2(n) && z < Pow2(n) && Xor(n, x, y) == Xor(n, x, z)
    ensures y == z
  {
    if n == 0 {
    } else {
      XorCancels(n - 1, x / 2, y / 2, z / 2);
    }
  }

  lemma XorByteTwice(s: u64, b: byte)
    ensures XorByte(XorByte(s, b), b) == s
  {
    WordIsPow2();
    XorTwice(64, s, b as int);
    hide Xor;
  }

  /** Multiplication by the prime is undone by its inverse modulo 2^64, and the other way round. */
  lemma MulInverse(s: u64)
    ensures WrappingMul(s) * PRIME_INVERSE % WORD == s
    ensures (s * PRIME_INVERSE % WORD) * PRIME % WORD == s
  {
    var q, r := s * PRIME / WORD, s * PRIME % WORD;
    assert r * PRIME_INVERSE == s + WORD * (s * INVERSE_QUOTIENT - q * PRIME_INVERSE);
    ModOf(s, s * INVERSE_QUOTIENT - q * PRIME_INVERSE);
    var q', r' := s * PRIME_INVERSE / WORD, s * PRIME_INVERSE % WORD;
    assert r' * PRIME == s + WORD * (s * INVERSE_QUOTIENT - q' * PRIME);
    ModOf(s, s * INVERSE_QUOTIENT - q' * PRIME);
  }

  lemma ModOf(s: u64, k: int)
    ensures (s + WORD * k) % WORD == s
  {}

  /** Every step is a bijection of the state. */
  lemma StepIsBijective(s: u64, b: byte)
    ensures Unstep(Step(s, b), b) == s
    ensures Step(Unstep(s, b), b) == s
  {
    MulInverse(XorByte(s, b));
    MulInverse(s);
    XorByteTwice(s, b);
    XorByteTwice(s * PRIME_INVERSE % WORD, b);
    hide XorByte;
  }

  /** A step distinguishes any two bytes. */
  lemma StepIsInjectiveInByte(s: u64, b: byte, c: byte)
    requires Step(s, b) == Step(s, c)
    ensures b == c
  {
    MulInverse(XorByte(s, b));
    MulInverse(XorByte(s, c));
    hide WrappingMul;
    hide Xor;
    WordIsPow2();
    XorCancels(64, s, b as int, c as int);
  }

  // ---- Whole streams ----

  lemma {:induction false} HashConcat(s: u64, a: Bytes, b: Bytes)
    ensures Hash(s, a + b) == Hash(Hash(s, a), b)
    decreases |a|
  {
    hide Step;
    if a == [] {
      assert a + b == b;
    } else {
      assert (a + b)[0] == a[0] && (a + b)[1..] == a[1..] + b;
      HashConcat(Step(s, a[0]), a[1..], b);
    }
  }

  lemma {:induction false} HashIsInjectiveInState(s: u64, t: u64, bytes: Bytes)
    requires Hash(s, bytes) == Hash(t, bytes)
    ensures s == t
    decreases |bytes|
  {
    hide Step, Unstep;
    if bytes == [] {
    } else {
      HashIsInjectiveInState(Step(s, bytes[0]), Step(t, bytes[0]), bytes[1..]);
      StepIsBijective(s, bytes[0]);
      StepIsBijective(t, bytes[0]);
    }
  }

  /** Replacing one byte anywhere changes the hash. */
  lemma OneByteChangesHash(s: u64, before: Bytes, b: byte, c: byte, after: Bytes)
    requires Hash(s, before + [b] + after) == Hash(s, before + [c] + after)
    ensures b == c
  {
    hide Step;
    HashConcat(s, before + [b], after);
    HashConcat(s, before + [c], after);
    HashIsInjectiveInState(Hash(s, before + [b]), Hash(s, before + [c]), after);
    HashConcat(s, before, [b]);
    HashConcat(s, before, [c]);
    var m := Hash(s, before);
    assert [b][1..] == [] && [c][1..] == [];
    assert Hash(m, [b]) == Step(m, b) && Hash(m, [c]) == Step(m, c);
    StepIsInjectiveInByte(m, b, c);
  }

  /** Bytes that are zero from some bit on leave the higher bits alone. */
  lemma {:induction false} XorZero(n: nat, x: nat)
    requires x < Pow2(n)
    ensures Xor(n, x, 0) == x
  {
    if n == 0 {
    } else {
      XorZero(n - 1, x / 2);
    }
  }

  /** The published test vector of the hash: its value on the one byte `a`. */
  lemma HashOfA()
    ensures Hash(OFFSET_BASIS, [0x61]) == 0xaf63_dc4c_8601_ec8c
  {
    var x := OFFSET_BASIS;
    LowBitsOfA(x);
    hide XorByte;
    var one: Bytes := [0x61];
    assert one[1..] == [];
    assert Hash(Step(x, 0x61), one[1..]) == Step(x, 0x61);
  }

  lemma LowBitsOfA(x: u64)
    requires x == OFFSET_BASIS
    ensures XorByte(x, 0x61) == 0xcbf2_9ce4_8422_2344
  {
    WordIsPow2();
    var high := x / 128;
    assert Pow2(57) == WORD / 128 by { Pow2Add(57, 7); assert Pow2(7) == 128; }
    XorZero(57, high);
    assert Xor(58, x / 64, 1) == 1 + 2 * Xor(57, high, 0);
    assert Xor(59, x / 32, 3) == 2 * Xor(58, x / 64, 1);
    assert Xor(60, x / 16, 6) == 2 * Xor(59, x / 32, 3);
    assert Xor(61, x / 8, 12) == 2 * Xor(60, x / 16, 6);
    assert Xor(62, x / 4, 24) == 1 + 2 * Xor(61, x / 8, 12);
    assert Xor(63, x / 2, 48) == 2 * Xor(62, x / 4, 24);
  }

  /** The hasher object of the build script. */
  class Fnv {
    var state: u64

    constructor ()
      ensures state == OFFSET_BASIS
    {
      state := OFFSET_BASIS;
    }

    method Write(bytes: Bytes)
      modifies this
      ensures state == Hash(old(state), bytes)
    {
      hide Step;
      assert bytes[0..] == bytes;
      for i := 0 to |bytes|
        invariant Hash(state, bytes[i..]) == Hash(old(state), bytes)
      {
        assert bytes[i..][1..] == bytes[i + 1..];
        state := Step(state, bytes[i]);
      }
      assert bytes[|bytes|..] == [];
    }
  }

  // ---- The tag ----

  /** One hashed file: its relative path and its bytes. */
  datatype Source = Source(path: Bytes, content: Bytes)

  function FileStream(sources: seq<Source>): Bytes {
    if sources == [] then [] else sources[0].path + sources[0].content + FileStream(sources[1..])
  }

  /** Everything the hash is fed, in order. */
  function Stream(version: Bytes, sources: seq<Source>): Bytes { version + FileStream(sources) }

  function LowerHexDigit(d: int): char
    requires 0 <= d < 16
  {
    if d < 10 then '0' + d as char else 'a' + (d - 10) as char
  }

  /** `{:0nx}`: the low `n` lower-case hexadecimal digits. */
  function Hex(n: nat, x: nat): string {
    if n == 0 then "" else Hex(n - 1, x / 16) + [LowerHexDigit(x % 16)]
  }

  function Pow16(n: nat): nat { if n == 0 then 1 else 16 * Pow16(n - 1) }

  function Tag(version: Bytes, sources: seq<Source>): string {
    Hex(16, Hash(OFFSET_BASIS, Stream(version, sources)))
  }

  /** The build script's computation: version, then path and content of each file. */
  method ComputeTag(version: Bytes, sources: seq<Source>) returns (tag: string)
    ensures tag == Tag(version, sources)
  {
    hide Hash;
    var hash := new Fnv();
    hash.Write(version);
    assert sources[0..] == sources;
    HashConcat(OFFSET_BASIS, version, FileStream(sources));
    for i := 0 to |sources|
      invariant Hash(hash.state, FileStream(sources[i..])) == Hash(OFFSET_BASIS, Stream(version, sources))
    {
      ghost var rest := FileStream(sources[i + 1..]);
      assert sources[i..][1..] == sources[i + 1..];
      HashConcat(hash.state, sources[i].path + sources[i].content, rest);
      HashConcat(hash.state, sources[i].path, sources[i].content);
      hash.Write(sources[i].path);
      hash.Write(sources[i].content);
    }
    assert sources[|sources|..] == [];
    EmptyHash(hash.state);
    tag := Hex(16, hash.state);
  }

  lemma EmptyHash(s: u64)
    ensures Hash(s, []) == s
  {}

  lemma {:induction false} HexIsInjective(n: nat, x: nat, y: nat)
    requires x < Pow16(n) && y < Pow16(n) && Hex(n, x) == Hex(n, y)
    ensures x == y
  {
    if n == 0 {
    } else {
      var a, b := Hex(n - 1, x / 16), Hex(n - 1, y / 16);
      HexLength(n - 1, x / 16);
      HexLength(n - 1, y / 16);
      assert a == (a + [LowerHexDigit(x % 16)])[..n - 1] && b == (b + [LowerHexDigit(y % 16)])[..n - 1];
      assert LowerHexDigit(x % 16) == (a + [LowerHexDigit(x % 16)])[n - 1] == LowerHexDigit(y % 16);
      HexIsInjective(n - 1, x / 16, y / 16);
    }
  }

  /** The number a string of lower-case hexadecimal digits spells. */
  function FromHex(s: string): int {
    if s == "" then 0
    else
      var c := s[|s| - 1];
      16 * FromHex(s[..|s| - 1]) + if c <= '9' then c as int - '0' as int else c as int - 'a' as int + 10
  }

  /** Reading the digits in base 16 gives the number. */
  lemma {:induction false} HexReadsBack(n: nat, x: nat)
    requires x < Pow16(n)
    ensures FromHex(Hex(n, x)) == x
  {
    if n == 0 {
    } else {
      HexReadsBack(n - 1, x / 16);
      var s := Hex(n, x);
      assert s[..|s| - 1] == Hex(n - 1, x / 16);
    }
  }

  lemma {:induction false} HexLength(n: nat, x: nat)
    ensures |Hex(n, x)| == n
  {
    if n == 0 {
    } else {
      HexLength(n - 1, x / 16);
    }
  }

  lemma SixteenDigits()
    ensures Pow16(16) == WORD
  {
    assert Pow16(4) == 65536;
    assert Pow16(8) == 65536 * 65536;
    assert Pow16(12) == 65536 * 65536 * 65536;
  }

  /** The tag read in base 16 is the hash. */
  lemma TagReadsBack(version: Bytes, sources: seq<Source>)
    ensures FromHex(Tag(version, sources)) == Hash(OFFSET_BASIS, Stream(version, sources))
  {
    hide Hash, Hex, FromHex;
    SixteenDigits();
    HexReadsBack(16, Hash(OFFSET_BASIS, Stream(version, sources)));
  }

  /** Equal tags mean equal hashes. */
  lemma TagsAgree(version: Bytes, sources: seq<Source>, version': Bytes, sources': seq<Source>)
    ensures Tag(version, sources) == Tag(version', sources')
       <==> Hash(OFFSET_BASIS, Stream(version, sources)) == Hash(OFFSET_BASIS, Stream(version', sources'))
  {
    hide Hash, Hex;
    SixteenDigits();
    var x, y := Hash(OFFSET_BASIS, Stream(version, sources)), Hash(OFFSET_BASIS, Stream(version', sources'));
    if Hex(16, x) == Hex(16, y) { HexIsInjective(16, x, y); }
  }

  lemma {:induction false} FileStreamConcat(a: seq<Source>, b: seq<Source>)
    ensures FileStream(a + b) == FileStream(a) + FileStream(b)
  {
    if a == [] {
      assert a + b == b;
    } else {
      assert (a + b)[0] == a[0] && (a + b)[1..] == a[1..] + b;
      FileStreamConcat(a[1..], b);
    }
  }

  /** Replacing any single byte of any hashed file changes the tag. */
  lemma OneByteOfAFileMovesTheTag(version: Bytes, sources: seq<Source>, f: nat, i: nat, b: byte)
    requires f < |sources| && i < |sources[f].content|
    requires Tag(version, sources)
          == Tag(version, sources[f := sources[f].(content := sources[f].content[i := b])])
    ensures b == sources[f].content[i]
  {
    hide Hash, Hex;
    var changed := sources[f := sources[f].(content := sources[f].content[i := b])];
    TagsAgree(version, sources, version, changed);
    var front, back := sources[..f], sources[f + 1..];
    var path, content := sources[f].path, sources[f].content;
    var before := version + FileStream(front) + path + content[..i];
    var after := content[i + 1..] + FileStream(back);
    StreamAround(version, sources, f, i);
    StreamAround(version, changed, f, i);
    assert changed[..f] == front && changed[f + 1..] == back;
    assert content[i := b][..i] == content[..i] && content[i := b][i + 1..] == content[i + 1..];
    OneByteChangesHash(OFFSET_BASIS, before, content[i], b, after);
  }

  lemma StreamAround(version: Bytes, sources: seq<Source>, f: nat, i: nat)
    requires f < |sources| && i < |sources[f].content|
    ensures Stream(version, sources)
         == (version + FileStream(sources[..f]) + sources[f].path + sources[f].content[..i]) + [sources[f].content[i]]
            + (sources[f].content[i + 1..] + FileStream(sources[f + 1..]))
  {
    var front, one, back := sources[..f], [sources[f]], sources[f + 1..];
    assert sources == front + (one + back);
    FileStreamConcat(front, one + back);
    FileStreamConcat(one, back);
    OneFile(sources[f]);
    hide FileStream;
    var content, path := sources[f].content, sources[f].path;
    Regroup(version, FileStream(front), path, content, i, FileStream(back));
  }

  lemma OneFile(f: Source)
    ensures FileStream([f]) == f.path + f.content
  {
    assert [f][1..] == [] && FileStream([]) == [];
    assert FileStream([f]) == f.path + f.content + [];
  }

  lemma Regroup(a: Bytes, b: Bytes, c: Bytes, d: Bytes, i: nat, e: Bytes)
    requires i < |d|
    ensures a + (b + (c + d + e)) == (a + b + c + d[..i]) + [d[i]] + (d[i + 1..] + e)
  {
    assert d == d[..i] + [d[i]] + d[i + 1..];
  }

  /** Replacing any single byte of the crate version changes the tag. */
  lemma OneByteOfTheVersionMovesTheTag(version: Bytes, sources: seq<Source>, i: nat, b: byte)
    requires i < |version| && Tag(version, sources) == Tag(version[i := b], sources)
    ensures b == version[i]
  {
    hide Hash, Hex, FileStream;
    TagsAgree(version, sources, version[i := b], sources);
    var after := version[i + 1..] + FileStream(sources);
    assert Stream(version, sources) == version[..i] + [version[i]] + after;
    assert Stream(version[i := b], sources) == version[..i] + [b] + after;
    OneByteChangesHash(OFFSET_BASIS, version[..i], version[i], b, after);
  }

  // ---- Moving text from one hashed file to another ----

  /** Two places for one text: behind `c` in the file at path `p`, or behind `v` in the later file
      at path `q`. What follows the places in their files is `u` and `d`; `mid` are the files between. */
  datatype Places = Places(front: seq<Source>, p: Bytes, c: Bytes, u: Bytes, mid: seq<Source>,
                           q: Bytes, v: Bytes, d: Bytes, back: seq<Source>)

  /** The files with `m` at the earlier place. */
  function Early(w: Places, m: Bytes): seq<Source> {
    w.front + ([Source(w.p, w.c + m + w.u)] + (w.mid + ([Source(w.q, w.v + w.d)] + w.back)))
  }

  /** The files with `m` at the later place. */
  function Late(w: Places, m: Bytes): seq<Source> {
    w.front + ([Source(w.p, w.c + w.u)] + (w.mid + ([Source(w.q, w.v + m + w.d)] + w.back)))
  }

  /** What is hashed in front of the earlier place. */
  function Before(version: Bytes, w: Places): Bytes { version + FileStream(w.front) + w.p + w.c }

  /** What is hashed between the two places. */
  function Between(w: Places): Bytes { w.u + FileStream(w.mid) + w.q + w.v }

  /** What is hashed behind the later place. */
  function Behind(w: Places): Bytes { w.d + FileStream(w.back) }

  lemma PlacedStreams(version: Bytes, w: Places, m: Bytes)
    ensures Stream(version, Early(w, m)) == Before(version, w) + (m + Between(w)) + Behind(w)
    ensures Stream(version, Late(w, m)) == Before(version, w) + (Between(w) + m) + Behind(w)
  {
    TwoInside(w.front, Source(w.p, w.c + m + w.u), w.mid, Source(w.q, w.v + w.d), w.back);
    TwoInside(w.front, Source(w.p, w.c + w.u), w.mid, Source(w.q, w.v + m + w.d), w.back);
    Pieces(version, FileStream(w.front), w, m, FileStream(w.mid), FileStream(w.back));
    hide FileStream;
  }

  lemma TwoInside(front: seq<Source>, f: Source, mid: seq<Source>, g: Source, back: seq<Source>)
    ensures FileStream(front + ([f] + (mid + ([g] + back))))
         == FileStream(front) + (f.path + f.content + (FileStream(mid) + (g.path + g.content + FileStream(back))))
  {
    hide FileStream;
    FileStreamConcat(front, [f] + (mid + ([g] + back)));
    FileStreamConcat([f], mid + ([g] + back));
    FileStreamConcat(mid, [g] + back);
    FileStreamConcat([g], back);
    OneFile(f);
    OneFile(g);
  }

  lemma Pieces(a: Bytes, x: Bytes, w: Places, m: Bytes, y: Bytes, z: Bytes)
    ensures a + (x + (w.p + (w.c + m + w.u) + (y + (w.q + (w.v + w.d) + z))))
         == (a + x + w.p + w.c) + (m + (w.u + y + w.q + w.v)) + (w.d + z)
    ensures a + (x + (w.p + (w.c + w.u) + (y + (w.q + (w.v + m + w.d) + z))))
         == (a + x + w.p + w.c) + ((w.u + y + w.q + w.v) + m) + (w.d + z)
  {}

  /** A move between the two places, either way, leaves the hashed bytes alone exactly when the
      text commutes with everything hashed between the places. */
  lemma MovedTextKeepsStreamIff(version: Bytes, w: Places, m: Bytes)
    ensures Stream(version, Early(w, m)) == Stream(version, Late(w, m)) <==> m + Between(w) == Between(w) + m
  {
    PlacedStreams(version, w, m);
    hide Stream, Early, Late, Between, Before, Behind;
    SliceOut(Before(version, w), m + Between(w), Between(w) + m, Behind(w));
  }

  lemma SliceOut(a: Bytes, x: Bytes, y: Bytes, b: Bytes)
    requires |x| == |y|
    ensures a + x + b == a + y + b <==> x == y
  {
    assert (a + x + b)[|a|..|a| + |x|] == x && (a + y + b)[|a|..|a| + |x|] == y;
  }

  /** It leaves the tag alone exactly when the hash does not tell the two orders apart, in the
      state it has reached there: when they are the same bytes, or collide. */
  lemma MovedTextKeepsTagIff(version: Bytes, w: Places, m: Bytes)
    ensures var s := Hash(OFFSET_BASIS, Before(version, w));
            Tag(version, Early(w, m)) == Tag(version, Late(w, m))
            <==> Hash(s, m + Between(w)) == Hash(s, Between(w) + m)
  {
    hide Hash, Stream, Tag, Early, Late, Between, Before, Behind;
    TagsAgree(version, Early(w, m), version, Late(w, m));
    PlacedStreams(version, w, m);
    var s, x, y := Hash(OFFSET_BASIS, Before(version, w)), m + Between(w), Between(w) + m;
    HashThree(OFFSET_BASIS, Before(version, w), x, Behind(w));
    HashThree(OFFSET_BASIS, Before(version, w), y, Behind(w));
    if Hash(Hash(s, x), Behind(w)) == Hash(Hash(s, y), Behind(w)) {
      HashIsInjectiveInState(Hash(s, x), Hash(s, y), Behind(w));
    }
  }

  lemma HashThree(s: u64, a: Bytes, b: Bytes, c: Bytes)
    ensures Hash(s, a + b + c) == Hash(Hash(Hash(s, a), b), c)
  {
    HashConcat(s, a + b, c);
    HashConcat(s, a, b);
  }

  /** From the front of a file to the end of the one before it: only the file's path lies between. */
  lemma FrontMoveKeepsTagIff(version: Bytes, w: Places, m: Bytes)
    requires w.u == [] && w.mid == [] && w.v == []
    ensures Stream(version, Early(w, m)) == Stream(version, Late(w, m)) <==> m + w.q == w.q + m
    ensures var s := Hash(OFFSET_BASIS, Before(version, w));
            Tag(version, Early(w, m)) == Tag(version, Late(w, m)) <==> Hash(s, m + w.q) == Hash(s, w.q + m)
  {
    assert Between(w) == w.q;
    hide Between, Stream, Tag, Hash, Early, Late, Before;
    MovedTextKeepsStreamIff(version, w, m);
    MovedTextKeepsTagIff(version, w, m);
  }

  /** Text that moves without moving the tag exists: the next file's own path, from its front. */
  lemma MovedPathKeepsTheTag(version: Bytes, p: Bytes, q: Bytes, c: Bytes, d: Bytes)
    ensures Tag(version, [Source(p, c), Source(q, q + d)]) == Tag(version, [Source(p, c + q), Source(q, d)])
  {
    TwoPlaces(p, c, q, [], d, q);
    hide Hash, Tag, Early, Late;
    var w := Places([], p, c, [], [], q, [], d, []);
    FrontMoveKeepsTagIff(version, w, q);
    assert [] + q + d == q + d && [] + d == d && c + q + [] == c + q && c + [] == c;
  }

  /** So does text that does not commute with the path: the path and what it is put behind. */
  lemma MovedMiddleKeepsTheTag(version: Bytes, p: Bytes, q: Bytes, c: Bytes, x: Bytes, d: Bytes)
    ensures Tag(version, [Source(p, c + (q + x)), Source(q, x + d)])
         == Tag(version, [Source(p, c), Source(q, x + (q + x) + d)])
  {
    var w := Places([], p, c, [], [], q, x, d, []);
    TwoPlaces(p, c, q, x, d, q + x);
    assert Between(w) == q + x by { assert FileStream([]) == []; }
    hide Hash, Tag, Early, Late, Between;
    MovedTextKeepsTagIff(version, w, q + x);
    assert c + (q + x) + [] == c + (q + x) && c + [] == c;
  }

  lemma TwoPlaces(p: Bytes, c: Bytes, q: Bytes, v: Bytes, d: Bytes, m: Bytes)
    ensures var w := Places([], p, c, [], [], q, v, d, []);
            && Early(w, m) == [Source(p, c + m + []), Source(q, v + d)]
            && Late(w, m) == [Source(p, c + []), Source(q, v + m + d)]
  {}
}
