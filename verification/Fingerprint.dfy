/** The canonical digest stream of a compilation configuration,
    `crates/core/leek-config/src/lib.rs`: what `hash_into` and `fingerprint` feed the hasher. */
module Fingerprint {
  import opened ByteStrings

  const END_OF_STR: byte := 0xFF

  /** UTF-8 text never contains the byte 0xFF. */
  type Utf8Byte = b: byte | b != END_OF_STR
  type Str = seq<Utf8Byte>

  // ---- The order `sort_unstable` uses on strings ----

  predicate Less(a: Str, b: Str) {
    b != [] && (a == [] || a[0] < b[0] || (a[0] == b[0] && Less(a[1..], b[1..])))
  }

  lemma {:induction false} LessIsStrict(a: Str, b: Str)
    ensures Less(a, b) ==> !Less(b, a) && a != b
    ensures Less(a, b) || a == b || Less(b, a)
    decreases |a|
  {
    if a != [] && b != [] && a[0] == b[0] {
      LessIsStrict(a[1..], b[1..]);
      assert a == [a[0]] + a[1..] && b == [b[0]] + b[1..];
    }
  }

  lemma {:induction false} LessIsTransitive(a: Str, b: Str, c: Str)
    requires Less(a, b) && Less(b, c)
    ensures Less(a, c)
    decreases |a|
  {
    if a != [] && a[0] == b[0] && b[0] == c[0] { LessIsTransitive(a[1..], b[1..], c[1..]); }
  }

  // ---- Tables: a name and the bytes hashed after it ----

  type Table = map<Str, Bytes>
  type Entry = (Str, Bytes)

  /** Some iteration order of a hash map. */
  ghost predicate Enumerates(xs: seq<Entry>, t: Table) {
    && |xs| == |t|
    && (forall i :: 0 <= i < |xs| ==> xs[i].0 in t && t[xs[i].0] == xs[i].1)
    && (forall k :: k in t ==> (k, t[k]) in xs)
    && (forall i, j :: 0 <= i < j < |xs| ==> xs[i].0 != xs[j].0)
  }

  ghost predicate Sorted(xs: seq<Entry>) {
    forall i, j :: 0 <= i < j < |xs| ==> Less(xs[i].0, xs[j].0)
  }

  function Insert(e: Entry, xs: seq<Entry>): seq<Entry> {
    if xs == [] || Less(e.0, xs[0].0) then [e] + xs else [xs[0]] + Insert(e, xs[1..])
  }

  function Sort(xs: seq<Entry>): seq<Entry> {
    if xs == [] then [] else Insert(xs[0], Sort(xs[1..]))
  }

  lemma {:induction false} InsertSorts(e: Entry, xs: seq<Entry>)
    requires Sorted(xs) && forall i :: 0 <= i < |xs| ==> xs[i].0 != e.0
    ensures Sorted(Insert(e, xs)) && |Insert(e, xs)| == |xs| + 1
    ensures forall x :: x in Insert(e, xs) <==> x == e || x in xs
  {
    if xs != [] && !Less(e.0, xs[0].0) {
      var rest := xs[1..];
      InsertSorts(e, rest);
      LessIsStrict(e.0, xs[0].0);
      var ins := Insert(e, rest);
      forall i | 0 <= i < |ins| ensures Less(xs[0].0, ins[i].0) {
        assert ins[i] in ins;
        if ins[i] != e { var j :| 0 <= j < |rest| && rest[j] == ins[i]; assert xs[j + 1] == ins[i]; }
      }
      assert xs == [xs[0]] + rest;
    } else if xs != [] {
      forall i | 0 <= i < |xs| ensures Less(e.0, xs[i].0) {
        if i > 0 { LessIsTransitive(e.0, xs[0].0, xs[i].0); }
      }
    }
  }

  lemma {:induction false} SortSorts(xs: seq<Entry>)
    requires forall i, j :: 0 <= i < j < |xs| ==> xs[i].0 != xs[j].0
    ensures Sorted(Sort(xs)) && |Sort(xs)| == |xs|
    ensures forall x :: x in Sort(xs) <==> x in xs
  {
    if xs == [] {
    } else {
      var rest := xs[1..];
      SortSorts(rest);
      forall i | 0 <= i < |Sort(rest)| ensures Sort(rest)[i].0 != xs[0].0 {
        assert Sort(rest)[i] in rest;
        var j :| 0 <= j < |rest| && rest[j] == Sort(rest)[i];
        assert xs[j + 1] == rest[j];
      }
      InsertSorts(xs[0], Sort(rest));
      assert xs == [xs[0]] + rest;
    }
  }

  /** A sorted list is determined by its elements. */
  lemma {:induction false} SortedIsUnique(xs: seq<Entry>, ys: seq<Entry>)
    requires Sorted(xs) && Sorted(ys) && |xs| == |ys| && forall x :: x in xs <==> x in ys
    ensures xs == ys
    decreases |xs|
  {
    if xs == [] {
    } else {
      assert xs[0] in ys && ys[0] in xs;
      var i :| 0 <= i < |ys| && ys[i] == xs[0];
      var j :| 0 <= j < |xs| && xs[j] == ys[0];
      LessIsStrict(xs[0].0, ys[0].0);
      assert xs[0] == ys[0];
      var xt, yt := xs[1..], ys[1..];
      forall x ensures x in xt <==> x in yt { TailElements(xs, x); TailElements(ys, x); }
      SortedIsUnique(xt, yt);
      assert xs == [xs[0]] + xt && ys == [ys[0]] + yt;
    }
  }

  lemma TailElements(xs: seq<Entry>, x: Entry)
    requires Sorted(xs) && xs != []
    ensures x in xs[1..] <==> x in xs && x != xs[0]
  {
    LessIsStrict(xs[0].0, xs[0].0);
    if x in xs[1..] {
      var i :| 0 <= i < |xs[1..]| && xs[1..][i] == x;
      assert xs[i + 1] == x;
    }
  }

  // ---- The bytes the hasher is fed ----

  /** `str::hash`: the bytes, then a terminator. */
  function StrStream(s: Str): Bytes { s + [END_OF_STR] }

  /** The eight little-endian bytes of a `usize` length prefix. */
  function LengthPrefix(n: nat): Bytes { LittleEndian(8, n) }

  function LittleEndian(k: nat, n: nat): Bytes {
    if k == 0 then [] else [(n % 256) as byte] + LittleEndian(k - 1, n / 256)
  }

  function Pow256(k: nat): nat { if k == 0 then 1 else 256 * Pow256(k - 1) }

  /** Lengths are `usize` values. */
  ghost predicate IsLength(n: nat) { n < Pow256(8) }

  function EntryStream(xs: seq<Entry>): Bytes {
    if xs == [] then [] else StrStream(xs[0].0) + xs[0].1 + EntryStream(xs[1..])
  }

  /** A slice: its length, then its elements. */
  function SliceStream(xs: seq<Entry>): Bytes { LengthPrefix(|xs|) + EntryStream(xs) }

  /** `Vec<String>`: a slice of strings with nothing after each. */
  function Bare(ss: seq<Str>): seq<Entry> { seq(|ss|, i requires 0 <= i < |ss| => (ss[i], [])) }

  function SymbolsStream(ss: seq<Str>): Bytes { SliceStream(Bare(ss)) }

  // ---- Nothing runs together ----

  lemma {:induction false} StrEnds(a: Str, b: Str, x: Bytes, y: Bytes)
    requires StrStream(a) + x == StrStream(b) + y
    ensures a == b && x == y
    decreases |a|
  {
    var s, t := StrStream(a) + x, StrStream(b) + y;
    assert s[0] == t[0];
    if a == [] {
      assert s[0] == END_OF_STR;
      assert b == [];
      assert s[1..] == x && t[1..] == y;
    } else {
      assert s[0] == a[0];
      assert b != [];
      assert s[1..] == StrStream(a[1..]) + x && t[1..] == StrStream(b[1..]) + y;
      StrEnds(a[1..], b[1..], x, y);
      assert a == [a[0]] + a[1..] && b == [b[0]] + b[1..];
    }
  }

  lemma {:induction false} LengthEnds(k: nat, m: nat, n: nat, x: Bytes, y: Bytes)
    requires m < Pow256(k) && n < Pow256(k)
    requires LittleEndian(k, m) + x == LittleEndian(k, n) + y
    ensures m == n && x == y
  {
    if k == 0 {
      assert [] + x == x && [] + y == y;
    } else {
      var s, t := LittleEndian(k, m) + x, LittleEndian(k, n) + y;
      assert s[0] == (m % 256) as byte && t[0] == (n % 256) as byte;
      assert s[1..] == LittleEndian(k - 1, m / 256) + x && t[1..] == LittleEndian(k - 1, n / 256) + y;
      LengthEnds(k - 1, m / 256, n / 256, x, y);
    }
  }

  /** Payloads after which it is known where they end. */
  ghost predicate PrefixFree(ps: iset<Bytes>) {
    forall p, q, x: Bytes, y: Bytes :: p in ps && q in ps && p + x == q + y ==> p == q
  }

  ghost predicate PayloadsIn(xs: seq<Entry>, ps: iset<Bytes>) {
    forall i :: 0 <= i < |xs| ==> xs[i].1 in ps
  }

  lemma {:induction false} EntriesEnd(xs: seq<Entry>, ys: seq<Entry>, x: Bytes, y: Bytes, ps: iset<Bytes>)
    requires PrefixFree(ps) && PayloadsIn(xs, ps) && PayloadsIn(ys, ps) && |xs| == |ys|
    requires EntryStream(xs) + x == EntryStream(ys) + y
    ensures xs == ys && x == y
    decreases |xs|
  {
    if xs == [] {
      assert [] + x == x && [] + y == y;
    } else {
      var p, q := xs[0].1, ys[0].1;
      var u, v := EntryStream(xs[1..]) + x, EntryStream(ys[1..]) + y;
      EntrySplits(xs, x);
      EntrySplits(ys, y);
      hide StrStream, EntryStream;
      StrEnds(xs[0].0, ys[0].0, p + u, q + v);
      assert p == q;
      assert (p + u)[|p|..] == u && (q + v)[|q|..] == v;
      EntriesEnd(xs[1..], ys[1..], x, y, ps);
      assert xs == [xs[0]] + xs[1..] && ys == [ys[0]] + ys[1..];
    }
  }

  lemma EntrySplits(xs: seq<Entry>, x: Bytes)
    requires xs != []
    ensures EntryStream(xs) + x == StrStream(xs[0].0) + (xs[0].1 + (EntryStream(xs[1..]) + x))
  {
    hide StrStream;
  }

  lemma SliceEnds(xs: seq<Entry>, ys: seq<Entry>, x: Bytes, y: Bytes, ps: iset<Bytes>)
    requires PrefixFree(ps) && PayloadsIn(xs, ps) && PayloadsIn(ys, ps)
    requires IsLength(|xs|) && IsLength(|ys|)
    requires SliceStream(xs) + x == SliceStream(ys) + y
    ensures xs == ys && x == y
  {
    hide LittleEndian, EntryStream;
    var u, v := EntryStream(xs) + x, EntryStream(ys) + y;
    assert SliceStream(xs) + x == LengthPrefix(|xs|) + u && SliceStream(ys) + y == LengthPrefix(|ys|) + v;
    LengthEnds(8, |xs|, |ys|, u, v);
    EntriesEnd(xs, ys, x, y, ps);
  }

  // ---- The three payload shapes of a registry ----

  ghost function NoPayload(): iset<Bytes> { iset{[]} }

  ghost function ThreeBytes(): iset<Bytes> { iset p: Bytes | |p| == 3 }

  ghost function SymbolLists(): iset<Bytes> { iset ss: seq<Str> | IsLength(|ss|) :: SymbolsStream(ss) }

  lemma ThreeBytesArePrefixFree()
    ensures PrefixFree(ThreeBytes())
  {
    forall p, q, x: Bytes, y: Bytes | p in ThreeBytes() && q in ThreeBytes() && p + x == q + y ensures p == q {
      assert (p + x)[..3] == p && (q + y)[..3] == q;
    }
  }

  lemma NoPayloadIsPrefixFree()
    ensures PrefixFree(NoPayload())
  {}

  lemma SymbolListsArePrefixFree()
    ensures PrefixFree(SymbolLists())
  {
    forall p, q, x: Bytes, y: Bytes | p in SymbolLists() && q in SymbolLists() && p + x == q + y ensures p == q {
      var ss: seq<Str> :| IsLength(|ss|) && p == SymbolsStream(ss);
      var tt: seq<Str> :| IsLength(|tt|) && q == SymbolsStream(tt);
      SymbolsEnd(ss, tt, x, y);
    }
  }

  lemma SymbolsEnd(ss: seq<Str>, tt: seq<Str>, x: Bytes, y: Bytes)
    requires IsLength(|ss|) && IsLength(|tt|) && SymbolsStream(ss) + x == SymbolsStream(tt) + y
    ensures ss == tt && x == y
  {
    NoPayloadIsPrefixFree();
    hide SliceStream, PrefixFree, IsLength;
    SliceEnds(Bare(ss), Bare(tt), x, y, NoPayload());
    assert |ss| == |Bare(ss)| == |Bare(tt)| == |tt|;
    forall i | 0 <= i < |ss| ensures ss[i] == tt[i] { assert Bare(ss)[i] == Bare(tt)[i]; }
  }

  // ---- Registries and configurations ----

  type Meta = (byte, byte, byte)

  /** `DynamicBuiltins`. */
  datatype Builtins = Builtins(names: set<Str>, constants: set<Str>, functions: map<Str, Meta>,
                               libraries: map<Str, seq<Str>>)

  /** `CompilationConfig`; the two bit sets by their bits. */
  datatype Config = Config(libraries: byte, fold: byte, seedLibrary: bool, builtins: Builtins)

  function NameTable(names: set<Str>): Table { map s | s in names :: [] }

  function FunctionTable(functions: map<Str, Meta>): Table {
    map s | s in functions :: [functions[s].0, functions[s].1, functions[s].2]
  }

  function LibraryTable(libraries: map<Str, seq<Str>>): Table { map s | s in libraries :: SymbolsStream(libraries[s]) }

  /** Sizes fit a `usize`, as every length in memory does. */
  ghost predicate InMemory(b: Builtins) {
    && IsLength(|NameTable(b.names)|) && IsLength(|NameTable(b.constants)|)
    && IsLength(|FunctionTable(b.functions)|) && IsLength(|LibraryTable(b.libraries)|)
    && forall s :: s in b.libraries ==> IsLength(|b.libraries[s]|)
  }

  /** The iteration orders the four hash tables happen to have. */
  datatype Orders = Orders(names: seq<Entry>, constants: seq<Entry>, functions: seq<Entry>, libraries: seq<Entry>)

  ghost predicate OrdersOf(o: Orders, b: Builtins) {
    && Enumerates(o.names, NameTable(b.names)) && Enumerates(o.constants, NameTable(b.constants))
    && Enumerates(o.functions, FunctionTable(b.functions)) && Enumerates(o.libraries, LibraryTable(b.libraries))
  }

  function TableStream(xs: seq<Entry>): Bytes { SliceStream(Sort(xs)) }

  /** `hash_into`. */
  function BuiltinsStream(o: Orders): Bytes {
    TableStream(o.names) + (TableStream(o.constants) + (TableStream(o.functions) + TableStream(o.libraries)))
  }

  /** `CompilationConfig::fingerprint`. */
  function ConfigStream(c: Config, o: Orders): Bytes {
    [c.libraries, c.fold, if c.seedLibrary then 1 else 0] + BuiltinsStream(o)
  }

  /** Two enumerations sort alike exactly when they enumerate the same table. */
  lemma SortedOrdersAgreeIff(xs: seq<Entry>, t: Table, ys: seq<Entry>, u: Table)
    requires Enumerates(xs, t) && Enumerates(ys, u)
    ensures Sort(xs) == Sort(ys) <==> t == u
  {
    SortSorts(xs);
    SortSorts(ys);
    hide Sort;
    if t == u {
      forall x ensures x in Sort(xs) <==> x in Sort(ys) { assert x in xs <==> x in ys; }
      SortedIsUnique(Sort(xs), Sort(ys));
    }
    if Sort(xs) == Sort(ys) {
      forall k ensures k in t <==> k in u { assert k in t ==> (k, t[k]) in ys; assert k in u ==> (k, u[k]) in xs; }
      forall k | k in t ensures t[k] == u[k] { assert (k, t[k]) in ys; }
    }
  }

  ghost predicate TablePayloads(t: Table, ps: iset<Bytes>) { forall k :: k in t ==> t[k] in ps }

  /** Table streams end where they end, and agree exactly when the tables do. */
  lemma TableEnds(xs: seq<Entry>, t: Table, ys: seq<Entry>, u: Table, x: Bytes, y: Bytes, ps: iset<Bytes>)
    requires Enumerates(xs, t) && Enumerates(ys, u) && IsLength(|t|) && IsLength(|u|)
    requires PrefixFree(ps) && TablePayloads(t, ps) && TablePayloads(u, ps)
    requires TableStream(xs) + x == TableStream(ys) + y
    ensures t == u && x == y
  {
    hide Sort, SliceStream, PrefixFree, IsLength, Enumerates, TablePayloads, PayloadsIn;
    SortedOrdersAgreeIff(xs, t, ys, u);
    SortedPayloads(xs, t, ps);
    SortedPayloads(ys, u, ps);
    SliceEnds(Sort(xs), Sort(ys), x, y, ps);
  }

  lemma SortedPayloads(xs: seq<Entry>, t: Table, ps: iset<Bytes>)
    requires Enumerates(xs, t) && TablePayloads(t, ps)
    ensures PayloadsIn(Sort(xs), ps) && |Sort(xs)| == |t|
  {
    hide Sort, Sorted;
    SortSorts(xs);
    forall i | 0 <= i < |Sort(xs)| ensures Sort(xs)[i].1 in ps { assert Sort(xs)[i] in xs; }
  }

  lemma NameTableIsInjective(a: set<Str>, b: set<Str>)
    requires NameTable(a) == NameTable(b)
    ensures a == b
  {
    assert a == NameTable(a).Keys && b == NameTable(b).Keys;
  }

  lemma FunctionTableIsInjective(a: map<Str, Meta>, b: map<Str, Meta>)
    requires FunctionTable(a) == FunctionTable(b)
    ensures a == b
  {
    assert a.Keys == FunctionTable(a).Keys && b.Keys == FunctionTable(b).Keys;
    forall k | k in a ensures a[k] == b[k] {
      assert FunctionTable(a)[k] == FunctionTable(b)[k];
      assert [a[k].0, a[k].1, a[k].2][0] == b[k].0 && [a[k].0, a[k].1, a[k].2][1] == b[k].1
          && [a[k].0, a[k].1, a[k].2][2] == b[k].2;
    }
  }

  lemma LibraryTableIsInjective(a: map<Str, seq<Str>>, b: map<Str, seq<Str>>)
    requires (forall k :: k in a ==> IsLength(|a[k]|)) && (forall k :: k in b ==> IsLength(|b[k]|))
    requires LibraryTable(a) == LibraryTable(b)
    ensures a == b
  {
    hide SymbolsStream, IsLength;
    assert a.Keys == LibraryTable(a).Keys && b.Keys == LibraryTable(b).Keys;
    forall k | k in a ensures a[k] == b[k] {
      assert LibraryTable(a)[k] == LibraryTable(b)[k];
      assert SymbolsStream(a[k]) + [] == SymbolsStream(b[k]) + [];
      SymbolsEnd(a[k], b[k], [], []);
    }
  }

  lemma PayloadShapes(b: Builtins)
    requires InMemory(b)
    ensures TablePayloads(NameTable(b.names), NoPayload()) && TablePayloads(NameTable(b.constants), NoPayload())
    ensures TablePayloads(FunctionTable(b.functions), ThreeBytes())
    ensures TablePayloads(LibraryTable(b.libraries), SymbolLists())
  {
    hide SymbolsStream, IsLength;
  }

  /** The stream of a registry does not depend on any iteration order and identifies it: two
      registries feed the same bytes exactly when they are equal. */
  lemma BuiltinsStreamsAgreeIff(b: Builtins, o: Orders, c: Builtins, q: Orders)
    requires InMemory(b) && OrdersOf(o, b) && InMemory(c) && OrdersOf(q, c)
    ensures BuiltinsStream(o) == BuiltinsStream(q) <==> b == c
  {
    if BuiltinsStream(o) == BuiltinsStream(q) {
      StreamsIdentify(b, o, c, q);
    }
    if b == c {
      SortedOrdersAgreeIff(o.names, NameTable(b.names), q.names, NameTable(b.names));
      SortedOrdersAgreeIff(o.constants, NameTable(b.constants), q.constants, NameTable(b.constants));
      SortedOrdersAgreeIff(o.functions, FunctionTable(b.functions), q.functions, FunctionTable(b.functions));
      SortedOrdersAgreeIff(o.libraries, LibraryTable(b.libraries), q.libraries, LibraryTable(b.libraries));
      hide Sort, SliceStream, Enumerates, NameTable, FunctionTable, LibraryTable;
    }
  }

  lemma StreamsIdentify(b: Builtins, o: Orders, c: Builtins, q: Orders)
    requires InMemory(b) && OrdersOf(o, b) && InMemory(c) && OrdersOf(q, c)
    requires BuiltinsStream(o) == BuiltinsStream(q)
    ensures b == c
  {
    hide TableStream, Enumerates, PrefixFree, TablePayloads, IsLength, NameTable, FunctionTable, LibraryTable;
    PayloadShapes(b);
    PayloadShapes(c);
    NoPayloadIsPrefixFree();
    ThreeBytesArePrefixFree();
    SymbolListsArePrefixFree();
    var t3 := TableStream(o.functions) + TableStream(o.libraries);
    var u3 := TableStream(q.functions) + TableStream(q.libraries);
    var t2, u2 := TableStream(o.constants) + t3, TableStream(q.constants) + u3;
    TableEnds(o.names, NameTable(b.names), q.names, NameTable(c.names), t2, u2, NoPayload());
    TableEnds(o.constants, NameTable(b.constants), q.constants, NameTable(c.constants), t3, u3, NoPayload());
    TableEnds(o.functions, FunctionTable(b.functions), q.functions, FunctionTable(c.functions),
              TableStream(o.libraries), TableStream(q.libraries), ThreeBytes());
    assert TableStream(o.libraries) + [] == TableStream(q.libraries) + [];
    TableEnds(o.libraries, LibraryTable(b.libraries), q.libraries, LibraryTable(c.libraries), [], [], SymbolLists());
    NameTableIsInjective(b.names, c.names);
    NameTableIsInjective(b.constants, c.constants);
    FunctionTableIsInjective(b.functions, c.functions);
    LibraryTableIsInjective(b.libraries, c.libraries);
  }

  /** The same for whole configurations. */
  lemma ConfigStreamsAgreeIff(c: Config, o: Orders, d: Config, q: Orders)
    requires InMemory(c.builtins) && OrdersOf(o, c.builtins) && InMemory(d.builtins) && OrdersOf(q, d.builtins)
    ensures ConfigStream(c, o) == ConfigStream(d, q) <==> c == d
  {
    BuiltinsStreamsAgreeIff(c.builtins, o, d.builtins, q);
    hide BuiltinsStream, InMemory, OrdersOf;
    var s, t := ConfigStream(c, o), ConfigStream(d, q);
    assert s[..3] == [c.libraries, c.fold, if c.seedLibrary then 1 else 0] && s[3..] == BuiltinsStream(o);
    assert t[..3] == [d.libraries, d.fold, if d.seedLibrary then 1 else 0] && t[3..] == BuiltinsStream(q);
    if s == t {
      assert s[0] == t[0] && s[1] == t[1] && s[2] == t[2];
    }
  }

  // ---- The hasher as the object it is ----

  class Hasher {
    /** Everything fed so far. */
    var fed: Bytes

    constructor ()
      ensures fed == []
    {
      fed := [];
    }

    method Write(bytes: Bytes)
      modifies this
      ensures fed == old(fed) + bytes
    {
      fed := fed + bytes;
    }

    /** Hash one table: collect in whatever order, sort, then length and entries. */
    method HashSorted(xs: seq<Entry>)
      modifies this
      ensures fed == old(fed) + TableStream(xs)
    {
      hide Sort, LittleEndian;
      var sorted := Sort(xs);
      Write(LengthPrefix(|sorted|));
      assert sorted[0..] == sorted;
      for i := 0 to |sorted|
        invariant fed + EntryStream(sorted[i..]) == old(fed) + TableStream(xs)
      {
        assert sorted[i..][1..] == sorted[i + 1..];
        ghost var before, rest := fed, EntryStream(sorted[i + 1..]);
        Write(StrStream(sorted[i].0));
        Write(sorted[i].1);
        assert before + (StrStream(sorted[i].0) + sorted[i].1 + rest) == fed + rest;
      }
      assert sorted[|sorted|..] == [] && fed + [] == fed;
    }

    method HashInto(o: Orders)
      modifies this
      ensures fed == old(fed) + BuiltinsStream(o)
      ensures fed == old(fed) + TableStream(o.names) + TableStream(o.constants) + TableStream(o.functions)
                     + TableStream(o.libraries)
    {
      hide TableStream;
      HashSorted(o.names);
      HashSorted(o.constants);
      HashSorted(o.functions);
      HashSorted(o.libraries);
      assert old(fed) + TableStream(o.names) + TableStream(o.constants) + TableStream(o.functions)
           + TableStream(o.libraries)
          == old(fed) + BuiltinsStream(o);
    }
  }
}
