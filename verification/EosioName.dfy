/** Account names and their 64-bit keys. */
module EosioName {
  import opened Bits

  const CHARMAP: string := ".12345abcdefghijklmnopqrstuvwxyz"

  function CharToSymbol(c: char): (symbol: nat)
    ensures symbol < 32
  {
    if 'a' <= c <= 'z' then (c as int - 'a' as int) + 6
    else if '1' <= c <= '5' then (c as int - '1' as int) + 1
    else 0
  }

  // ---------------------------------------------------------------- symbols

  /** The 13 symbols of a name; what lies past its end counts as nothing, and the last one keeps four bits. */
  function SymbolAt(s: string, i: nat): (symbol: nat)
    ensures symbol < 32
  {
    if i < |s| then CharToSymbol(s[i]) else 0
  }

  function SymbolsOf(s: string): (ds: seq<nat>)
    ensures |ds| == 13 && ds[12] < 16 && forall i :: 0 <= i < 12 ==> ds[i] == SymbolAt(s, i)
    ensures forall i :: 0 <= i < 13 ==> ds[i] < 32
  {
    seq(13, i requires 0 <= i < 13 => if i < 12 then SymbolAt(s, i) else SymbolAt(s, 12) % 16)
  }

  /** Twelve five-bit symbols and a four-bit one, as one number. */
  function Value(ds: seq<nat>): nat {
    if ds == [] then 0 else Value(ds[..|ds| - 1]) * 32 + ds[|ds| - 1]
  }

  function KeyOf(ds: seq<nat>): nat
    requires |ds| == 13
  {
    Value(ds[..12]) * 16 + ds[12]
  }

  function Symbols(m: nat, count: nat): (ds: seq<nat>)
    ensures |ds| == count && forall i :: 0 <= i < count ==> ds[i] < 32
  {
    if count == 0 then [] else Symbols(m / 32, count - 1) + [m % 32]
  }

  function SymbolsOfKey(n: nat): (ds: seq<nat>)
    ensures |ds| == 13 && ds[12] < 16 && forall i :: 0 <= i < 13 ==> ds[i] < 32
  {
    Symbols(n / 16, 12) + [n % 16]
  }

  function Pow32(k: nat): nat {
    if k == 0 then 1 else 32 * Pow32(k - 1)
  }

  lemma {:induction false} ValueOfSymbols(m: nat, count: nat)
    requires m < Pow32(count)
    ensures Value(Symbols(m, count)) == m
  {
    if count > 0 {
      ValueOfSymbols(m / 32, count - 1);
      var ds := Symbols(m, count);
      assert ds[..count - 1] == Symbols(m / 32, count - 1);
    }
  }

  lemma {:induction false} SymbolsOfValue(ds: seq<nat>)
    requires forall i :: 0 <= i < |ds| ==> ds[i] < 32
    ensures Symbols(Value(ds), |ds|) == ds && Value(ds) < Pow32(|ds|)
  {
    if ds != [] {
      var n := |ds| - 1;
      SymbolsOfValue(ds[..n]);
      assert Value(ds) / 32 == Value(ds[..n]) && Value(ds) % 32 == ds[n];
      assert ds == ds[..n] + [ds[n]];
    }
  }

  lemma {:induction false} WordIs()
    ensures WORD == 16 * Pow32(12) && WORD == 0x1_0000_0000_0000_0000
  {
    Pow32Is(12);
    Pow2Adds(4, 60);
    assert Pow2(4) == 16 by { assert Pow2(2) == 4; }
    assert Pow32(4) == 0x10_0000 by { assert Pow32(2) == 1024; }
    assert Pow32(8) == 0x100_0000_0000 by { assert Pow32(6) == 0x4000_0000; }
    assert Pow32(12) == 0x1000_0000_0000_0000 by { assert Pow32(10) == 0x4_0000_0000_0000; }
  }

  lemma {:induction false} Pow32Is(k: nat)
    ensures Pow32(k) == Pow2(5 * k)
  {
    if k > 0 {
      Pow32Is(k - 1);
      Pow2Adds(5, 5 * (k - 1));
      assert Pow2(5) == 32 by { assert Pow2(3) == 8; }
    }
  }

  lemma {:induction false} KeyRoundTrip(n: nat)
    requires n < WORD
    ensures KeyOf(SymbolsOfKey(n)) == n
  {
    WordIs();
    ValueOfSymbols(n / 16, 12);
    assert SymbolsOfKey(n)[..12] == Symbols(n / 16, 12);
  }

  lemma {:induction false} SymbolRoundTrip(ds: seq<nat>)
    requires |ds| == 13 && ds[12] < 16 && forall i :: 0 <= i < 13 ==> ds[i] < 32
    ensures SymbolsOfKey(KeyOf(ds)) == ds && KeyOf(ds) < WORD
  {
    WordIs();
    SymbolsOfValue(ds[..12]);
    assert KeyOf(ds) / 16 == Value(ds[..12]) && KeyOf(ds) % 16 == ds[12];
    assert ds == ds[..12] + [ds[12]];
  }

  // ---------------------------------------------------------------- strings

  function CharAt(d: nat): char
    requires d < 32
  {
    CHARMAP[d]
  }

  function CharsOf(ds: seq<nat>): (s: string)
    requires forall i :: 0 <= i < |ds| ==> ds[i] < 32
    ensures |s| == |ds| && forall i :: 0 <= i < |ds| ==> s[i] == CharAt(ds[i])
  {
    seq(|ds|, i requires 0 <= i < |ds| => CharAt(ds[i]))
  }

  function ChopDots(s: string): string {
    if s != [] && s[|s| - 1] == '.' then ChopDots(s[..|s| - 1]) else s
  }

  /** The key of a name, and the name of a key, by their symbols. */
  function Encoded(s: string): nat {
    KeyOf(SymbolsOf(s))
  }

  function Decoded(n: nat): string {
    ChopDots(CharsOf(SymbolsOfKey(n)))
  }

  lemma {:induction false} CharSymbol(d: nat)
    requires d < 32
    ensures CharToSymbol(CharAt(d)) == d
    ensures d == 0 <==> CharAt(d) == '.'
  {
  }

  predicate LegalChar(c: char) {
    c == '.' || '1' <= c <= '5' || 'a' <= c <= 'z'
  }

  lemma {:induction false} SymbolChar(c: char)
    ensures LegalChar(c) <==> CharAt(CharToSymbol(c)) == c
  {
  }

  lemma {:induction false} CharsInMap(d: nat)
    requires d < 32
    ensures LegalChar(CharAt(d))
  {
    CharSymbol(d);
    SymbolChar(CharAt(d));
  }

  /** Chopping takes dots off the end and nothing else. */
  lemma {:induction false} ChopDotsIs(s: string)
    ensures ChopDots(s) <= s
    ensures forall i :: |ChopDots(s)| <= i < |s| ==> s[i] == '.'
    ensures ChopDots(s) != [] ==> ChopDots(s)[|ChopDots(s)| - 1] != '.'
  {
    if s != [] && s[|s| - 1] == '.' {
      ChopDotsIs(s[..|s| - 1]);
      var rest := s[..|s| - 1];
      assert forall i :: |ChopDots(s)| <= i < |rest| ==> rest[i] == '.';
    }
  }

  /** The only prefix with that property. */
  lemma {:induction false} ChopDotsUnique(s: string, n: nat)
    requires n <= |s| && (n > 0 ==> s[n - 1] != '.') && forall i :: n <= i < |s| ==> s[i] == '.'
    ensures ChopDots(s) == s[..n]
  {
    if s != [] && s[|s| - 1] == '.' {
      var rest := s[..|s| - 1];
      assert forall i :: n <= i < |rest| ==> rest[i] == '.';
      ChopDotsUnique(rest, n);
      assert rest[..n] == s[..n];
    } else {
      assert n == |s|;
    }
  }

  // ---------------------------------------------------------------- the conversions

  method StringToUint64(str: string) returns (n: nat)
    ensures n == Encoded(str) && n < WORD
  {
    n := 0;
    var i := 0;
    ghost var ds := SymbolsOf(str);
    while i < |str| && i < 12
      invariant i <= 12 && i <= |str|
      invariant n == Placed(ds, i)
    {
      EncodeChar(ds, i);
      n := Or(n, ShiftLeft(And(CharToSymbol(str[i]), 0x1f), 64 - 5 * (i + 1)));
      i := i + 1;
    }
    PadValue(ds, i);
    if i == 12 {
      // Past the end of a name of twelve characters lies the terminator, which has no symbol.
      var c := if |str| > 12 then CharToSymbol(str[12]) else 0;
      EncodeLast(ds, c);
      n := Or(n, And(c, 0x0F));
    }
    SymbolRoundTrip(ds);
  }

  /** The number made of the first symbols, shifted to the top of the word. */
  function Placed(ds: seq<nat>, i: nat): nat
    requires |ds| == 13 && i <= 12
  {
    Value(ds[..i]) * Pow2(64 - 5 * i)
  }

  lemma {:induction false} Pow2Small()
    ensures Pow2(4) == 16 && Pow2(5) == 32 && Pow2(0) == 1
  {
    assert Pow2(2) == 4;
  }

  lemma {:induction false} EncodeChar(ds: seq<nat>, i: nat)
    requires |ds| == 13 && i < 12 && forall k :: 0 <= k < 13 ==> ds[k] < 32
    ensures Or(Placed(ds, i), ShiftLeft(And(ds[i], 0x1f), 64 - 5 * (i + 1))) == Placed(ds, i + 1)
  {
    MaskSymbol(ds[i]);
    EncodeStep(ds, i);
  }

  lemma {:induction false} MaskSymbol(d: nat)
    requires d < 32
    ensures And(d, 0x1f) == d
  {
    FiveBits();
    MaskBelow(d, 5, 0x1f);
  }

  lemma {:induction false} MaskBelow(d: nat, k: nat, mask: nat)
    requires mask == Pow2(k) - 1 && d <= mask
    ensures And(d, mask) == d
  {
    AndMask(d, k);
    SmallMod(d, Pow2(k));
  }

  lemma {:induction false} FiveBits()
    ensures Pow2(5) == 32
  {
    assert Pow2(3) == 8;
  }

  lemma {:induction false} EncodeLast(ds: seq<nat>, c: nat)
    requires |ds| == 13 && ds[12] == c % 16
    ensures Or(Value(ds[..12]) * 16, And(c, 0x0F)) == KeyOf(ds)
  {
    Pow2Small();
    AndMask(c, 4);
    OrDisjoint(Value(ds[..12]), c % 16, 4);
  }

  /** Joining the next symbol below the ones before it. */
  lemma {:induction false} EncodeStep(ds: seq<nat>, i: nat)
    requires |ds| == 13 && i < 12 && forall k :: 0 <= k < 13 ==> ds[k] < 32
    ensures Or(Placed(ds, i), ShiftLeft(ds[i], 64 - 5 * (i + 1))) == Placed(ds, i + 1)
  {
    var k, v := 64 - 5 * (i + 1), Value(ds[..i]);
    assert ds[..i + 1][..i] == ds[..i];
    assert Value(ds[..i + 1]) == v * 32 + ds[i];
    NoOverflow(ds[i], k);
    JoinSymbol(v, ds[i], k);
  }

  lemma {:induction false} JoinSymbol(v: nat, d: nat, k: nat)
    requires d < 32
    ensures Or(v * Pow2(5 + k), d * Pow2(k)) == (v * 32 + d) * Pow2(k)
  {
    ShiftFits(d, k, 5 + k);
    OrDisjoint(v, d * Pow2(k), 5 + k);
    Pow2Small();
    Pow2Adds(5, k);
    Spread(v, d, Pow2(k));
  }

  lemma {:induction false} Spread(v: nat, d: nat, p: nat)
    ensures v * (32 * p) + d * p == (v * 32 + d) * p
  {
    Regroup(v, p);
  }

  lemma {:induction false} Product(d: nat, p: nat, bound: nat)
    requires d < bound && p > 0
    ensures d * p < bound * p
  {
    AtLeastOnce(p, bound - d);
    Distribute(d, bound - d, p);
  }

  lemma {:induction false} Distribute(d: nat, x: nat, p: nat)
    ensures (d + x) * p == d * p + p * x
  {
  }

  lemma {:induction false} ShiftFits(d: nat, k: nat, width: nat)
    requires d < 32 && 5 + k <= width
    ensures d * Pow2(k) < Pow2(width)
  {
    Pow2Small();
    Pow2Adds(5, k);
    Product(d, Pow2(k), 32);
    Pow2Grows(5 + k, width);
  }

  lemma {:induction false} NoOverflow(d: nat, k: nat)
    requires d < 32 && k <= 59
    ensures ShiftLeft(d, k) == d * Pow2(k)
  {
    ShiftFits(d, k, 64);
    SmallMod(d * Pow2(k), WORD);
  }

  lemma {:induction false} SmallMod(a: nat, d: nat)
    requires a < d
    ensures a % d == a
  {
  }

  lemma {:induction false} PlacedZero(ds: seq<nat>, i: nat)
    requires |ds| == 13 && i < 12 && ds[i] == 0
    ensures Placed(ds, i + 1) == Placed(ds, i)
  {
    assert ds[..i + 1][..i] == ds[..i];
    var v, k := Value(ds[..i]), 64 - 5 * (i + 1);
    assert Value(ds[..i + 1]) == v * 32;
    Pow2Small();
    Pow2Adds(5, k);
    Regroup(v, Pow2(k));
  }

  lemma {:induction false} Regroup(v: nat, p: nat)
    ensures (v * 32) * p == v * (32 * p)
  {
  }

  /** The symbols past the end of a short name are zeros. */
  lemma {:induction false} PadValue(ds: seq<nat>, i: nat)
    requires |ds| == 13 && i <= 12 && (i < 12 ==> forall k :: i <= k < 13 ==> ds[k] == 0)
    ensures Placed(ds, i) == Value(ds[..12]) * 16
    ensures i < 12 ==> KeyOf(ds) == Placed(ds, i)
    decreases 12 - i
  {
    Pow2Small();
    if i < 12 {
      PadValue(ds, i + 1);
      PlacedZero(ds, i);
    }
  }

  method NameToString(name: nat) returns (str: string)
    requires name < WORD
    ensures str == Decoded(name)
  {
    ghost var ds := SymbolsOfKey(name);
    str := seq(13, i => '.');
    var tmp := name;
    for i := 0 to 13
      invariant |str| == 13
      invariant i == 0 ==> tmp == name
      invariant i > 0 ==> Symbols(tmp, 13 - i) == ds[..13 - i]
      invariant forall k :: 13 - i <= k < 13 ==> str[k] == CharAt(ds[k])
    {
      TakeSymbol(name, tmp, i, ds);
      var symbol := And(tmp, if i == 0 then 0x0f else 0x1f);
      str := str[12 - i := CHARMAP[symbol]];
      tmp := ShiftRight(tmp, if i == 0 then 4 else 5);
    }
    assert str == CharsOf(ds);
    while str != [] && str[|str| - 1] == '.'
      invariant ChopDots(str) == ChopDots(CharsOf(ds))
    {
      str := str[..|str| - 1];
    }
  }

  /** One round of the decoding takes the last symbol that is left, the first round one of four bits. */
  lemma {:induction false} TakeSymbol(name: nat, tmp: nat, i: nat, ds: seq<nat>)
    requires i < 13 && ds == SymbolsOfKey(name)
    requires if i == 0 then tmp == name else Symbols(tmp, 13 - i) == ds[..13 - i]
    ensures And(tmp, if i == 0 then 0x0f else 0x1f) == ds[12 - i]
    ensures Symbols(ShiftRight(tmp, if i == 0 then 4 else 5), 12 - i) == ds[..12 - i]
  {
    Pow2Small();
    if i == 0 {
      AndMask(tmp, 4);
    } else {
      AndMask(tmp, 5);
      SymbolsLast(tmp, 13 - i, ds[..13 - i]);
      assert ds[..13 - i][..12 - i] == ds[..12 - i];
    }
  }

  lemma {:induction false} SymbolsLast(m: nat, count: nat, ds: seq<nat>)
    requires count > 0 && Symbols(m, count) == ds
    ensures ds[count - 1] == m % 32 && Symbols(m / 32, count - 1) == ds[..count - 1]
  {
  }

  // ---------------------------------------------------------------- round trips

  /** The names that have a key of their own. */
  ghost predicate IsName(s: string) {
    && |s| <= 13
    && (forall i :: 0 <= i < |s| ==> LegalChar(s[i]))
    && (s != [] ==> s[|s| - 1] != '.')
    && (|s| == 13 ==> CharToSymbol(s[12]) < 16)
  }

  lemma {:induction false} DecodedSymbols(n: nat)
    ensures SymbolsOf(Decoded(n)) == SymbolsOfKey(n)
  {
    var ds := SymbolsOfKey(n);
    var s, full := Decoded(n), CharsOf(ds);
    ChopDotsIs(full);
    forall i | 0 <= i < 13 ensures SymbolAt(s, i) == ds[i] {
      CharSymbol(ds[i]);
      assert i < |s| ==> s[i] == full[i];
    }
  }

  /** Every key is the key of its name. */
  lemma {:induction false} DecodeThenEncode(n: nat)
    requires n < WORD
    ensures Encoded(Decoded(n)) == n
  {
    DecodedSymbols(n);
    KeyRoundTrip(n);
  }

  /** Every key has a proper name. */
  lemma {:induction false} DecodedIsName(n: nat)
    ensures IsName(Decoded(n))
  {
    var ds := SymbolsOfKey(n);
    var s, full := Decoded(n), CharsOf(ds);
    ChopDotsIs(full);
    forall i | 0 <= i < |s| ensures LegalChar(s[i]) {
      assert s[i] == full[i];
      CharsInMap(ds[i]);
    }
    CharSymbol(ds[12]);
  }

  lemma {:induction false} NameChar(s: string, i: nat)
    requires IsName(s) && i < 13
    ensures CharAt(SymbolsOf(s)[i]) == if i < |s| then s[i] else '.'
  {
    if i < |s| {
      SymbolChar(s[i]);
    }
    CharSymbol(0);
  }

  /** A string is the name of its key exactly when it is a name. */
  lemma {:induction false} EncodeThenDecode(s: string)
    ensures Decoded(Encoded(s)) == s <==> IsName(s)
  {
    SymbolRoundTrip(SymbolsOf(s));
    if IsName(s) {
      var ds := SymbolsOf(s);
      var full := CharsOf(ds);
      forall i | 0 <= i < 13 ensures full[i] == if i < |s| then s[i] else '.' {
        NameChar(s, i);
      }
      ChopDotsUnique(full, |s|);
      assert full[..|s|] == s;
    } else {
      DecodedIsName(Encoded(s));
    }
  }

  // ---------------------------------------------------------------- strings that are not names

  function Legible(c: char): char {
    if LegalChar(c) then c else '.'
  }

  /** The last character has four bits only: the letters from k on share them with the first sixteen characters. */
  function LegibleLast(c: char): char {
    if c == 'k' then '.'
    else if 'l' <= c <= 'p' then (c as int - 'l' as int + '1' as int) as char
    else if 'q' <= c <= 'z' then (c as int - 'q' as int + 'a' as int) as char
    else Legible(c)
  }

  /** What a string's key keeps of it: thirteen characters, dots in place of illegal and missing ones. */
  function KeptOf(s: string): (kept: string)
    ensures |kept| == 13
  {
    seq(13, i requires 0 <= i < 13 =>
      if |s| <= i then '.' else if i < 12 then Legible(s[i]) else LegibleLast(s[i]))
  }

  lemma {:induction false} AnySymbol(c: char)
    ensures CharAt(CharToSymbol(c)) == Legible(c)
  {
    SymbolChar(c);
    CharSymbol(0);
  }

  lemma {:induction false} LastSymbol(c: char)
    ensures CharAt(CharToSymbol(c) % 16) == LegibleLast(c)
  {
    hide CharAt;
    SymbolChar(LegibleLast(c));
    assert CharToSymbol(c) % 16 == CharToSymbol(LegibleLast(c));
  }

  lemma {:induction false} KeptIs(s: string)
    ensures CharsOf(SymbolsOf(s)) == KeptOf(s)
  {
    hide CharAt, CharToSymbol, Legible, LegibleLast;
    CharSymbol(0);
    forall i | 0 <= i < 13 ensures CharAt(SymbolsOf(s)[i]) == KeptOf(s)[i] {
      if i < |s| {
        AnySymbol(s[i]);
        LastSymbol(s[i]);
      }
    }
  }

  /** Any string is read back as what its key keeps, without the dots at the end. */
  lemma {:induction false} AnyStringReadBack(s: string)
    ensures Decoded(Encoded(s)) == ChopDots(KeptOf(s))
  {
    SymbolRoundTrip(SymbolsOf(s));
    KeptIs(s);
  }

  /** Two strings have the same key exactly if their keys keep the same of them. */
  lemma {:induction false} SameKeyIff(s: string, t: string)
    ensures Encoded(s) == Encoded(t) <==> KeptOf(s) == KeptOf(t)
  {
    hide CharAt, CharToSymbol, KeptOf, KeyOf, SymbolsOfKey;
    var ds, es := SymbolsOf(s), SymbolsOf(t);
    SymbolRoundTrip(ds);
    SymbolRoundTrip(es);
    KeptIs(s);
    KeptIs(t);
    if KeptOf(s) == KeptOf(t) {
      forall i | 0 <= i < 13 ensures ds[i] == es[i] {
        CharSymbol(ds[i]);
        CharSymbol(es[i]);
        assert CharsOf(ds)[i] == CharsOf(es)[i];
      }
      assert ds == es;
    }
  }

  // ---------------------------------------------------------------- order

  predicate Less(s: string, t: string) {
    if t == [] then false
    else if s == [] then true
    else if s[0] != t[0] then s[0] < t[0]
    else Less(s[1..], t[1..])
  }

  /** Symbols compared from the left. */
  predicate LessSymbols(ds: seq<nat>, es: seq<nat>)
    requires |ds| == |es|
  {
    ds != [] && (ds[0] < es[0] || (ds[0] == es[0] && LessSymbols(ds[1..], es[1..])))
  }

  lemma {:induction false} LessFromTheRight(ds: seq<nat>, es: seq<nat>, d: nat, e: nat)
    requires |ds| == |es|
    ensures LessSymbols(ds + [d], es + [e]) <==> LessSymbols(ds, es) || (ds == es && d < e)
  {
    var x, y := ds + [d], es + [e];
    if ds == [] {
      assert x[1..] == [] && y[1..] == [];
    } else {
      assert x[1..] == ds[1..] + [d] && y[1..] == es[1..] + [e];
      LessFromTheRight(ds[1..], es[1..], d, e);
      assert ds == es <==> ds[0] == es[0] && ds[1..] == es[1..];
    }
  }

  lemma {:induction false} LessValue(ds: seq<nat>, es: seq<nat>)
    requires |ds| == |es| && forall i :: 0 <= i < |ds| ==> ds[i] < 32 && es[i] < 32
    ensures Value(ds) < Value(es) <==> LessSymbols(ds, es)
    ensures Value(ds) == Value(es) <==> ds == es
  {
    if ds != [] {
      var n := |ds| - 1;
      LessValue(ds[..n], es[..n]);
      LessFromTheRight(ds[..n], es[..n], ds[n], es[n]);
      assert ds == ds[..n] + [ds[n]] && es == es[..n] + [es[n]];
    }
  }

  lemma {:induction false} LessKey(a: nat, b: nat)
    requires a < WORD && b < WORD
    ensures a < b <==> LessSymbols(SymbolsOfKey(a), SymbolsOfKey(b))
  {
    WordIs();
    var ds, es := Symbols(a / 16, 12), Symbols(b / 16, 12);
    ValueOfSymbols(a / 16, 12);
    ValueOfSymbols(b / 16, 12);
    LessValue(ds, es);
    LessFromTheRight(ds, es, a % 16, b % 16);
  }

  lemma {:induction false} LessChars(ds: seq<nat>, es: seq<nat>)
    requires |ds| == |es| && forall i :: 0 <= i < |ds| ==> ds[i] < 32 && es[i] < 32
    ensures Less(CharsOf(ds), CharsOf(es)) <==> LessSymbols(ds, es)
  {
    if ds != [] {
      LessChars(ds[1..], es[1..]);
      assert CharsOf(ds)[1..] == CharsOf(ds[1..]) && CharsOf(es)[1..] == CharsOf(es[1..]);
      CharOrder(ds[0], es[0]);
    }
  }

  lemma {:induction false} CharOrder(d: nat, e: nat)
    requires d < 32 && e < 32
    ensures CharAt(d) < CharAt(e) <==> d < e
    ensures CharAt(d) == CharAt(e) <==> d == e
  {
    CharSymbol(d);
    CharSymbol(e);
  }

  lemma {:induction false} ChopFromTheLeft(c: char, s: string)
    ensures ChopDots([c] + s) == if c == '.' && ChopDots(s) == [] then [] else [c] + ChopDots(s)
  {
    ChopDotsIs(s);
    var t, n := [c] + s, |ChopDots(s)|;
    assert forall i :: 1 <= i < |t| ==> t[i] == s[i - 1];
    assert n > 0 ==> t[n] == ChopDots(s)[n - 1];
    ChopDotsUnique(t, if c == '.' && n == 0 then 0 else n + 1);
    assert t[..n + 1] == [c] + s[..n];
  }

  /** Chopping dots keeps the order of strings of one length, because no character comes before the dot. */
  lemma {:induction false} LessChopped(s: string, t: string)
    requires |s| == |t| && forall i :: 0 <= i < |s| ==> '.' <= s[i] && '.' <= t[i]
    ensures Less(ChopDots(s), ChopDots(t)) <==> Less(s, t)
    ensures ChopDots(s) == ChopDots(t) ==> s == t
  {
    if s != [] {
      LessChopped(s[1..], t[1..]);
      assert s == [s[0]] + s[1..] && t == [t[0]] + t[1..];
      ChopFromTheLeft(s[0], s[1..]);
      ChopFromTheLeft(t[0], t[1..]);
      var p, q := ChopDots(s[1..]), ChopDots(t[1..]);
      assert ([s[0]] + p)[1..] == p && ([t[0]] + q)[1..] == q;
    }
  }

  /** Keys are ordered as their names are. */
  lemma {:induction false} KeyOrderIsNameOrder(a: nat, b: nat)
    requires a < WORD && b < WORD
    ensures a < b <==> Less(Decoded(a), Decoded(b))
  {
    var ds, es := SymbolsOfKey(a), SymbolsOfKey(b);
    LessKey(a, b);
    LessChars(ds, es);
    forall i | 0 <= i < 13 ensures '.' <= CharsOf(ds)[i] && '.' <= CharsOf(es)[i] {
      CharOrder(0, ds[i]);
      CharOrder(0, es[i]);
    }
    LessChopped(CharsOf(ds), CharsOf(es));
  }

  /** Rows that arrive in ascending key order have ascending names, as merging them by name requires. */
  lemma {:induction false} AscendingKeysAscendingNames(keys: seq<nat>, i: nat, j: nat)
    requires forall x, y :: 0 <= x < y < |keys| ==> keys[x] < keys[y]
    requires forall x :: 0 <= x < |keys| ==> keys[x] < WORD
    requires i < j < |keys|
    ensures Less(Decoded(keys[i]), Decoded(keys[j]))
  {
    KeyOrderIsNameOrder(keys[i], keys[j]);
  }
}
