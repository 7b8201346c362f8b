// Base64 (section 4 of RFC 4648), as the crate encodes and decodes it. The loops shift, mask and
// join 24-bit groups with the operators of module Bits; the specification functions say the
// same in arithmetic.

module Base64 {
  import opened Octets
  import Bits

  const PAD: byte := '='

  predicate IsAlphabet(c: byte) {
    'A' <= c <= 'Z' || 'a' <= c <= 'z' || '0' <= c <= '9' || c == '+' || c == '/'
  }

  // Entry v of the alphabet table.
  function AlphabetChar(v: nat): (c: byte)
    requires v < 64
    ensures IsAlphabet(c) && AlphabetValue(c) == v
  {
    if v < 26 then ('A' as int + v) as char
    else if v < 52 then ('a' as int + v - 26) as char
    else if v < 62 then ('0' as int + v - 52) as char
    else if v == 62 then '+'
    else '/'
  }

  function AlphabetValue(c: byte): (v: nat)
    requires IsAlphabet(c)
    ensures v < 64
  {
    if 'A' <= c <= 'Z' then c as int - 'A' as int
    else if 'a' <= c <= 'z' then c as int - 'a' as int + 26
    else if '0' <= c <= '9' then c as int - '0' as int + 52
    else if c == '+' then 62
    else 63
  }

  // ---------------------------------------------------------------------------
  // Encoding
  // ---------------------------------------------------------------------------

  // n >> (18 - 6 * i)
  function Shifted(n: nat, i: nat): nat
    requires i < 4
  {
    if i == 0 then n / 0x40000 else if i == 1 then n / 0x1000 else if i == 2 then n / 0x40 else n
  }

  function Sextet(n: nat, i: nat): (c: byte)
    requires i < 4
    ensures IsAlphabet(c) && AlphabetValue(c) == Shifted(n, i) % 64
  {
    AlphabetChar(Shifted(n, i) % 64)
  }

  function Sextets(n: nat, count: nat): (s: bytes)
    requires count <= 4
    ensures |s| == count && forall i :: 0 <= i < count ==> s[i] == Sextet(n, i)
  {
    if count == 0 then [] else Sextets(n, count - 1) + [Sextet(n, count - 1)]
  }

  function Group(a: byte, b: byte, c: byte): (n: nat)
    ensures n < 0x1000000
  {
    a as int * 0x10000 + b as int * 0x100 + c as int
  }

  // The last quantum, of one or two bytes.
  function EncodeRemainder(rem: bytes): (s: bytes)
    requires |rem| < 3
    ensures |s| == if rem == [] then 0 else 4
  {
    if |rem| == 0 then []
    else if |rem| == 1 then Sextets(Group(rem[0], '\0', '\0'), 2) + [PAD, PAD]
    else Sextets(Group(rem[0], rem[1], '\0'), 3) + [PAD]
  }

  function Encode(x: bytes): bytes {
    if |x| < 3 then EncodeRemainder(x)
    else Sextets(Group(x[0], x[1], x[2]), 4) + Encode(x[3..])
  }

  // The index that a shift and a mask take out of a group.
  lemma SextetBits(n: nat, i: nat)
    requires i < 4
    ensures Bits.And(Bits.Shr(n, 18 - 6 * i), 0x3F, Bits.U32) == Shifted(n, i) % 64
  {
    hide Bits.And, Bits.Shr;
    Bits.ShrValues(n);
    Bits.MaskValues(Bits.Shr(n, 18 - 6 * i));
  }

  lemma Fits32(n: nat)
    requires n < 0x1000000
    ensures n < Bits.Pow2(Bits.U32)
    ensures Bits.Pow2(6) == 0x40 && Bits.Pow2(8) == 0x100 && Bits.Pow2(12) == 0x1000
    ensures Bits.Pow2(16) == 0x10000 && Bits.Pow2(18) == 0x40000
  {
    assert Bits.Pow2(4) == 0x10;
    assert Bits.Pow2(8) == 0x100;
    assert Bits.Pow2(12) == 0x1000;
    assert Bits.Pow2(16) == 0x10000;
    assert Bits.Pow2(20) == 0x100000;
    assert Bits.Pow2(24) == 0x1000000;
    assert Bits.Pow2(28) == 0x10000000;
    assert Bits.Pow2(32) == 0x100000000;
  }

  // The group that shifts and ors join.
  lemma GroupBits(a: byte, b: byte, c: byte)
    ensures var ab := Bits.Or(Bits.Shl(a as int, 16), Bits.Shl(b as int, 8), Bits.U32);
      && ab == Group(a, b, '\0')
      && Bits.Or(ab, c as int, Bits.U32) == Group(a, b, c)
    ensures Bits.Shl(a as int, 16) == Group(a, '\0', '\0')
  {
    hide Bits.Or, Bits.Shl, Bits.Pow2;
    var x := a as int * 0x100 + b as int;
    Fits32(Group(a, b, c));
    Fits32(Group(a, b, '\0'));
    Bits.ShlValues(a as int);
    Bits.ShlValues(b as int);
    Bits.ShlValues(x);
    Bits.OrJoins(a as int, Bits.Shl(b as int, 8), 16, Bits.U32);
    Bits.OrJoins(x, c as int, 8, Bits.U32);
  }

  method PushB64(out: bytes, n: nat, count: nat) returns (r: bytes)
    requires count <= 4
    ensures r == out + Sextets(n, count)
  {
    hide Bits.And, Bits.Shr, AlphabetChar;
    r := out;
    for i := 0 to count
      invariant r == out + Sextets(n, i)
    {
      SextetBits(n, i);
      var shift := 18 - 6 * i;
      var idx := Bits.And(Bits.Shr(n, shift), 0x3F, Bits.U32);
      r := r + [AlphabetChar(idx)];
    }
  }

  method Base64Encode(input: bytes) returns (out: bytes)
    ensures out == Encode(input)
  {
    hide Sextets, Group, Bits.Or, Bits.Shl;
    out := [];
    var chunks := |input| / 3;
    assert input[0..] == input;
    for i := 0 to chunks
      invariant out + Encode(input[i * 3..]) == Encode(input)
    {
      var a, b, c := input[i * 3], input[i * 3 + 1], input[i * 3 + 2];
      GroupBits(a, b, c);
      var n := Bits.Or(Bits.Or(Bits.Shl(a as int, 16), Bits.Shl(b as int, 8), Bits.U32), c as int, Bits.U32);
      assert input[i * 3..][3..] == input[(i + 1) * 3..];
      Assoc(out, Sextets(n, 4), Encode(input[(i + 1) * 3..]));
      out := PushB64(out, n, 4);
    }
    var rem := input[chunks * 3..];
    if |rem| == 1 {
      GroupBits(rem[0], '\0', '\0');
      var n := Bits.Shl(rem[0] as int, 16);
      Assoc(out, Sextets(n, 2), [PAD, PAD]);
      out := PushB64(out, n, 2);
      out := out + [PAD, PAD];
    } else if |rem| == 2 {
      GroupBits(rem[0], rem[1], '\0');
      var n := Bits.Or(Bits.Shl(rem[0] as int, 16), Bits.Shl(rem[1] as int, 8), Bits.U32);
      Assoc(out, Sextets(n, 3), [PAD]);
      out := PushB64(out, n, 3);
      out := out + [PAD];
    }
  }

  // ---------------------------------------------------------------------------
  // Decoding
  // ---------------------------------------------------------------------------

  predicate IsSymbol(c: byte) {
    IsAlphabet(c) || c == PAD
  }

  function SymbolValue(c: byte): (v: nat)
    requires IsSymbol(c)
    ensures v < 64
  {
    if c == PAD then 0 else AlphabetValue(c)
  }

  predicate Symbols(s: bytes) {
    forall i :: 0 <= i < |s| ==> IsSymbol(s[i])
  }

  function Pads(s: bytes): (n: nat)
    ensures n <= |s|
    ensures n == 0 <==> Free(s, PAD)
  {
    if s == [] then 0 else Pads(s[..|s| - 1]) + (if s[|s| - 1] == PAD then 1 else 0)
  }

  function Joined(q: bytes): (n: nat)
    requires |q| == 4 && Symbols(q)
    ensures n < 0x1000000
  {
    SymbolValue(q[0]) * 0x40000 + SymbolValue(q[1]) * 0x1000 + SymbolValue(q[2]) * 0x40 + SymbolValue(q[3])
  }

  function Octet(n: nat): byte {
    (n % 0x100) as char
  }

  // The one to three bytes of a quantum.
  function DecodeQuantum(q: bytes): bytes
    requires |q| == 4 && Symbols(q)
  {
    var n, pad := Joined(q), Pads(q);
    [Octet(n / 0x10000)]
    + (if pad < 2 then [Octet(n / 0x100)] else [])
    + (if pad < 1 then [Octet(n)] else [])
  }

  function DecodeQuanta(s: bytes): Option<bytes>
    requires |s| % 4 == 0
  {
    if s == [] then Some([])
    else if !Symbols(s[..4]) || (Pads(s[..4]) > 0 && |s| > 4) then None
    else Preceded(DecodeQuantum(s[..4]), DecodeQuanta(s[4..]))
  }

  function Decode(s: bytes): Option<bytes> {
    if |s| % 4 != 0 then None else DecodeQuanta(s)
  }

  // ---------------------------------------------------------------------------
  // Round trip
  // ---------------------------------------------------------------------------

  lemma {:induction false} PadsOf4(q: bytes)
    requires |q| == 4
    ensures Pads(q) == (if q[0] == PAD then 1 else 0) + (if q[1] == PAD then 1 else 0)
                     + (if q[2] == PAD then 1 else 0) + (if q[3] == PAD then 1 else 0)
  {
    assert q[..3][..2] == q[..2] && q[..2][..1] == q[..1] && q[..1][..0] == [];
    assert Pads(q[..1]) == Pads(q[..1][..0]) + (if q[0] == PAD then 1 else 0);
    assert Pads(q[..2]) == Pads(q[..2][..1]) + (if q[1] == PAD then 1 else 0);
    assert Pads(q[..3]) == Pads(q[..3][..2]) + (if q[2] == PAD then 1 else 0);
  }

  lemma Recombine(n: nat)
    requires n < 0x1000000
    ensures n / 0x40000 % 64 * 0x40000 + n / 0x1000 % 64 * 0x1000 + n / 0x40 % 64 * 0x40 + n % 64 == n
  {
    assert n / 0x40000 < 64;
    assert n / 0x1000 == n / 0x40000 * 64 + n / 0x1000 % 64;
    assert n / 0x40 == n / 0x1000 * 64 + n / 0x40 % 64;
    assert n == n / 0x40 * 64 + n % 64;
  }

  lemma GroupOctets(a: byte, b: byte, c: byte)
    ensures var n := Group(a, b, c);
      Octet(n / 0x10000) == a && Octet(n / 0x100) == b && Octet(n) == c
  {
    var n := Group(a, b, c);
    assert n / 0x100 == a as int * 0x100 + b as int && n % 0x100 == c as int;
    assert n / 0x10000 == a as int;
  }

  // The low sextets of a group whose low octets are zero are zero.
  lemma GroupZeros(a: byte, b: byte)
    ensures Group(a, b, '\0') % 64 == 0
    ensures Group(a, '\0', '\0') / 0x40 % 64 == 0 && Group(a, '\0', '\0') % 64 == 0
  {
    assert Group(a, b, '\0') == (a as int * 0x400 + b as int * 4) * 64;
    assert Group(a, '\0', '\0') == (a as int * 0x10) * 0x1000;
  }

  // A quantum whose symbols have the values of the sextets of n joins to n.
  lemma JoinedSextets(q: bytes, n: nat)
    requires |q| == 4 && Symbols(q) && n < 0x1000000
    requires forall i :: 0 <= i < 4 ==> IsSymbol(q[i]) && SymbolValue(q[i]) == Shifted(n, i) % 64
    ensures Joined(q) == n
  {
    hide SymbolValue;
    Recombine(n);
  }

  lemma FullQuantum(a: byte, b: byte, c: byte)
    ensures var q := Sextets(Group(a, b, c), 4);
      Symbols(q) && Pads(q) == 0 && DecodeQuantum(q) == [a, b, c]
  {
    hide Sextets, AlphabetChar, AlphabetValue, Pads, Sextet, Octet, Group, Joined;
    var n := Group(a, b, c);
    var q := Sextets(n, 4);
    assert forall i :: 0 <= i < 4 ==> q[i] == Sextet(n, i) && IsAlphabet(q[i]);
    PadsOf4(q);
    JoinedSextets(q, n);
    GroupOctets(a, b, c);
  }

  lemma PartQuantum(rem: bytes)
    requires 1 <= |rem| < 3
    ensures var q := EncodeRemainder(rem);
      Symbols(q) && DecodeQuantum(q) == rem
  {
    hide Sextets, AlphabetChar, AlphabetValue, Pads, Sextet, Octet, Group, Joined;
    var n := Group(rem[0], if |rem| == 2 then rem[1] else '\0', '\0');
    var q := EncodeRemainder(rem);
    assert q[0] == Sextet(n, 0) && q[1] == Sextet(n, 1) && q[3] == PAD;
    assert q[2] == if |rem| == 2 then Sextet(n, 2) else PAD;
    PadsOf4(q);
    GroupZeros(rem[0], rem[|rem| - 1]);
    JoinedSextets(q, n);
    GroupOctets(rem[0], if |rem| == 2 then rem[1] else '\0', '\0');
    assert rem == if |rem| == 2 then [rem[0], rem[1]] else [rem[0]];
  }

  lemma OneQuantum(q: bytes)
    requires |q| == 4 && Symbols(q)
    ensures Decode(q) == Some(DecodeQuantum(q))
  {
    hide DecodeQuantum, Symbols, Pads;
    assert q[..4] == q && q[4..] == [];
    assert DecodeQuanta([]) == Some([]);
    assert DecodeQuantum(q) + [] == DecodeQuantum(q);
  }

  lemma {:induction false} DecodeEncode(x: bytes)
    ensures Decode(Encode(x)) == Some(x)
    ensures |Encode(x)| == (|x| + 2) / 3 * 4
  {
    hide Sextets, EncodeRemainder, Group, DecodeQuantum, Pads, Symbols;
    if |x| == 0 {
    } else if |x| < 3 {
      PartQuantum(x);
      OneQuantum(Encode(x));
    } else {
      DecodeEncode(x[3..]);
      FullQuantum(x[0], x[1], x[2]);
      var q := Sextets(Group(x[0], x[1], x[2]), 4);
      var s := Encode(x);
      assert s[..4] == q && s[4..] == Encode(x[3..]);
      assert x == [x[0], x[1], x[2]] + x[3..];
    }
  }

  lemma {:induction false} EncodeSymbols(x: bytes)
    ensures Symbols(Encode(x))
  {
    hide Sextets, Group, AlphabetChar, AlphabetValue;
    if |x| >= 3 {
      EncodeSymbols(x[3..]);
    }
  }

  lemma EncodeInjective(x: bytes, y: bytes)
    requires Encode(x) == Encode(y)
    ensures x == y
  {
    DecodeEncode(x);
    DecodeEncode(y);
  }

  // What the decoder accepts. Padding is confined to the last quantum, but may stand
  // anywhere inside it.
  lemma {:induction false} DecodeAccepts(s: bytes)
    ensures Decode(s).Some? <==> |s| % 4 == 0 && Symbols(s) && (|s| > 4 ==> Free(s[..|s| - 4], PAD))
    decreases |s|
  {
    hide DecodeQuantum, IsSymbol, Pads;
    if |s| % 4 == 0 && s != [] {
      var head, tail := s[..4], s[4..];
      DecodeAccepts(tail);
      assert s == head + tail;
      assert Symbols(s) <==> Symbols(head) && Symbols(tail) by {
        assert forall i :: 0 <= i < |tail| ==> tail[i] == s[i + 4];
      }
      if |s| > 4 {
        assert s[..|s| - 4] == head + tail[..|tail| - 4];
        assert Free(head + tail[..|tail| - 4], PAD) <==> Free(head, PAD) && Free(tail[..|tail| - 4], PAD);
      }
    }
  }

  // ---------------------------------------------------------------------------
  // What encoding after decoding gives back
  // ---------------------------------------------------------------------------

  // A last quantum as the encoder writes it: padding only at its end, and the bits of the last
  // sextet that carry no data are zero.
  predicate CanonicalQuantum(q: bytes)
    requires |q| == 4 && Symbols(q)
  {
    || Free(q, PAD)
    || (q[3] == PAD && Free(q[..3], PAD) && SymbolValue(q[2]) % 4 == 0)
    || (q[2] == q[3] == PAD && Free(q[..2], PAD) && SymbolValue(q[1]) % 16 == 0)
  }

  predicate Canonical(s: bytes) {
    && |s| % 4 == 0 && Symbols(s)
    && (s == [] || (Free(s[..|s| - 4], PAD) && CanonicalQuantum(s[|s| - 4..])))
  }

  lemma CanonicalCons(q: bytes, rest: bytes)
    requires |q| == 4 && |rest| % 4 == 0 && rest != []
    ensures Canonical(q + rest) <==> Symbols(q) && Free(q, PAD) && Canonical(rest)
  {
    hide IsSymbol, CanonicalQuantum;
    var s := q + rest;
    assert s[..|s| - 4] == q + rest[..|rest| - 4] && s[|s| - 4..] == rest[|rest| - 4..];
    SymbolsSplit(q, rest);
    FreeSplit(q, rest[..|rest| - 4], PAD);
  }

  lemma SymbolsSplit(a: bytes, b: bytes)
    ensures Symbols(a + b) <==> Symbols(a) && Symbols(b)
  {
    hide IsSymbol;
    assert forall i :: 0 <= i < |a| ==> (a + b)[i] == a[i];
    assert forall i :: 0 <= i < |b| ==> (a + b)[i + |a|] == b[i];
  }

  lemma CharOfValue(c: byte)
    requires IsAlphabet(c)
    ensures AlphabetChar(AlphabetValue(c)) == c
  {
  }

  // The sextets of a number joined from four symbols are their values.
  lemma SextetsOfJoined(q: bytes)
    requires |q| == 4 && Symbols(q)
    ensures forall i :: 0 <= i < 4 ==> IsSymbol(q[i]) && Shifted(Joined(q), i) % 64 == SymbolValue(q[i])
  {
    hide SymbolValue, IsSymbol;
    var a, b, c, d := SymbolValue(q[0]), SymbolValue(q[1]), SymbolValue(q[2]), SymbolValue(q[3]);
    var n := Joined(q);
    assert n / 0x40 == a * 0x1000 + b * 0x40 + c && n % 0x40 == d;
    assert n / 0x1000 == a * 0x40 + b && n / 0x40 % 0x40 == c;
    assert n / 0x40000 == a && n / 0x1000 % 0x40 == b;
  }

  // A number is the group of its octets; when low octets are zero, of the others alone.
  lemma OctetsOfGroup(n: nat)
    requires n < 0x1000000
    ensures Group(Octet(n / 0x10000), Octet(n / 0x100), Octet(n)) == n
    ensures n % 0x100 == 0 ==> Group(Octet(n / 0x10000), Octet(n / 0x100), '\0') == n
    ensures n % 0x10000 == 0 ==> Group(Octet(n / 0x10000), '\0', '\0') == n
  {
    assert n / 0x10000 < 0x100;
    assert n / 0x100 == n / 0x10000 * 0x100 + n / 0x100 % 0x100;
    assert n == n / 0x100 * 0x100 + n % 0x100;
  }

  // A symbol that is no padding comes back from its sextet.
  lemma SymbolBack(q: bytes, i: nat)
    requires |q| == 4 && Symbols(q) && i < 4 && q[i] != PAD
    ensures Sextet(Joined(q), i) == q[i]
  {
    hide Joined, AlphabetChar, AlphabetValue, Shifted, IsAlphabet;
    SextetsOfJoined(q);
    CharOfValue(q[i]);
  }

  lemma ZeroBits(q: bytes)
    requires |q| == 4 && Symbols(q)
    ensures q[3] == PAD && SymbolValue(q[2]) % 4 == 0 ==> Joined(q) % 0x100 == 0
    ensures q[2] == q[3] == PAD && SymbolValue(q[1]) % 16 == 0 ==> Joined(q) % 0x10000 == 0
  {
    hide AlphabetValue, IsAlphabet;
    var a, b, c := SymbolValue(q[0]), SymbolValue(q[1]), SymbolValue(q[2]);
    if q[3] == PAD && c % 4 == 0 {
      assert Joined(q) == (a * 0x400 + b * 0x10 + c / 4) * 0x100;
    }
    if q[2] == q[3] == PAD && b % 16 == 0 {
      assert Joined(q) == (a * 4 + b / 16) * 0x10000;
    }
  }

  lemma QuantumBack(q: bytes)
    requires |q| == 4 && Symbols(q) && CanonicalQuantum(q)
    ensures Encode(DecodeQuantum(q)) == q
  {
    hide Joined, Sextets, Sextet, SymbolValue, IsSymbol, Pads, Octet, Group;
    var n := Joined(q);
    PadsOf4(q);
    OctetsOfGroup(n);
    ZeroBits(q);
    forall i | 0 <= i < 4 && q[i] != PAD ensures Sextet(n, i) == q[i] {
      SymbolBack(q, i);
    }
    if Free(q, PAD) {
      assert Encode([]) == [];
      assert DecodeQuantum(q)[3..] == [];
      assert Sextets(n, 4) == q;
    } else if q[2] != PAD {
      assert q[..3][0] == q[0] && q[..3][1] == q[1];
      assert Sextets(n, 3) + [PAD] == q;
    } else {
      assert q[..2][0] == q[0] && q[..2][1] == q[1];
      assert Sextets(n, 2) + [PAD, PAD] == q;
    }
  }

  lemma {:induction false} CanonicalBack(s: bytes)
    requires Canonical(s)
    ensures Decode(s).Some? && Encode(Decode(s).value) == s
    decreases |s|
  {
    hide CanonicalQuantum, Symbols, DecodeQuantum, Pads, EncodeRemainder, Sextets, Group;
    if s == [] {
    } else if |s| == 4 {
      assert s[..0] + s[0..] == s && s[0..] == s;
      OneQuantum(s);
      QuantumBack(s);
    } else {
      var q, rest := s[..4], s[4..];
      assert s == q + rest;
      CanonicalCons(q, rest);
      CanonicalBack(rest);
      FullBack(q);
      var x, y := DecodeQuantum(q), Decode(rest).value;
      EncodeFull(x, y);
    }
  }

  // A quantum without padding holds three bytes.
  lemma FullBack(q: bytes)
    requires |q| == 4 && Symbols(q) && Free(q, PAD)
    ensures |DecodeQuantum(q)| == 3 && Pads(q) == 0 && Encode(DecodeQuantum(q)) == q
  {
    hide Encode, Symbols, Octet;
    QuantumBack(q);
  }

  lemma EncodeFull(x: bytes, y: bytes)
    requires |x| == 3
    ensures Encode(x + y) == Encode(x) + Encode(y)
  {
    hide Sextets, Group;
    assert (x + y)[3..] == y && x[3..] == [];
    var q := Sextets(Group(x[0], x[1], x[2]), 4);
    assert Encode([]) == [] && q + [] == q;
  }

  lemma RemainderCanonical(rem: bytes)
    requires 1 <= |rem| < 3
    ensures Canonical(EncodeRemainder(rem))
  {
    hide Sextets, AlphabetChar, AlphabetValue, Sextet, Group;
    var n := Group(rem[0], if |rem| == 2 then rem[1] else '\0', '\0');
    var q := EncodeRemainder(rem);
    assert q[0] == Sextet(n, 0) && q[1] == Sextet(n, 1) && q[3] == PAD;
    assert q[2] == if |rem| == 2 then Sextet(n, 2) else PAD;
    assert q[..0] == [] && q[0..] == q;
    LowBitsZero(rem[0], rem[|rem| - 1]);
  }

  lemma LowBitsZero(a: byte, b: byte)
    ensures Group(a, b, '\0') / 0x40 % 64 % 4 == 0
    ensures Group(a, '\0', '\0') / 0x1000 % 64 % 16 == 0
  {
    assert Group(a, b, '\0') / 0x40 == (a as int * 0x100 + b as int) * 4;
    assert Group(a, '\0', '\0') / 0x1000 == a as int * 0x10;
  }

  lemma {:induction false} EncodeCanonical(x: bytes)
    ensures Canonical(Encode(x))
  {
    hide Sextets, Group, EncodeRemainder, Canonical, DecodeQuantum, Pads;
    if |x| == 0 {
      assert Canonical([]) by { EmptyCanonical(); }
    } else if |x| < 3 {
      RemainderCanonical(x);
    } else {
      FullQuantum(x[0], x[1], x[2]);
      var q := Sextets(Group(x[0], x[1], x[2]), 4);
      FullCanonical(q);
      EncodeCanonical(x[3..]);
      DecodeEncode(x[3..]);
      if x[3..] == [] {
        assert q + [] == q;
      } else {
        CanonicalCons(q, Encode(x[3..]));
      }
    }
  }

  lemma EmptyCanonical()
    ensures Canonical([]) && EncodeRemainder([]) == []
  {
  }

  lemma FullCanonical(q: bytes)
    requires |q| == 4 && Symbols(q) && Pads(q) == 0
    ensures Canonical(q) && Free(q, PAD)
  {
    hide IsSymbol;
    assert q[..0] == [] && q[0..] == q;
  }

  // Encoding after decoding gives back exactly the canonical texts.
  lemma EncodeDecode(s: bytes)
    requires Decode(s).Some?
    ensures Encode(Decode(s).value) == s <==> Canonical(s)
  {
    hide Canonical, Encode, Decode;
    EncodeCanonical(Decode(s).value);
    if Canonical(s) {
      CanonicalBack(s);
    }
  }

  // A padding sign ahead of data in the last quantum is accepted, so decoding is not injective.
  lemma PaddingAnywhereInLastQuantum(q: bytes, p: bytes)
    requires q == [PAD, 'A', 'A', 'A'] && p == ['A', 'A', 'A', PAD]
    ensures Decode(q) == Decode(p) == Some(['\0', '\0'])
  {
    hide Pads, Decode, Octet;
    PadsOf4(q);
    PadsOf4(p);
    OneQuantum(q);
    OneQuantum(p);
    assert Joined(q) == 0 && Joined(p) == 0;
    GroupOctets('\0', '\0', '\0');
    assert DecodeQuantum(q) == ['\0', '\0'] && DecodeQuantum(p) == ['\0', '\0'];
  }

  // The value of each symbol and the padding count, by a scan of the quantum.
  method ScanQuantum(chunk: bytes) returns (ok: bool, buf: seq<nat>, pad: nat)
    requires |chunk| == 4
    ensures ok <==> Symbols(chunk)
    ensures ok ==> pad == Pads(chunk) && |buf| == 4
    ensures ok ==> forall i :: 0 <= i < 4 ==> IsSymbol(chunk[i]) && buf[i] == SymbolValue(chunk[i])
  {
    hide IsAlphabet;
    buf, pad := [], 0;
    for i := 0 to 4
      invariant |buf| == i && pad == Pads(chunk[..i])
      invariant forall k :: 0 <= k < i ==> IsSymbol(chunk[k]) && buf[k] == SymbolValue(chunk[k])
    {
      var c := chunk[i];
      assert chunk[..i + 1][..i] == chunk[..i];
      if c == PAD {
        pad := pad + 1;
        buf := buf + [0];
      } else if IsAlphabet(c) {
        buf := buf + [AlphabetValue(c)];
      } else {
        return false, buf, pad;
      }
    }
    assert chunk[..4] == chunk;
    return true, buf, pad;
  }

  // The number that shifts and ors join four sextets to.
  lemma JoinBits(a: nat, b: nat, c: nat, d: nat)
    requires a < 64 && b < 64 && c < 64 && d < 64
    ensures var ab := Bits.Or(Bits.Shl(a, 18), Bits.Shl(b, 12), Bits.U32);
      var abc := Bits.Or(ab, Bits.Shl(c, 6), Bits.U32);
      Bits.Or(abc, d, Bits.U32) == a * 0x40000 + b * 0x1000 + c * 0x40 + d
  {
    hide Bits.Or, Bits.Shl, Bits.Pow2;
    var x, y := a * 0x40 + b, a * 0x1000 + b * 0x40 + c;
    Fits32(a * 0x40000 + b * 0x1000);
    Fits32(a * 0x40000 + b * 0x1000 + c * 0x40);
    Fits32(a * 0x40000 + b * 0x1000 + c * 0x40 + d);
    Bits.ShlValues(a);
    Bits.ShlValues(b);
    Bits.ShlValues(c);
    Bits.ShlValues(x);
    Bits.ShlValues(y);
    Bits.OrJoins(a, Bits.Shl(b, 12), 18, Bits.U32);
    Bits.OrJoins(x, Bits.Shl(c, 6), 12, Bits.U32);
    Bits.OrJoins(y, d, 6, Bits.U32);
  }

  // The octets that shifts and masks take out of it.
  lemma OctetBits(n: nat)
    ensures Bits.And(Bits.Shr(n, 16), 0xFF, Bits.U32) == Octet(n / 0x10000) as int
    ensures Bits.And(Bits.Shr(n, 8), 0xFF, Bits.U32) == Octet(n / 0x100) as int
    ensures Bits.And(n, 0xFF, Bits.U32) == Octet(n) as int
  {
    hide Bits.And, Bits.Shr;
    Bits.ShrValues(n);
    Bits.MaskValues(n);
    Bits.MaskValues(n / 0x100);
    Bits.MaskValues(n / 0x10000);
  }

  // The bytes of a quantum that was scanned.
  method PushQuantum(out: bytes, ghost chunk: bytes, buf: seq<nat>, pad: nat) returns (r: bytes)
    requires |chunk| == 4 && Symbols(chunk) && pad == Pads(chunk) && |buf| == 4
    requires forall i :: 0 <= i < 4 ==> IsSymbol(chunk[i]) && buf[i] == SymbolValue(chunk[i])
    ensures r == out + DecodeQuantum(chunk)
  {
    hide Symbols, Pads, IsSymbol, SymbolValue, Octet, Bits.And, Bits.Or, Bits.Shl, Bits.Shr;
    JoinBits(buf[0], buf[1], buf[2], buf[3]);
    var ab := Bits.Or(Bits.Shl(buf[0], 18), Bits.Shl(buf[1], 12), Bits.U32);
    var n := Bits.Or(Bits.Or(ab, Bits.Shl(buf[2], 6), Bits.U32), buf[3], Bits.U32);
    assert n == Joined(chunk);
    OctetBits(n);
    r := out + [Bits.And(Bits.Shr(n, 16), 0xFF, Bits.U32) as char];
    if pad < 2 {
      r := r + [Bits.And(Bits.Shr(n, 8), 0xFF, Bits.U32) as char];
    }
    if pad < 1 {
      r := r + [Bits.And(n, 0xFF, Bits.U32) as char];
    }
    assert r == out + DecodeQuantum(chunk);
  }

  method Base64Decode(input: bytes) returns (r: Option<bytes>)
    ensures r == Decode(input)
  {
    hide Symbols, Pads, IsSymbol, SymbolValue, DecodeQuantum;
    if |input| == 0 {
      return Some([]);
    }
    if |input| % 4 != 0 {
      return None;
    }
    var out: bytes := [];
    var quanta := |input| / 4;
    assert input[0..] == input;
    PrecededTwice([], [], DecodeQuanta(input));
    for k := 0 to quanta
      invariant Decode(input) == Preceded(out, DecodeQuanta(input[k * 4..]))
    {
      var chunk := input[k * 4..k * 4 + 4];
      var isLast := k == quanta - 1;
      assert input[k * 4..][..4] == chunk && input[k * 4..][4..] == input[(k + 1) * 4..];
      var ok, buf, pad := ScanQuantum(chunk);
      if !ok {
        return None;
      }
      if pad > 0 && !isLast {
        return None;
      }
      PrecededTwice(out, DecodeQuantum(chunk), DecodeQuanta(input[(k + 1) * 4..]));
      out := PushQuantum(out, chunk, buf, pad);
    }
    assert input[quanta * 4..] == [] && out + [] == out;
    return Some(out);
  }
}
