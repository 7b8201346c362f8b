// Octet strings and the small text operations that the other modules share.

module Octets {
  // An octet is a character whose code is below 256, so that protocol text can be
  // written as string literals.
  type byte = c: char | c as int < 256
  type bytes = seq<byte>

  datatype Option<+T> = None | Some(value: T)

  const CRLF: bytes := "\r\n"
  const DOT: bytes := "."

  predicate CrlfAt(s: bytes, i: int) {
    0 <= i && i + 1 < |s| && s[i] == '\r' && s[i + 1] == '\n'
  }

  predicate NoCrlf(s: bytes) {
    forall i :: 0 <= i < |s| ==> !CrlfAt(s, i)
  }

  predicate EndsWithCrlf(s: bytes) {
    CrlfAt(s, |s| - 2)
  }

  predicate Free(s: bytes, c: byte) {
    forall i :: 0 <= i < |s| ==> s[i] != c
  }

  lemma FreeSplit(a: bytes, b: bytes, c: byte)
    ensures Free(a + b, c) <==> Free(a, c) && Free(b, c)
  {
    assert forall i :: 0 <= i < |a| ==> (a + b)[i] == a[i];
    assert forall i :: 0 <= i < |b| ==> (a + b)[i + |a|] == b[i];
  }

  function CrlfFrom(s: bytes, from: nat): (r: Option<nat>)
    requires from <= |s|
    ensures r.Some? ==> from <= r.value && CrlfAt(s, r.value)
    ensures r.Some? ==> forall i :: from <= i < r.value ==> !CrlfAt(s, i)
    ensures r.None? ==> forall i :: from <= i ==> !CrlfAt(s, i)
    decreases |s| - from
  {
    if from == |s| then None
    else if CrlfAt(s, from) then Some(from)
    else CrlfFrom(s, from + 1)
  }

  // The index of the first CR LF pair.
  function FindCrlf(s: bytes): (r: Option<nat>)
    ensures r.Some? ==> CrlfAt(s, r.value) && forall i :: i < r.value ==> !CrlfAt(s, i)
    ensures r.None? <==> NoCrlf(s)
  {
    CrlfFrom(s, 0)
  }

  // A line without CR LF, once terminated, is found whole whatever follows.
  lemma FirstLine(line: bytes, rest: bytes)
    requires NoCrlf(line)
    ensures FindCrlf(line + CRLF + rest) == Some(|line|)
    ensures (line + CRLF + rest)[..|line|] == line
    ensures (line + CRLF + rest)[|line| + 2..] == rest
  {
    var s := line + CRLF + rest;
    assert CrlfAt(s, |line|);
    forall i | i < |line| ensures !CrlfAt(s, i) {
      if 0 <= i && i + 1 < |line| {
        assert !CrlfAt(line, i);
      }
    }
  }

  // The first field of s and what follows the separator, if there is a separator.
  function SplitOnce(s: bytes, sep: byte): (r: Option<(bytes, bytes)>)
    ensures r.None? <==> Free(s, sep)
    ensures r.Some? ==> Free(r.value.0, sep) && s == r.value.0 + [sep] + r.value.1
  {
    if s == [] then None
    else if s[0] == sep then Some(([], s[1..]))
    else
      match SplitOnce(s[1..], sep)
      case None => None
      case Some(p) => Some(([s[0]] + p.0, p.1))
  }

  lemma {:induction false} SplitOnceAt(a: bytes, sep: byte, b: bytes)
    requires Free(a, sep)
    ensures SplitOnce(a + [sep] + b, sep) == Some((a, b))
  {
    var s := a + [sep] + b;
    if a == [] {
      assert s[1..] == b;
    } else {
      SplitOnceAt(a[1..], sep, b);
      assert s[1..] == a[1..] + [sep] + b;
      assert s[0] == a[0] != sep;
      assert [a[0]] + a[1..] == a;
    }
  }

  // All fields of s. There is always at least one.
  function Split(s: bytes, sep: byte): (r: seq<bytes>)
    ensures |r| >= 1
    decreases |s|
  {
    match SplitOnce(s, sep)
    case None => [s]
    case Some(p) => [p.0] + Split(p.1, sep)
  }

  lemma SplitCons(a: bytes, sep: byte, b: bytes)
    requires Free(a, sep)
    ensures Split(a + [sep] + b, sep) == [a] + Split(b, sep)
  {
    SplitOnceAt(a, sep, b);
  }

  lemma SplitFree(s: bytes, sep: byte)
    requires Free(s, sep)
    ensures Split(s, sep) == [s]
  {
  }

  lemma Assoc(a: bytes, b: bytes, c: bytes)
    ensures a + b + c == a + (b + c)
  {
  }

  function Concat(parts: seq<bytes>): bytes {
    if parts == [] then [] else parts[0] + Concat(parts[1..])
  }

  lemma {:induction false} ConcatSnoc(parts: seq<bytes>, last: bytes)
    ensures Concat(parts + [last]) == Concat(parts) + last
  {
    if parts == [] {
    } else {
      assert (parts + [last])[1..] == parts[1..] + [last];
      ConcatSnoc(parts[1..], last);
    }
  }

  function Preceded(head: bytes, tail: Option<bytes>): Option<bytes> {
    match tail
    case None => None
    case Some(t) => Some(head + t)
  }

  lemma PrecededTwice(a: bytes, b: bytes, tail: Option<bytes>)
    ensures Preceded(a, Preceded(b, tail)) == Preceded(a + b, tail)
    ensures Preceded([], tail) == tail
  {
    if tail.Some? {
      Assoc(a, b, tail.value);
      assert [] + tail.value == tail.value;
    }
  }

  predicate StartsWith(s: bytes, prefix: bytes) {
    |prefix| <= |s| && s[..|prefix|] == prefix
  }

  predicate EndsWith(s: bytes, suffix: bytes) {
    |suffix| <= |s| && s[|s| - |suffix|..] == suffix
  }

  lemma EndsWithIsAt(s: bytes)
    ensures EndsWith(s, CRLF) == EndsWithCrlf(s)
  {
    if |s| >= 2 {
      assert s[|s| - 2..] == [s[|s| - 2], s[|s| - 1]];
    }
  }

  // Decimal numbers.

  predicate IsDigit(c: byte) {
    '0' <= c <= '9'
  }

  predicate Digits(s: bytes) {
    forall i :: 0 <= i < |s| ==> IsDigit(s[i])
  }

  function DigitChar(d: nat): (c: byte)
    requires d < 10
    ensures IsDigit(c) && DigitValue(c) == d
  {
    ('0' as int + d) as char
  }

  function DigitValue(c: byte): (d: nat)
    requires IsDigit(c)
    ensures d < 10
  {
    c as int - '0' as int
  }

  lemma DigitCharOfValue(c: byte)
    requires IsDigit(c)
    ensures DigitChar(DigitValue(c)) == c
  {
  }

  function Decimal(n: nat): (s: bytes)
    ensures s != [] && Digits(s)
  {
    if n < 10 then [DigitChar(n)] else Decimal(n / 10) + [DigitChar(n % 10)]
  }

  function DigitsValue(s: bytes): nat
    requires Digits(s)
  {
    if s == [] then 0 else 10 * DigitsValue(s[..|s| - 1]) + DigitValue(s[|s| - 1])
  }

  lemma {:induction false} DecimalValue(n: nat)
    ensures DigitsValue(Decimal(n)) == n
  {
    if n < 10 {
      assert Decimal(n)[..0] == [];
    } else {
      DecimalValue(n / 10);
      assert Decimal(n)[..|Decimal(n)| - 1] == Decimal(n / 10);
    }
  }

  // ASCII letter case.

  function Upper(c: byte): byte {
    if 'a' <= c <= 'z' then (c as int - 32) as char else c
  }

  predicate EqIgnoreCase(a: bytes, b: bytes) {
    |a| == |b| && forall i :: 0 <= i < |a| ==> Upper(a[i]) == Upper(b[i])
  }
}
