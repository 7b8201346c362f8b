// UTF-8: which octet strings are text, and the lossy decoding that puts U+FFFD in the place of
// every ill-formed subpart, as the Rust standard library does it.

module Utf8 {
  import opened Octets

  const REPLACEMENT: bytes := ['\U{EF}', '\U{BF}', '\U{BD}']

  predicate Ascii(s: bytes) {
    forall i :: 0 <= i < |s| ==> s[i] as int < 0x80
  }

  // The length of the character a byte leads, or 0.
  function Width(lead: byte): (w: nat)
    ensures w <= 4
  {
    var a := lead as int;
    if a < 0x80 then 1
    else if 0xC2 <= a <= 0xDF then 2
    else if 0xE0 <= a <= 0xEF then 3
    else if 0xF0 <= a <= 0xF4 then 4
    else 0
  }

  predicate Continues(s: bytes, i: nat) {
    i < |s| && 0x80 <= s[i] as int <= 0xBF
  }

  // The second byte is one the lead allows: no overlong form, no surrogate, nothing above U+10FFFF.
  predicate SecondFits(s: bytes) {
    Continues(s, 1) &&
    var a, b := s[0] as int, s[1] as int;
    if a == 0xE0 then 0xA0 <= b
    else if a == 0xED then b <= 0x9F
    else if a == 0xF0 then 0x90 <= b
    else if a == 0xF4 then b <= 0x8F
    else true
  }

  // How many bytes at the front belong together.
  function Front(s: bytes): (n: nat)
    requires s != []
    ensures 1 <= n <= |s|
  {
    var w := Width(s[0]);
    if w <= 1 || !SecondFits(s) then 1
    else if w == 2 || !Continues(s, 2) then 2
    else if w == 3 || !Continues(s, 3) then 3
    else 4
  }

  // They are a whole character.
  predicate Whole(s: bytes)
    requires s != []
  {
    Front(s) == Width(s[0])
  }

  predicate IsUtf8(s: bytes)
    decreases |s|
  {
    s == [] || (Whole(s) && IsUtf8(s[Front(s)..]))
  }

  function Lossy(s: bytes): bytes
    decreases |s|
  {
    if s == [] then []
    else (if Whole(s) then s[..Front(s)] else REPLACEMENT) + Lossy(s[Front(s)..])
  }

  // ---------------------------------------------------------------------------
  // What the decoding changes
  // ---------------------------------------------------------------------------

  lemma {:induction false} LossyOfUtf8(s: bytes)
    requires IsUtf8(s)
    ensures Lossy(s) == s
    decreases |s|
  {
    hide Front, Whole;
    if s != [] {
      LossyOfUtf8(s[Front(s)..]);
    }
  }

  lemma StartsWithReplacement(s: bytes)
    requires StartsWith(s, REPLACEMENT)
    ensures Whole(s)
  {
    assert s[0] == s[..3][0] && s[1] == s[..3][1] && s[2] == s[..3][2];
  }

  // The decoding leaves a string alone exactly when it is UTF-8.
  lemma {:induction false} LossyFixed(s: bytes)
    ensures Lossy(s) == s <==> IsUtf8(s)
    decreases |s|
  {
    hide Front, Whole;
    if s != [] {
      var n := Front(s);
      LossyFixed(s[n..]);
      if Lossy(s) == s {
        if Whole(s) {
          assert Lossy(s)[n..] == Lossy(s[n..]);
        } else {
          assert Lossy(s)[..3] == REPLACEMENT;
          StartsWithReplacement(s);
          assert false;
        }
      } else if IsUtf8(s) {
        LossyOfUtf8(s);
        assert false;
      }
    }
  }

  // A character is one whatever follows it.
  lemma FrontStays(s: bytes, rest: bytes)
    requires s != [] && Whole(s)
    ensures var t := s[..Front(s)] + rest; Whole(t) && Front(t) == Front(s)
  {
    var n := Front(s);
    var t := s[..n] + rest;
    assert forall i :: 0 <= i < n ==> t[i] == s[i];
  }

  lemma {:induction false} LossyIsUtf8(s: bytes)
    ensures IsUtf8(Lossy(s))
    decreases |s|
  {
    hide Front, Whole;
    if s != [] {
      var n := Front(s);
      var rest := Lossy(s[n..]);
      LossyIsUtf8(s[n..]);
      if Whole(s) {
        FrontStays(s, rest);
        assert (s[..n] + rest)[n..] == rest;
      } else {
        ReplacementWhole();
        assert REPLACEMENT[..3] == REPLACEMENT;
        FrontStays(REPLACEMENT, rest);
        assert (REPLACEMENT + rest)[3..] == rest;
      }
    }
  }

  lemma ReplacementWhole()
    ensures Whole(REPLACEMENT) && Front(REPLACEMENT) == 3
  {
  }

  // ---------------------------------------------------------------------------
  // ASCII
  // ---------------------------------------------------------------------------

  lemma {:induction false} AsciiIsUtf8(s: bytes)
    requires Ascii(s)
    ensures IsUtf8(s)
    decreases |s|
  {
    if s != [] {
      AsciiIsUtf8(s[1..]);
    }
  }

  lemma LossyOfAscii(s: bytes)
    requires Ascii(s)
    ensures Lossy(s) == s
  {
    hide Lossy, IsUtf8;
    AsciiIsUtf8(s);
    LossyOfUtf8(s);
  }

  // Nothing else decodes to ASCII text.
  lemma {:induction false} LossyAscii(s: bytes)
    requires Ascii(Lossy(s))
    ensures Lossy(s) == s
    decreases |s|
  {
    hide Front, Whole;
    if s != [] {
      var n := Front(s);
      var head := if Whole(s) then s[..n] else REPLACEMENT;
      assert Lossy(s) == head + Lossy(s[n..]);
      assert Lossy(s)[0] == head[0];
      assert Lossy(s)[|head|..] == Lossy(s[n..]);
      LossyAscii(s[n..]);
    }
  }

  // An ASCII byte belongs to no character but itself.
  lemma FrontBefore(a: bytes, c: byte, b: bytes)
    requires a != [] && c as int < 0x80
    ensures var s := a + [c] + b; Front(s) == Front(a) && (Whole(s) <==> Whole(a))
    ensures var s := a + [c] + b; var n := Front(a); s[..n] == a[..n] && s[n..] == a[n..] + [c] + b
  {
    var s := a + [c] + b;
    assert forall i :: 0 <= i < |a| ==> s[i] == a[i];
    assert s[|a|] == c;
    assert Continues(s, 1) <==> Continues(a, 1) by {
      if |a| == 1 { assert s[1] == c; }
    }
    assert |a| >= 2 ==> (Continues(s, 2) <==> Continues(a, 2)) by {
      if |a| == 2 { assert s[2] == c; }
    }
    assert |a| >= 3 ==> (Continues(s, 3) <==> Continues(a, 3)) by {
      if |a| == 3 { assert s[3] == c; }
    }
  }

  lemma AsciiFront(c: byte, b: bytes)
    requires c as int < 0x80
    ensures Front([c] + b) == 1 && Whole([c] + b)
  {
  }

  // So text falls apart at every ASCII byte.
  lemma {:induction false} LossyAt(a: bytes, c: byte, b: bytes)
    requires c as int < 0x80
    ensures Lossy(a + [c] + b) == Lossy(a) + [c] + Lossy(b)
    ensures IsUtf8(a + [c] + b) <==> IsUtf8(a) && IsUtf8(b)
    decreases |a|
  {
    hide Front, Whole;
    var s := a + [c] + b;
    if a == [] {
      assert s == [c] + b;
      AsciiFront(c, b);
      assert s[1..] == b && s[..1] == [c];
    } else {
      FrontBefore(a, c, b);
      var n := Front(a);
      var head := if Whole(a) then a[..n] else REPLACEMENT;
      LossyAt(a[n..], c, b);
      Assoc(head, Lossy(a[n..]), [c]);
      Assoc(head, Lossy(a[n..]) + [c], Lossy(b));
    }
  }

  lemma LossyAtCrlf(a: bytes, b: bytes)
    ensures Lossy(a + CRLF + b) == Lossy(a) + CRLF + Lossy(b)
    ensures IsUtf8(a + CRLF + b) <==> IsUtf8(a) && IsUtf8(b)
  {
    hide Lossy, IsUtf8;
    var cr, lf: bytes := ['\r'], ['\n'];
    assert CRLF == cr + lf;
    assert a + CRLF + b == a + cr + (lf + b);
    LossyAt(a, '\r', lf + b);
    LossyAt([], '\n', b);
    assert [] + lf + b == lf + b;
    NothingIsText();
    assert Lossy(a) + cr + (lf + Lossy(b)) == Lossy(a) + CRLF + Lossy(b);
    assert [] + lf + Lossy(b) == lf + Lossy(b);
  }

  lemma NothingIsText()
    ensures Lossy([]) == [] && IsUtf8([])
  {
  }

  // The bytes that belong together are one ASCII byte, or none of them is ASCII.
  lemma FrontAscii(s: bytes)
    requires s != []
    ensures s[0] as int < 0x80 ==> Front(s) == 1 && Whole(s)
    ensures s[0] as int >= 0x80 ==> forall i :: 0 <= i < Front(s) ==> s[i] as int >= 0x80
  {
  }

  // An ASCII byte in front stays in front, and no other comes there.
  lemma LossyHead(s: bytes, c: byte)
    requires s != [] && c as int < 0x80
    ensures Lossy(s) != [] && (Lossy(s)[0] == c <==> s[0] == c)
  {
    hide Front, Whole;
    FrontAscii(s);
  }

  // No ASCII byte is lost or made up.
  lemma {:induction false} LossyFree(s: bytes, c: byte)
    requires c as int < 0x80
    ensures Free(Lossy(s), c) <==> Free(s, c)
    decreases |s|
  {
    hide Front, Whole;
    if s != [] {
      var n := Front(s);
      var head := if Whole(s) then s[..n] else REPLACEMENT;
      FrontAscii(s);
      LossyFree(s[n..], c);
      assert Free(head, c) <==> Free(s[..n], c);
      FreeSplit(s[..n], s[n..], c);
      FreeSplit(head, Lossy(s[n..]), c);
      assert s[..n] + s[n..] == s;
    }
  }

  // One byte that starts no character decodes to one replacement character.
  lemma LossyOfFF()
    ensures Lossy(['\U{FF}']) == REPLACEMENT && !IsUtf8(['\U{FF}'])
  {
    var s: bytes := ['\U{FF}'];
    assert s[1..] == [];
    assert REPLACEMENT + [] == REPLACEMENT;
  }
}
