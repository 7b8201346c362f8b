// Enhanced status codes (section 2 of RFC 3463) and the reply value that carries them.

module EnhancedStatusCodes {
  import opened Octets
  import opened Errors

  const MAX_U16: nat := 65535

  // The index after the digits that start at i.
  function DigitsEnd(s: bytes, i: nat): (j: nat)
    requires i <= |s|
    ensures i <= j <= |s| && Digits(s[i..j])
    ensures j == |s| || !IsDigit(s[j])
    decreases |s| - i
  {
    if i < |s| && IsDigit(s[i]) then
      var j := DigitsEnd(s, i + 1);
      assert s[i..j] == [s[i]] + s[i + 1..j];
      j
    else i
  }

  function ParseU16(s: bytes): Option<nat>
    requires Digits(s)
  {
    if s == [] || DigitsValue(s) > MAX_U16 then None else Some(DigitsValue(s))
  }

  predicate IsCategory(c: byte) {
    c == '2' || c == '4' || c == '5'
  }

  predicate IsBlank(c: byte) {
    c == ' ' || c == '\t'
  }

  // The status at the start of a reply text, and the length of the prefix it takes.
  function ParsePrefix(text: bytes): (r: Option<(EnhancedStatus, nat)>)
    ensures r.Some? ==> 5 <= r.value.1 <= |text|
  {
    if |text| < 5 || !IsCategory(text[0]) || text[1] != '.' then None
    else
      var i := DigitsEnd(text, 2);
      if i == 2 || i >= |text| || text[i] != '.' then None
      else
        match ParseU16(text[2..i])
        case None => None
        case Some(subject) =>
          var j := DigitsEnd(text, i + 1);
          if j == i + 1 then None
          else
            match ParseU16(text[i + 1..j])
            case None => None
            case Some(detail) =>
              var prefixLen := if j < |text| && IsBlank(text[j]) then j + 1 else j;
              Some((EnhancedStatus(DigitValue(text[0]), subject, detail), prefixLen))
  }

  method ScanDigits(s: bytes, from: nat) returns (i: nat)
    requires from <= |s|
    ensures i == DigitsEnd(s, from)
  {
    i := from;
    while i < |s| && IsDigit(s[i])
      invariant from <= i <= |s|
      invariant DigitsEnd(s, i) == DigitsEnd(s, from)
    {
      i := i + 1;
    }
  }

  method ParseEnhancedStatusPrefix(text: bytes) returns (r: Option<(EnhancedStatus, nat)>)
    ensures r == ParsePrefix(text)
  {
    if |text| < 5 {
      return None;
    }
    if !IsCategory(text[0]) || text[1] != '.' {
      return None;
    }
    var i := ScanDigits(text, 2);
    if i == 2 || i >= |text| || text[i] != '.' {
      return None;
    }
    var subject := ParseU16(text[2..i]);
    if subject.None? {
      return None;
    }
    var detStart := i + 1;
    i := ScanDigits(text, detStart);
    if i == detStart {
      return None;
    }
    var detail := ParseU16(text[detStart..i]);
    if detail.None? {
      return None;
    }
    var prefixLen := if i < |text| && IsBlank(text[i]) then i + 1 else i;
    return Some((EnhancedStatus(DigitValue(text[0]), subject.value, detail.value), prefixLen));
  }

  // ---------------------------------------------------------------------------
  // The grammar of a prefix
  // ---------------------------------------------------------------------------

  function PrefixText(category: byte, subject: bytes, detail: bytes): bytes {
    [category, '.'] + subject + ['.'] + detail
  }

  predicate StartsWithDigit(s: bytes) {
    s != [] && IsDigit(s[0])
  }

  predicate IsNumber(s: bytes) {
    s != [] && Digits(s) && DigitsValue(s) <= MAX_U16
  }

  lemma {:induction false} DigitsEndAt(a: bytes, ds: bytes, b: bytes)
    requires Digits(ds) && !StartsWithDigit(b)
    ensures DigitsEnd(a + ds + b, |a|) == |a| + |ds|
    decreases |ds|
  {
    var s := a + ds + b;
    if ds != [] {
      assert s == (a + [ds[0]]) + ds[1..] + b;
      DigitsEndAt(a + [ds[0]], ds[1..], b);
    }
  }

  function BlankLength(rest: bytes): nat {
    if rest != [] && IsBlank(rest[0]) then 1 else 0
  }

  lemma PrefixSlices(category: byte, subject: bytes, detail: bytes, rest: bytes)
    requires Digits(subject) && Digits(detail) && !StartsWithDigit(rest)
    ensures var text := PrefixText(category, subject, detail) + rest;
      var i, j := 2 + |subject|, 3 + |subject| + |detail|;
      && |text| == j + |rest| && j == |PrefixText(category, subject, detail)|
      && text[0] == category && text[1] == text[i] == '.'
      && text[2..i] == subject && text[i + 1..j] == detail
      && (rest != [] ==> text[j] == rest[0])
      && DigitsEnd(text, 2) == i && DigitsEnd(text, i + 1) == j
  {
    hide DigitsEnd, IsDigit;
    var head: bytes := [category, '.'];
    var text := PrefixText(category, subject, detail) + rest;
    assert text == head + subject + (['.'] + detail + rest);
    assert !IsDigit('.') by { DotIsNoDigit(); }
    DigitsEndAt(head, subject, ['.'] + detail + rest);
    assert text == (head + subject + ['.']) + detail + rest;
    DigitsEndAt(head + subject + ['.'], detail, rest);
  }

  lemma DotIsNoDigit()
    ensures !IsDigit('.')
  {
  }

  lemma PrefixIsParsed(category: byte, subject: bytes, detail: bytes, rest: bytes)
    requires IsCategory(category) && IsNumber(subject) && IsNumber(detail) && !StartsWithDigit(rest)
    ensures ParsePrefix(PrefixText(category, subject, detail) + rest)
         == Some((EnhancedStatus(DigitValue(category), DigitsValue(subject), DigitsValue(detail)),
                  |PrefixText(category, subject, detail)| + BlankLength(rest)))
  {
    hide DigitsEnd, DigitsValue, DigitValue, IsDigit, PrefixText;
    PrefixSlices(category, subject, detail, rest);
  }

  // A prefix that is parsed has this shape, so the parser accepts exactly the grammar.
  lemma ParsedIsPrefix(text: bytes) returns (subject: bytes, detail: bytes, rest: bytes)
    requires ParsePrefix(text).Some?
    ensures IsCategory(text[0]) && IsNumber(subject) && IsNumber(detail) && !StartsWithDigit(rest)
    ensures text == PrefixText(text[0], subject, detail) + rest
  {
    hide DigitsValue;
    var i := DigitsEnd(text, 2);
    var j := DigitsEnd(text, i + 1);
    subject, detail, rest := text[2..i], text[i + 1..j], text[j..];
    assert text == [text[0], text[1]] + subject + [text[i]] + detail + rest;
  }

  function ToDotted(status: EnhancedStatus): bytes
    requires status.category < 10
  {
    [DigitChar(status.category), '.'] + Decimal(status.subject) + ['.'] + Decimal(status.detail)
  }

  // Printing a status and parsing it back gives the status, and the prefix is the printed
  // text with at most one blank after it.
  lemma PrintParse(status: EnhancedStatus, rest: bytes)
    requires status.category in {2, 4, 5} && status.subject <= MAX_U16 && status.detail <= MAX_U16
    requires !StartsWithDigit(rest)
    ensures ParsePrefix(ToDotted(status) + rest) == Some((status, |ToDotted(status)| + BlankLength(rest)))
  {
    hide Decimal, DigitsValue, ParsePrefix;
    DecimalValue(status.subject);
    DecimalValue(status.detail);
    PrefixIsParsed(DigitChar(status.category), Decimal(status.subject), Decimal(status.detail), rest);
  }

  // ---------------------------------------------------------------------------
  // Replies
  // ---------------------------------------------------------------------------

  function JoinLines(lines: seq<bytes>): bytes {
    if lines == [] then []
    else if |lines| == 1 then lines[0]
    else lines[0] + ['\n'] + JoinLines(lines[1..])
  }

  function StripPrefix(line: bytes): bytes {
    match ParsePrefix(line)
    case Some(p) => line[p.1..]
    case None => line
  }

  function StripAll(lines: seq<bytes>): (r: seq<bytes>)
    ensures |r| == |lines|
    ensures forall i :: 0 <= i < |lines| ==> r[i] == StripPrefix(lines[i])
  {
    seq(|lines|, i requires 0 <= i < |lines| => StripPrefix(lines[i]))
  }

  datatype Reply = Reply(code: nat, lines: seq<bytes>, enhanced: Option<EnhancedStatus>) {
    function Class(): nat {
      code / 100
    }

    function JoinedText(): bytes {
      JoinLines(lines)
    }

    function MessageText(): bytes {
      if enhanced.None? then JoinedText() else JoinLines(StripAll(lines))
    }

    function TryParseEnhanced(): Option<EnhancedStatus> {
      if lines == [] then None
      else
        match ParsePrefix(lines[0])
        case None => None
        case Some(p) => Some(p.0)
    }
  }

  // The text starts with a status.
  ghost predicate HasStatus(text: bytes) {
    text != [] &&
    exists subject: bytes, detail: bytes, rest: bytes ::
      IsStatus(text[0], subject, detail, rest) && text == PrefixText(text[0], subject, detail) + rest
  }

  predicate IsStatus(category: byte, subject: bytes, detail: bytes, rest: bytes) {
    IsCategory(category) && IsNumber(subject) && IsNumber(detail) && !StartsWithDigit(rest)
  }

  lemma ParsedHasStatus(text: bytes)
    ensures ParsePrefix(text).Some? <==> HasStatus(text)
  {
    hide ParsePrefix, PrefixText, IsNumber;
    if ParsePrefix(text).Some? {
      var subject, detail, rest := ParsedIsPrefix(text);
      assert IsStatus(text[0], subject, detail, rest);
    }
    if HasStatus(text) {
      var subject: bytes, detail: bytes, rest: bytes :|
        IsStatus(text[0], subject, detail, rest) && text == PrefixText(text[0], subject, detail) + rest;
      PrefixIsParsed(text[0], subject, detail, rest);
    }
  }

  // A line of a reply: a status and what follows it, or text that starts with none.
  datatype TextLine = Coded(category: byte, subject: bytes, detail: bytes, rest: bytes) | Uncoded(text: bytes) {
    ghost predicate Valid() {
      match this
      case Coded(category, subject, detail, rest) => IsStatus(category, subject, detail, rest)
      case Uncoded(text) => !HasStatus(text)
    }

    function Written(): bytes {
      match this
      case Coded(category, subject, detail, rest) => PrefixText(category, subject, detail) + rest
      case Uncoded(text) => text
    }

    // The three numbers of the status, in the order they are written.
    ghost function Status(): Option<EnhancedStatus>
      requires Valid()
    {
      match this
      case Coded(category, subject, detail, _) =>
        Some(EnhancedStatus(DigitValue(category), DigitsValue(subject), DigitsValue(detail)))
      case Uncoded(_) => None
    }

    // What is left to show: the status goes, and one blank after it.
    function Message(): bytes {
      match this
      case Coded(_, _, _, rest) => rest[BlankLength(rest)..]
      case Uncoded(text) => text
    }
  }

  // Every line is one of the two.
  lemma AnyLine(text: bytes) returns (line: TextLine)
    ensures line.Valid() && line.Written() == text
  {
    hide ParsePrefix, PrefixText, HasStatus, IsNumber;
    ParsedHasStatus(text);
    if ParsePrefix(text).Some? {
      var subject, detail, rest := ParsedIsPrefix(text);
      line := Coded(text[0], subject, detail, rest);
    } else {
      line := Uncoded(text);
    }
  }

  lemma LineStrips(line: TextLine)
    requires line.Valid()
    ensures StripPrefix(line.Written()) == line.Message()
  {
    hide ParsePrefix, PrefixText, HasStatus, IsNumber;
    ParsedHasStatus(line.Written());
    if line.Coded? {
      PrefixIsParsed(line.category, line.subject, line.detail, line.rest);
    }
  }

  function Messages(lines: seq<TextLine>): (r: seq<bytes>)
    ensures |r| == |lines| && forall i :: 0 <= i < |lines| ==> r[i] == lines[i].Message()
  {
    seq(|lines|, i requires 0 <= i < |lines| => lines[i].Message())
  }

  // With enhanced codes on, the text of a reply is that of its lines: each line that starts with
  // a status loses it and at most one blank, every other line stays as it is.
  lemma MessageTextStrips(reply: Reply, lines: seq<TextLine>)
    requires reply.enhanced.Some? && |reply.lines| == |lines|
    requires forall i :: 0 <= i < |lines| ==> lines[i].Valid() && reply.lines[i] == lines[i].Written()
    ensures reply.MessageText() == JoinLines(Messages(lines))
  {
    hide StripPrefix, TextLine.Valid, TextLine.Written, TextLine.Message;
    forall i | 0 <= i < |lines|
      ensures StripPrefix(reply.lines[i]) == lines[i].Message()
    {
      LineStrips(lines[i]);
    }
    assert StripAll(reply.lines) == Messages(lines);
  }

  // The status of a reply is the one its first line is written with, number by number; without
  // one there it has none. A reply that carries no status shows its lines untouched.
  lemma StatusOfReply(reply: Reply, first: TextLine)
    requires reply.lines != [] && first.Valid() && reply.lines[0] == first.Written()
    ensures reply.TryParseEnhanced() == first.Status()
    ensures reply.TryParseEnhanced().Some? <==> HasStatus(reply.lines[0])
    ensures reply.enhanced.None? ==> reply.MessageText() == reply.JoinedText()
  {
    hide ParsePrefix, PrefixText, HasStatus, DigitsValue, DigitValue;
    ParsedHasStatus(first.Written());
    if first.Coded? {
      PrefixIsParsed(first.category, first.subject, first.detail, first.rest);
    }
  }

  // A status that is the one the first of these lines is written with.
  ghost predicate FirstStatus(lines: seq<bytes>, status: Option<EnhancedStatus>) {
    if lines == [] then status == None
    else exists first: TextLine :: first.Valid() && first.Written() == lines[0] && first.Status() == status
  }

  // There is exactly one.
  lemma OneFirstStatus(lines: seq<bytes>, status: Option<EnhancedStatus>)
    ensures FirstStatus(lines, status) <==> status == Reply(0, lines, None).TryParseEnhanced()
  {
    hide TextLine.Valid, TextLine.Written, TextLine.Status, Reply.TryParseEnhanced;
    var reply := Reply(0, lines, None);
    if lines == [] {
      assert reply.TryParseEnhanced() == None by { NoLines(reply); }
    } else {
      var line := AnyLine(lines[0]);
      StatusOfReply(reply, line);
      if FirstStatus(lines, status) {
        var first: TextLine :| first.Valid() && first.Written() == lines[0] && first.Status() == status;
        StatusOfReply(reply, first);
      }
    }
  }

  lemma NoLines(reply: Reply)
    requires reply.lines == []
    ensures reply.TryParseEnhanced() == None
  {
  }

  // The lines of a joined text that hold no line feed of their own are recovered.
  lemma {:induction false} JoinSplits(lines: seq<bytes>)
    requires lines != [] && forall line <- lines :: Free(line, '\n')
    ensures Split(JoinLines(lines), '\n') == lines
    decreases |lines|
  {
    hide Split;
    if |lines| == 1 {
      SplitFree(lines[0], '\n');
    } else {
      JoinSplits(lines[1..]);
      SplitCons(lines[0], '\n', JoinLines(lines[1..]));
    }
  }
}
