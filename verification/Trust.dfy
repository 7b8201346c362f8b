// The PEM scanner that turns trust anchors into a root store: all of the input's certificates,
// or an error that says which block was at fault.

module Trust {
  import opened Octets

  const MAX_INPUT_BYTES: nat := 256 * 1024
  const MAX_BLOCKS: nat := 64

  const BEGIN: bytes := "-----BEGIN "
  const DASHES: bytes := "-----"
  const CERTIFICATE_LABEL: bytes := "CERTIFICATE"
  const CERTIFICATE_END: bytes := "-----END CERTIFICATE-----"
  const BEGIN_MARK: bytes := "-----BEGIN"
  const END_MARK: bytes := "-----END"

  datatype Reason =
    | TooLarge | TooManyBlocks | NoCertificates | NotACertificate
    | MisplacedBoundary | Unterminated | MalformedBase64 | RejectedByRootStore

  // The block at fault, counted from one, when the error concerns a block.
  datatype TrustError = TrustError(block: Option<nat>, reason: Reason)

  datatype Verdict<+T> = Trusts(value: T) | Refuses(error: TrustError)

  function Whole(reason: Reason): TrustError {
    TrustError(None, reason)
  }

  function At(block: nat, reason: Reason): TrustError {
    TrustError(Some(block), reason)
  }

  // PEM decoding of one block, and whether the root store takes a certificate.
  datatype Oracles = Oracles(decode: bytes -> Option<bytes>, add: bytes -> bool)

  // ---------------------------------------------------------------------------
  // Lines
  // ---------------------------------------------------------------------------

  // The text cut after every line feed.
  function Lines(s: bytes): seq<bytes>
    decreases |s|
  {
    match SplitOnce(s, '\n')
    case None => if s == [] then [] else [s]
    case Some(p) => [p.0 + ['\n']] + Lines(p.1)
  }

  // A line: no line feed but at its end, which only the last line may lack.
  predicate IsLine(line: bytes, isLast: bool) {
    && line != [] && Free(line[..|line| - 1], '\n')
    && (line[|line| - 1] == '\n' || isLast)
  }

  // Nothing is lost.
  lemma {:induction false} LinesOfText(s: bytes)
    ensures Concat(Lines(s)) == s
    ensures forall i :: 0 <= i < |Lines(s)| ==> IsLine(Lines(s)[i], i == |Lines(s)| - 1)
    decreases |s|
  {
    hide IsLine;
    var p := SplitOnce(s, '\n');
    if p.None? {
      if s != [] {
        LastLine(s);
        assert [s][1..] == [];
        assert Concat([s]) == s + Concat([]) == s;
      }
    } else {
      var line, tail := p.value.0 + ['\n'], Lines(p.value.1);
      LinesOfText(p.value.1);
      LineFeedEnds(p.value.0);
      assert Lines(s) == [line] + tail && Lines(s)[1..] == tail;
      assert forall i :: 1 <= i <= |tail| ==> ([line] + tail)[i] == tail[i - 1];
    }
  }

  lemma LineFeedEnds(front: bytes)
    requires Free(front, '\n')
    ensures IsLine(front + ['\n'], true) && IsLine(front + ['\n'], false)
  {
    assert (front + ['\n'])[..|front|] == front;
  }

  lemma LastLine(s: bytes)
    requires s != [] && Free(s, '\n')
    ensures IsLine(s, true)
  {
  }

  predicate IsSpace(c: byte) {
    c == ' ' || 9 <= c as int <= 13
  }

  function TrimEnd(line: bytes): (r: bytes)
    ensures r <= line
    ensures r == [] || !IsSpace(r[|r| - 1])
    ensures forall i :: |r| <= i < |line| ==> IsSpace(line[i])
  {
    if line != [] && IsSpace(line[|line| - 1]) then TrimEnd(line[..|line| - 1]) else line
  }

  predicate FoundAt(s: bytes, part: bytes, i: int) {
    0 <= i <= |s| - |part| && s[i..i + |part|] == part
  }

  predicate Contains(s: bytes, part: bytes) {
    exists i :: 0 <= i <= |s| && FoundAt(s, part, i)
  }

  // ---------------------------------------------------------------------------
  // What a line is
  // ---------------------------------------------------------------------------

  datatype LineKind = Text | Begin(name: bytes) | EndCertificate | Misplaced

  function Classify(full: bytes): LineKind {
    var line := TrimEnd(full);
    if !Contains(line, BEGIN_MARK) && !Contains(line, END_MARK) then Text
    else if line == CERTIFICATE_END then EndCertificate
    else if StartsWith(line, BEGIN) && EndsWith(line[|BEGIN|..], DASHES) then
      Begin(line[|BEGIN|..|line| - |DASHES|])
    else Misplaced
  }

  // A mark does not end in white space, so trimming cuts none off.
  lemma TrimKeeps(line: bytes, mark: bytes)
    requires mark != [] && !IsSpace(mark[|mark| - 1])
    ensures Contains(TrimEnd(line), mark) <==> Contains(line, mark)
  {
    hide TrimEnd, IsSpace;
    var r := TrimEnd(line);
    if i :| 0 <= i <= |line| && FoundAt(line, mark, i) {
      var last := i + |mark| - 1;
      assert line[i..i + |mark|][|mark| - 1] == line[last];
      assert last < |r|;
      assert r[i..i + |mark|] == line[i..i + |mark|];
      assert FoundAt(r, mark, i);
    }
    if i :| 0 <= i <= |r| && FoundAt(r, mark, i) {
      assert line[i..i + |mark|] == r[i..i + |mark|];
      assert FoundAt(line, mark, i);
    }
  }

  lemma MarksEnd()
    ensures !IsSpace(BEGIN_MARK[|BEGIN_MARK| - 1]) && !IsSpace(END_MARK[|END_MARK| - 1])
  {
  }

  // A line is text exactly when it holds no mark at all, and a boundary exactly when, but for
  // white space at its end, it is that boundary. So an indented boundary is never text.
  lemma LineKinds(line: bytes, name: bytes)
    ensures Classify(line).Text? <==> !Contains(line, BEGIN_MARK) && !Contains(line, END_MARK)
    ensures Classify(line).EndCertificate? <==> TrimEnd(line) == CERTIFICATE_END
    ensures Classify(line) == Begin(name) <==> TrimEnd(line) == BEGIN + name + DASHES
  {
    hide TrimEnd, Contains, IsSpace;
    var t := TrimEnd(line);
    MarksEnd();
    TrimKeeps(line, BEGIN_MARK);
    TrimKeeps(line, END_MARK);
    HoldsMarks(t);
    BeginForm(t, name);
  }

  lemma BeginForm(t: bytes, name: bytes)
    ensures StartsWith(t, BEGIN) && EndsWith(t[|BEGIN|..], DASHES) && t[|BEGIN|..|t| - |DASHES|] == name
       <==> t == BEGIN + name + DASHES
    ensures t == BEGIN + name + DASHES ==> t != CERTIFICATE_END
  {
    if t == BEGIN + name + DASHES {
      assert t[5] == BEGIN[5] != CERTIFICATE_END[5];
      assert t[..|BEGIN|] == BEGIN;
      assert t[|BEGIN|..] == name + DASHES;
    } else if StartsWith(t, BEGIN) && EndsWith(t[|BEGIN|..], DASHES) {
      var rest := t[|BEGIN|..];
      var n := |rest| - |DASHES|;
      assert t == BEGIN + (rest[..n] + rest[n..]);
      assert rest[..n] == t[|BEGIN|..|t| - |DASHES|];
      Assoc(BEGIN, rest[..n], DASHES);
    }
  }

  lemma HoldsMarks(t: bytes)
    ensures t == CERTIFICATE_END ==> Contains(t, END_MARK)
    ensures StartsWith(t, BEGIN) ==> Contains(t, BEGIN_MARK)
  {
    if t == CERTIFICATE_END {
      assert t[0..0 + |END_MARK|] == END_MARK;
      assert FoundAt(t, END_MARK, 0);
    }
    if StartsWith(t, BEGIN) {
      assert BEGIN[..|BEGIN_MARK|] == BEGIN_MARK;
      assert t[0..0 + |BEGIN_MARK|] == t[..|BEGIN|][..|BEGIN_MARK|];
      assert FoundAt(t, BEGIN_MARK, 0);
    }
  }

  // ---------------------------------------------------------------------------
  // The rules
  // ---------------------------------------------------------------------------

  predicate TextLines(lines: seq<bytes>, from: nat, to: nat) {
    && from <= to <= |lines|
    && forall k :: from <= k < to ==> Classify(lines[k]).Text?
  }

  // The numbers of the lines a block begins and ends on.
  datatype Block = Block(first: nat, last: nat)

  predicate IsBlock(lines: seq<bytes>, b: Block) {
    && b.first < b.last < |lines|
    && Classify(lines[b.first]) == Begin(CERTIFICATE_LABEL)
    && TextLines(lines, b.first + 1, b.last)
    && Classify(lines[b.last]).EndCertificate?
  }

  // Lines from..to are these blocks, in order, with nothing but text before, between and after.
  predicate Bundle(lines: seq<bytes>, from: nat, blocks: seq<Block>, to: nat)
    decreases |blocks|
  {
    if blocks == [] then TextLines(lines, from, to)
    else
      var b := blocks[0];
      && TextLines(lines, from, b.first)
      && IsBlock(lines, b)
      && Bundle(lines, b.last + 1, blocks[1..], to)
  }

  function BlockText(lines: seq<bytes>, b: Block): bytes
    requires b.first <= b.last < |lines|
  {
    Concat(lines[b.first..b.last + 1])
  }

  // The block decodes to this certificate and the root store takes it.
  predicate Added(o: Oracles, lines: seq<bytes>, b: Block, der: bytes) {
    b.first <= b.last < |lines| && o.decode(BlockText(lines, b)) == Some(der) && o.add(der)
  }

  predicate AllAdded(o: Oracles, lines: seq<bytes>, blocks: seq<Block>, store: seq<bytes>) {
    && |store| == |blocks|
    && forall i :: 0 <= i < |blocks| ==> Added(o, lines, blocks[i], store[i])
  }

  // Line `at` opens a certificate block; line q is its first line that is not text.
  predicate SpoilsAt(o: Oracles, lines: seq<bytes>, at: nat, q: nat, reason: Reason) {
    && TextLines(lines, at + 1, q)
    && if q == |lines| then reason == Unterminated
       else
         match Classify(lines[q])
         case Text => false
         case Begin(_) => reason == Unterminated
         case Misplaced => reason == MisplacedBoundary
         case EndCertificate =>
           match o.decode(BlockText(lines, Block(at, q)))
           case None => reason == MalformedBase64
           case Some(der) => !o.add(der) && reason == RejectedByRootStore
  }

  // What is wrong with the n-th block, which line `at` is meant to open.
  ghost predicate Offends(o: Oracles, lines: seq<bytes>, at: nat, n: nat, reason: Reason) {
    && at < |lines|
    && match Classify(lines[at])
       case Text => false
       case EndCertificate => reason == MisplacedBoundary
       case Misplaced => reason == MisplacedBoundary
       case Begin(name) =>
         if n > MAX_BLOCKS then reason == TooManyBlocks
         else if name != CERTIFICATE_LABEL then reason == NotACertificate
         else exists q :: SpoilsAt(o, lines, at, q, reason)
  }

  // Everything up to line `at` is text and blocks that were added.
  predicate ReadUpTo(o: Oracles, lines: seq<bytes>, blocks: seq<Block>, store: seq<bytes>, at: nat) {
    |blocks| <= MAX_BLOCKS && Bundle(lines, 0, blocks, at) && AllAdded(o, lines, blocks, store)
  }

  ghost predicate Accepted(o: Oracles, lines: seq<bytes>, store: seq<bytes>) {
    exists blocks :: blocks != [] && ReadUpTo(o, lines, blocks, store, |lines|)
  }

  // The n-th block is the first that is at fault.
  ghost predicate FirstOffence(o: Oracles, lines: seq<bytes>, n: nat, reason: Reason) {
    exists blocks, store, at ::
      ReadUpTo(o, lines, blocks, store, at) && n == |blocks| + 1 && Offends(o, lines, at, n, reason)
  }

  // The verdict the rules prescribe for an input.
  ghost predicate Rules(o: Oracles, pem: bytes, v: Verdict<seq<bytes>>) {
    var lines := Lines(pem);
    if |pem| > MAX_INPUT_BYTES then v == Refuses(Whole(TooLarge))
    else
      match v
      case Trusts(store) => Accepted(o, lines, store)
      case Refuses(TrustError(None, reason)) => reason == NoCertificates && TextLines(lines, 0, |lines|)
      case Refuses(TrustError(Some(n), reason)) => FirstOffence(o, lines, n, reason)
  }

  // ---------------------------------------------------------------------------
  // The rules leave no choice
  // ---------------------------------------------------------------------------

  // The first line from `from` on that is not text is the only such line.
  lemma FirstNonText(lines: seq<bytes>, from: nat, i: nat, j: nat)
    requires TextLines(lines, from, i) && TextLines(lines, from, j)
    requires i < |lines| ==> !Classify(lines[i]).Text?
    requires j < |lines| ==> !Classify(lines[j]).Text?
    ensures i == j
  {
    hide Classify;
  }

  // Reading cannot go on at this line.
  ghost predicate Stops(o: Oracles, lines: seq<bytes>, at: nat, n: nat) {
    at == |lines| || exists reason :: Offends(o, lines, at, n, reason)
  }

  lemma StopsAtNonText(o: Oracles, lines: seq<bytes>, at: nat, n: nat)
    requires Stops(o, lines, at, n)
    ensures at < |lines| ==> !Classify(lines[at]).Text?
  {
    hide Classify;
  }

  // A block that was added is no offence.
  lemma AddedNoOffence(o: Oracles, lines: seq<bytes>, b: Block, der: bytes, n: nat)
    requires IsBlock(lines, b) && Added(o, lines, b, der) && n <= MAX_BLOCKS
    ensures !Stops(o, lines, b.first, n)
  {
    hide Classify;
    forall reason ensures !Offends(o, lines, b.first, n, reason) {
      forall q ensures !SpoilsAt(o, lines, b.first, q, reason) {
        if SpoilsAt(o, lines, b.first, q, reason) {
          FirstNonText(lines, b.first + 1, b.last, q);
        }
      }
    }
  }

  // Two readings that start at one line and stop for good agree on the first block, if any.
  lemma SameHead(
      o: Oracles, lines: seq<bytes>, from: nat, n: nat,
      blocks: seq<Block>, store: seq<bytes>, to: nat, blocks': seq<Block>, store': seq<bytes>, to': nat)
    requires Bundle(lines, from, blocks, to) && AllAdded(o, lines, blocks, store)
    requires Bundle(lines, from, blocks', to') && AllAdded(o, lines, blocks', store')
    requires n + |blocks| <= MAX_BLOCKS + 1 && n + |blocks'| <= MAX_BLOCKS + 1
    requires blocks == [] ==> Stops(o, lines, to, n)
    requires blocks' == [] ==> Stops(o, lines, to', n)
    ensures blocks == [] <==> blocks' == []
    ensures if blocks == [] then to == to' else blocks[0] == blocks'[0] && store[0] == store'[0]
  {
    hide Classify, Stops, Added, TextLines;
    if blocks == [] {
      StopsAtNonText(o, lines, to, n);
    } else {
      AddedNoOffence(o, lines, blocks[0], store[0], n);
    }
    if blocks' == [] {
      StopsAtNonText(o, lines, to', n);
    } else {
      AddedNoOffence(o, lines, blocks'[0], store'[0], n);
    }
    var i := if blocks == [] then to else blocks[0].first;
    var j := if blocks' == [] then to' else blocks'[0].first;
    FirstNonText(lines, from, i, j);
    if blocks != [] {
      FirstNonText(lines, i + 1, blocks[0].last, blocks'[0].last);
      SameDer(o, lines, blocks[0], store[0], store'[0]);
    }
  }

  lemma {:induction false} OneReading(
      o: Oracles, lines: seq<bytes>, from: nat, n: nat,
      blocks: seq<Block>, store: seq<bytes>, to: nat, blocks': seq<Block>, store': seq<bytes>, to': nat)
    requires Bundle(lines, from, blocks, to) && AllAdded(o, lines, blocks, store)
    requires Bundle(lines, from, blocks', to') && AllAdded(o, lines, blocks', store')
    requires n + |blocks| <= MAX_BLOCKS + 1 && n + |blocks'| <= MAX_BLOCKS + 1
    requires Stops(o, lines, to, n + |blocks|) && Stops(o, lines, to', n + |blocks'|)
    ensures blocks == blocks' && store == store' && to == to'
    decreases |blocks|
  {
    hide Classify, Stops, Added, TextLines, IsBlock;
    SameHead(o, lines, from, n, blocks, store, to, blocks', store', to');
    if blocks != [] {
      OneReading(o, lines, blocks[0].last + 1, n + 1, blocks[1..], store[1..], to, blocks'[1..], store'[1..], to');
      assert blocks == [blocks[0]] + blocks[1..] && blocks' == [blocks[0]] + blocks'[1..];
      assert store == [store[0]] + store[1..] && store' == [store[0]] + store'[1..];
    }
  }

  lemma SameDer(o: Oracles, lines: seq<bytes>, b: Block, der: bytes, der': bytes)
    requires Added(o, lines, b, der) && Added(o, lines, b, der')
    ensures der == der'
  {
  }

  lemma OneReason(o: Oracles, lines: seq<bytes>, at: nat, n: nat, reason: Reason, reason': Reason)
    requires Offends(o, lines, at, n, reason) && Offends(o, lines, at, n, reason')
    ensures reason == reason'
  {
    hide Classify, BlockText;
    var kind := Classify(lines[at]);
    if kind.Begin? && n <= MAX_BLOCKS && kind.name == CERTIFICATE_LABEL {
      var q :| SpoilsAt(o, lines, at, q, reason);
      var q' :| SpoilsAt(o, lines, at, q', reason');
      FirstNonText(lines, at + 1, q, q');
    }
  }

  // How far the rules read the lines, for any of the three verdicts.
  lemma Reading(o: Oracles, pem: bytes, v: Verdict<seq<bytes>>)
      returns (blocks: seq<Block>, store: seq<bytes>, at: nat)
    requires |pem| <= MAX_INPUT_BYTES && Rules(o, pem, v)
    ensures var lines := Lines(pem);
      && ReadUpTo(o, lines, blocks, store, at) && Stops(o, lines, at, |blocks| + 1)
      && match v
         case Trusts(s) => at == |lines| && blocks != [] && s == store
         case Refuses(TrustError(None, reason)) => at == |lines| && blocks == [] && reason == NoCertificates
         case Refuses(TrustError(Some(n), reason)) =>
           n == |blocks| + 1 && Offends(o, lines, at, n, reason)
  {
    hide Offends, Bundle, TextLines, Lines;
    var lines := Lines(pem);
    match v
    case Trusts(s) =>
      blocks :| blocks != [] && ReadUpTo(o, lines, blocks, s, |lines|);
      store, at := s, |lines|;
    case Refuses(TrustError(None, _)) =>
      blocks, store, at := [], [], |lines|;
      EmptyBundle(lines, at);
    case Refuses(TrustError(Some(n), reason)) =>
      blocks, store, at :|
        ReadUpTo(o, lines, blocks, store, at) && n == |blocks| + 1 && Offends(o, lines, at, n, reason);
  }

  lemma EmptyBundle(lines: seq<bytes>, at: nat)
    ensures Bundle(lines, 0, [], at) <==> TextLines(lines, 0, at)
  {
  }

  // No input has two verdicts. So the scanner, which keeps the rules, accepts exactly the
  // inputs they accept, with exactly their certificates, and names their first offence.
  lemma OneVerdict(o: Oracles, pem: bytes, v: Verdict<seq<bytes>>, v': Verdict<seq<bytes>>)
    requires Rules(o, pem, v) && Rules(o, pem, v')
    ensures v == v'
  {
    hide Rules, Offends, Bundle, AllAdded, Lines;
    if |pem| > MAX_INPUT_BYTES {
      assert v == v' by { TooLargeOnly(o, pem, v); TooLargeOnly(o, pem, v'); }
    } else {
      var lines := Lines(pem);
      var blocks, store, at := Reading(o, pem, v);
      var blocks', store', at' := Reading(o, pem, v');
      OneReading(o, lines, 0, 1, blocks, store, at, blocks', store', at');
      if at == |lines| {
        NoOffenceAtEnd(o, lines, |blocks| + 1);
      } else {
        OneReason(o, lines, at, |blocks| + 1, v.error.reason, v'.error.reason);
      }
    }
  }

  lemma TooLargeOnly(o: Oracles, pem: bytes, v: Verdict<seq<bytes>>)
    requires |pem| > MAX_INPUT_BYTES && Rules(o, pem, v)
    ensures v == Refuses(Whole(TooLarge))
  {
  }

  lemma NoOffenceAtEnd(o: Oracles, lines: seq<bytes>, n: nat)
    ensures forall reason :: !Offends(o, lines, |lines|, n, reason)
  {
  }

  // ---------------------------------------------------------------------------
  // What a bundle is
  // ---------------------------------------------------------------------------

  ghost predicate IsBoundary(blocks: seq<Block>, k: nat) {
    exists i :: 0 <= i < |blocks| && (k == blocks[i].first || k == blocks[i].last)
  }

  lemma BoundaryLater(blocks: seq<Block>, k: nat)
    requires blocks != [] && IsBoundary(blocks[1..], k)
    ensures IsBoundary(blocks, k)
  {
    var i :| 0 <= i < |blocks[1..]| && (k == blocks[1..][i].first || k == blocks[1..][i].last);
    assert blocks[i + 1] == blocks[1..][i];
  }

  // Blocks come in order and do not overlap.
  lemma {:induction false} InOrder(lines: seq<bytes>, from: nat, blocks: seq<Block>, to: nat)
    requires Bundle(lines, from, blocks, to)
    ensures from <= to <= |lines|
    ensures forall i :: 0 <= i < |blocks| ==> from <= blocks[i].first < blocks[i].last < to
    ensures forall i, j :: 0 <= i < j < |blocks| ==> blocks[i].last < blocks[j].first
    decreases |blocks|
  {
    hide Classify;
    if blocks != [] {
      InOrder(lines, blocks[0].last + 1, blocks[1..], to);
      assert forall i :: 0 < i < |blocks| ==> blocks[i] == blocks[1..][i - 1];
    }
  }

  // Every line that is not text begins or ends a block: nothing that looks like a boundary was
  // skipped.
  lemma {:induction false} NothingSkipped(lines: seq<bytes>, from: nat, blocks: seq<Block>, to: nat, k: nat)
    requires Bundle(lines, from, blocks, to) && from <= k < to <= |lines| && !Classify(lines[k]).Text?
    ensures IsBoundary(blocks, k)
    decreases |blocks|
  {
    hide Classify;
    var b := blocks[0];
    if k > b.last {
      NothingSkipped(lines, b.last + 1, blocks[1..], to, k);
      BoundaryLater(blocks, k);
    } else {
      assert k == blocks[0].first || k == blocks[0].last;
    }
  }

  lemma {:induction false} BundleText(lines: seq<bytes>, from: nat, blocks: seq<Block>, to: nat)
    requires Bundle(lines, from, blocks, to) && to < |lines| && Classify(lines[to]).Text?
    ensures Bundle(lines, from, blocks, to + 1)
    decreases |blocks|
  {
    hide Classify;
    if blocks != [] {
      BundleText(lines, blocks[0].last + 1, blocks[1..], to);
    }
  }

  lemma {:induction false} BundleSnoc(lines: seq<bytes>, from: nat, blocks: seq<Block>, b: Block)
    requires Bundle(lines, from, blocks, b.first) && IsBlock(lines, b)
    ensures Bundle(lines, from, blocks + [b], b.last + 1)
    decreases |blocks|
  {
    hide Classify, IsBlock;
    if blocks == [] {
      assert ([b] + [])[1..] == [];
      assert IsBlock(lines, b) ==> b.last < |lines| by { BlockInside(lines, b); }
      assert [] + [b] == [b] && [b][1..] == [];
      assert TextLines(lines, b.last + 1, b.last + 1);
      assert Bundle(lines, b.last + 1, [b][1..], b.last + 1);
    } else {
      BundleSnoc(lines, blocks[0].last + 1, blocks[1..], b);
      assert (blocks + [b])[1..] == blocks[1..] + [b];
    }
  }

  lemma BlockInside(lines: seq<bytes>, b: Block)
    requires IsBlock(lines, b)
    ensures b.first < b.last < |lines|
  {
  }

  // ---------------------------------------------------------------------------
  // The scanner
  // ---------------------------------------------------------------------------

  lemma {:induction false} ConcatSplit(parts: seq<bytes>, k: nat)
    requires k <= |parts|
    ensures Concat(parts) == Concat(parts[..k]) + Concat(parts[k..])
  {
    if k > 0 {
      ConcatSplit(parts[1..], k - 1);
      assert parts[..k][1..] == parts[1..][..k - 1] && parts[1..][k - 1..] == parts[k..];
      Assoc(parts[0], Concat(parts[1..][..k - 1]), Concat(parts[k..]));
    } else {
      assert parts[..0] == [] && parts[0..] == parts;
    }
  }

  // The byte at which line k starts.
  function Offset(lines: seq<bytes>, k: nat): nat
    requires k <= |lines|
  {
    |Concat(lines[..k])|
  }

  lemma OffsetNext(lines: seq<bytes>, k: nat)
    requires k < |lines|
    ensures Offset(lines, k + 1) == Offset(lines, k) + |lines[k]|
  {
    ConcatSnoc(lines[..k], lines[k]);
    assert lines[..k + 1] == lines[..k] + [lines[k]];
  }

  // The bytes between two line starts are the lines between them.
  lemma SliceIsLines(pem: bytes, i: nat, j: nat)
    requires i <= j <= |Lines(pem)|
    ensures var lines := Lines(pem);
      Offset(lines, i) <= Offset(lines, j) <= |pem| && pem[Offset(lines, i)..Offset(lines, j)] == Concat(lines[i..j])
  {
    hide Lines, Concat;
    var lines := Lines(pem);
    LinesOfText(pem);
    ConcatSplit(lines, j);
    ConcatSplit(lines[..j], i);
    assert lines[..j][..i] == lines[..i] && lines[..j][i..] == lines[i..j];
  }

  lemma BlockIsSlice(pem: bytes, b: Block)
    requires b.first <= b.last < |Lines(pem)|
    ensures var lines := Lines(pem);
      && Offset(lines, b.first) <= Offset(lines, b.last + 1) <= |pem|
      && pem[Offset(lines, b.first)..Offset(lines, b.last + 1)] == BlockText(lines, b)
  {
    hide Lines, Offset;
    SliceIsLines(pem, b.first, b.last + 1);
  }

  lemma AddedSnoc(o: Oracles, lines: seq<bytes>, blocks: seq<Block>, store: seq<bytes>, b: Block, der: bytes)
    requires AllAdded(o, lines, blocks, store)
    requires b.first <= b.last < |lines| && o.decode(BlockText(lines, b)) == Some(der) && o.add(der)
    ensures AllAdded(o, lines, blocks + [b], store + [der])
  {
    hide BlockText;
  }

  method ParseCustom(o: Oracles, pem: bytes) returns (r: Verdict<seq<bytes>>)
    ensures Rules(o, pem, r)
  {
    hide Classify, Lines, Bundle, BlockText, Added;
    if |pem| > MAX_INPUT_BYTES {
      return Refuses(Whole(TooLarge));
    }
    var store: seq<bytes> := [];
    var blocks, offset := 0, 0;
    var lines := Lines(pem);
    var next := 0;
    ghost var read: seq<Block> := [];
    EmptyBundle(lines, 0);
    while next < |lines|
      invariant next <= |lines| && offset == Offset(lines, next) && blocks == |read|
      invariant ReadUpTo(o, lines, read, store, next)
      decreases |lines| - next
    {
      ghost var at := next;
      var line, start := lines[next], offset;
      OffsetNext(lines, next);
      next := next + 1;
      offset := offset + |line|;
      var kind := Classify(line);
      if kind.Text? {
        BundleText(lines, 0, read, at);
        continue;
      }
      if !kind.Begin? {
        return Refuses(At(blocks + 1, MisplacedBoundary));
      }
      blocks := blocks + 1;
      if blocks > MAX_BLOCKS {
        return Refuses(At(blocks, TooManyBlocks));
      }
      if kind.name != CERTIFICATE_LABEL {
        return Refuses(At(blocks, NotACertificate));
      }
      var end: Option<nat> := None;
      while next < |lines|
        invariant at < next <= |lines| && offset == Offset(lines, next)
        invariant TextLines(lines, at + 1, next) && end.None?
        decreases |lines| - next
      {
        var bodyLine := lines[next];
        OffsetNext(lines, next);
        next := next + 1;
        offset := offset + |bodyLine|;
        match Classify(bodyLine) {
          case Text =>
          case EndCertificate =>
            end := Some(offset);
            break;
          case Begin(_) =>
            assert SpoilsAt(o, lines, at, next - 1, Unterminated);
            return Refuses(At(blocks, Unterminated));
          case Misplaced =>
            assert SpoilsAt(o, lines, at, next - 1, MisplacedBoundary);
            return Refuses(At(blocks, MisplacedBoundary));
        }
      }
      if end.None? {
        assert SpoilsAt(o, lines, at, |lines|, Unterminated);
        return Refuses(At(blocks, Unterminated));
      }
      ghost var b := Block(at, next - 1);
      BlockIsSlice(pem, b);
      var block := pem[start..end.value];
      var der := o.decode(block);
      if der.None? {
        assert SpoilsAt(o, lines, at, next - 1, MalformedBase64);
        return Refuses(At(blocks, MalformedBase64));
      }
      if !o.add(der.value) {
        assert SpoilsAt(o, lines, at, next - 1, RejectedByRootStore);
        return Refuses(At(blocks, RejectedByRootStore));
      }
      AddedSnoc(o, lines, read, store, b, der.value);
      store := store + [der.value];
      BundleSnoc(lines, 0, read, b);
      read := read + [b];
    }
    if blocks == 0 {
      EmptyBundle(lines, next);
      return Refuses(Whole(NoCertificates));
    }
    return Trusts(store);
  }

  datatype TrustAnchors = Bundled | Custom(pem: bytes)

  // No store means the adapter's bundled roots. Input that is refused never falls back to them.
  method Resolve(o: Oracles, trust: TrustAnchors) returns (r: Verdict<Option<seq<bytes>>>)
    ensures r == Trusts(None) <==> trust.Bundled?
    ensures trust.Custom? && r.Trusts? ==> r.value.Some? && Rules(o, trust.pem, Trusts(r.value.value))
    ensures trust.Custom? && r.Refuses? ==> Rules(o, trust.pem, Refuses(r.error))
  {
    match trust
    case Bundled =>
      return Trusts(None);
    case Custom(pem) =>
      var parsed := ParseCustom(o, pem);
      match parsed
      case Trusts(store) =>
        return Trusts(Some(store));
      case Refuses(e) =>
        return Refuses(e);
  }
}
