/** From the delivered text to blocks: the wrapper, the separator and the legibility header. */
module BlockText {
  import opened Text
  import opened Citations
  import opened CitationsSafety

  const OPEN := "<expressed_context>"
  const CLOSE := "</expressed_context>"
  const SEP := "\n---\n"
  const HEADER_OPEN := "[gene="
  const ELISION_STUB := "see earlier response"

  function DropPrefix(s: string, prefix: string): string {
    if prefix <= s then s[|prefix|..] else s
  }

  function DropSuffix(s: string, suffix: string): string {
    if |suffix| <= |s| && s[|s| - |suffix|..] == suffix then s[..|s| - |suffix|] else s
  }

  /** `_strip_expressed_wrapper` */
  function StripWrapper(content: string): string {
    TrimNewlines(DropSuffix(DropPrefix(Strip(content), OPEN), CLOSE))
  }

  predicate IsHex(c: char) {
    '0' <= c <= '9' || 'a' <= c <= 'f' || 'A' <= c <= 'F'
  }

  predicate IsShortId(s: string) {
    8 <= |s| <= 16 && forall i | 0 <= i < |s| :: IsHex(s[i])
  }

  /** The end of the longest run of non-blank, non-bracket characters from `i` on. */
  function IdEnd(s: string, i: nat): (r: nat)
    requires i <= |s|
    ensures i <= r <= |s| && (r < |s| ==> IsSpace(s[r]) || s[r] == ']')
    ensures forall k | i <= k < r :: !IsSpace(s[k]) && s[k] != ']'
    decreases |s| - i
  {
    if i == |s| || IsSpace(s[i]) || s[i] == ']' then i else IdEnd(s, i + 1)
  }

  lemma HexDigits(id: string)
    ensures (forall i | 0 <= i < |id| :: IsHex(id[i])) <==> forall c | c in id :: c in "0123456789abcdefABCDEF"
  {
    var digits := "0123456789abcdefABCDEF";
    assert forall i | 0 <= i < |digits| :: IsHex(digits[i]);
    forall c | IsHex(c) ensures c in digits {
      var i := if c <= '9' then c as int - 48 else if c <= 'F' then c as int - 65 + 16 else c as int - 97 + 10;
      assert digits[i] == c;
    }
    assert forall c | c in digits :: IsHex(c);
  }

  datatype Header = Header(id: string, end: nat)

  /** A trusted header at the start of `s`: its captured id is hex-shaped. */
  function HeaderOf(s: string): (r: Option<Header>)
    ensures r.Some? ==> r.value.end <= |s| && IsShortId(r.value.id)
  {
    if !(HEADER_OPEN <= s) then None
    else
      var e := IdEnd(s, |HEADER_OPEN|);
      match Find(s, "]", e)
      case None => None
      case Some(k) => if IsShortId(s[|HEADER_OPEN|..e]) then Some(Header(s[|HEADER_OPEN|..e], k + 1)) else None
  }

  predicate IsStub(header: string) {
    Find(header, ELISION_STUB, 0).Some? || '\U{21BB}' in header
  }

  function ParseStripped(s: string): Block {
    match HeaderOf(s)
    case None => Block(None, s)
    case Some(h) =>
      Block(Some(h.id), if IsStub(s[..h.end]) then "" else LStripNewlines(s[h.end..]))
  }

  function ParseBlock(raw: string): Block {
    ParseStripped(Strip(raw))
  }

  function ParseAll(raws: seq<string>): (r: seq<Block>)
    ensures |r| == |raws| && forall i | 0 <= i < |raws| :: r[i] == ParseBlock(raws[i])
  {
    seq(|raws|, i requires 0 <= i < |raws| => ParseBlock(raws[i]))
  }

  function RawBlocks(content: string): seq<string> {
    var inner := StripWrapper(content);
    if inner == "" then [] else Split(inner, SEP)
  }

  function Blocks(content: string): seq<Block> {
    ParseAll(RawBlocks(content))
  }

  method ParseLoop(raws: seq<string>) returns (parsed: seq<Block>)
    ensures parsed == ParseAll(raws)
  {
    hide ParseBlock;
    parsed := [];
    for i := 0 to |raws|
      invariant |parsed| == i && forall k | 0 <= k < i :: parsed[k] == ParseBlock(raws[k])
    {
      parsed := parsed + [ParseBlock(raws[i])];
    }
  }

  /** `extract_block_bodies` on a response with citations; `parsed` is its list of blocks. */
  method ExtractBlockBodies(cits: seq<Citation>, content: string) returns (paired: seq<Paired>, parsed: seq<Block>)
    ensures parsed == Blocks(content)
    ensures |paired| == |cits|
    ensures forall ci | 0 <= ci < |cits| :: PairedWith(cits, parsed, ci, paired[ci])
  {
    hide StripWrapper, Split, ParseAll, PairedWith;
    var inner := StripWrapper(content);
    var rawBlocks := if inner != "" then Split(inner, SEP) else [];
    parsed := ParseLoop(rawBlocks);
    paired := PairBlocks(cits, parsed);
  }

  // ---- the renderer's side ----

  /** A document as delivered: in full, `meta` being what its header says after the short id, or, if the session
      has it already, as a bare header line that says when it was delivered. */
  datatype Doc = Full(geneId: string, meta: string, body: string) | Stub(geneId: string, when: string)

  function ShortId(geneId: string): string {
    if |geneId| <= 12 then geneId else geneId[..12]
  }

  function HeaderLine(id: string, meta: string): string {
    HEADER_OPEN + id + " " + meta + "]"
  }

  function Meta(d: Doc): string {
    match d
    case Full(_, meta, _) => meta
    case Stub(_, when) => "\U{21BB} delivered " + when + " \U{2014} see earlier response"
  }

  function Line(d: Doc): string {
    HeaderLine(ShortId(d.geneId), Meta(d))
  }

  /** What stands behind the header line. */
  function Behind(d: Doc): string {
    match d
    case Full(_, _, body) => "\n" + body
    case Stub(_, _) => ""
  }

  function Render(d: Doc): string {
    Line(d) + Behind(d)
  }

  function Wrap(parts: seq<string>): string {
    OPEN + "\n" + Join(parts, SEP) + "\n" + CLOSE
  }

  /** What a document's header says after the short id reads like a delivery mark. */
  ghost predicate SaysDelivered(meta: string) {
    || '\U{21BB}' in meta
    || exists i: nat :: MatchAt(meta, "see earlier response", i)
  }

  /** What is left of a document's body after delivery: it ends at the first separator it contains, surrounding
      blank space is lost, and a stub delivers nothing. */
  ghost function DeliveredBody(d: Doc): string {
    match d
    case Full(_, meta, body) =>
      if SaysDelivered(meta) then "" else LStripNewlines(RStrip(Split("\n" + body, SEP)[0]))
    case Stub(_, _) => ""
  }

  /** A hex-shaped short id, and no bracket or separator in the rest of the header. */
  ghost predicate WellFormed(d: Doc) {
    IsShortId(ShortId(d.geneId)) && ']' !in Meta(d) && forall i: nat :: !MatchAt(Meta(d), SEP, i)
  }

  /** A document whose header bears no delivery mark delivers its body up to the first separator, at `k`, without
      the newlines `a` in front of it and the blank text `z` behind it. */
  lemma BodyDelivered(d: Doc) returns (k: nat, a: string, z: string)
    requires d.Full? && !SaysDelivered(d.meta)
    ensures var text, delivered := "\n" + d.body, DeliveredBody(d);
            && k <= |text| && (k == |text| || MatchAt(text, SEP, k))
            && (forall i | 0 <= i < k :: !MatchAt(text, SEP, i))
            && text[..k] == a + delivered + z && (forall c | c in a :: c == '\n') && Blank(z)
            && (delivered != "" ==> delivered[0] != '\n' && !IsSpace(delivered[|delivered| - 1]))
  {
    var text := "\n" + d.body;
    var first := Split(text, SEP)[0];
    k := match Find(text, SEP, 0) case None => |text| case Some(i) => i;
    assert first == text[..k];
    a, z := EndsOff(first);
    hide Split, Find, MatchAt, Blank, IsSpace, LStripNewlines, RStrip, SaysDelivered;
  }

  /** A body without separators is delivered whole. */
  lemma WholeBody(d: Doc)
    requires d.Full? && !SaysDelivered(d.meta) && forall i: nat :: !MatchAt("\n" + d.body, SEP, i)
    ensures DeliveredBody(d) == LStripNewlines(RStrip("\n" + d.body))
  {
    NoSeparator("\n" + d.body, SEP);
  }

  lemma IdEndAt(s: string, i: nat, e: nat)
    requires i <= e < |s| && (IsSpace(s[e]) || s[e] == ']')
    requires forall k | i <= k < e :: !IsSpace(s[k]) && s[k] != ']'
    ensures IdEnd(s, i) == e
  {
  }

  lemma FirstBracket(s: string, e: nat, close: nat, meta: string)
    requires e < close < |s| && s[e] == ' ' && s[close] == ']' && s[e + 1..close] == meta && ']' !in meta
    ensures Find(s, "]", e) == Some(close)
  {
    forall k: nat | e <= k < close ensures !MatchAt(s, "]", k) {
      assert s[k] == if k == e then ' ' else s[e + 1..close][k - e - 1];
      OneCharMatch(s, ']', k);
    }
    OneCharMatch(s, ']', close);
    assert Find(s, "]", e).Some?;
  }

  lemma LineParts(id: string, meta: string, tail: string)
    ensures var s, n := HeaderLine(id, meta) + tail, |HEADER_OPEN|;
            var e, close := n + |id|, n + |id| + 1 + |meta|;
            && close < |s| && HEADER_OPEN <= s && s[n..e] == id && s[e] == ' '
            && s[e + 1..close] == meta && s[close] == ']' && |HeaderLine(id, meta)| == close + 1
  {
    var s, n := HeaderLine(id, meta) + tail, |HEADER_OPEN|;
    assert s == HEADER_OPEN + (id + " " + meta + "]" + tail);
  }

  /** What is captured from a header line, trusted or not. */
  lemma Captured(id: string, meta: string, tail: string)
    requires ']' !in meta && ']' !in id && forall c | c in id :: !IsSpace(c)
    ensures var s, n := HeaderLine(id, meta) + tail, |HEADER_OPEN|;
            && HEADER_OPEN <= s && IdEnd(s, n) == n + |id| <= |s| && s[n..n + |id|] == id
            && Find(s, "]", n + |id|) == Some(|HeaderLine(id, meta)| - 1)
  {
    LineParts(id, meta, tail);
    hide HeaderLine;
    var s, n := HeaderLine(id, meta) + tail, |HEADER_OPEN|;
    var e := n + |id|;
    forall k | n <= k < e ensures !IsSpace(s[k]) && s[k] != ']' {
      assert s[k] == s[n..e][k - n];
      assert s[k] in id;
    }
    IdEndAt(s, n, e);
    FirstBracket(s, e, e + 1 + |meta|, meta);
  }

  lemma HeaderIs(id: string, meta: string, tail: string)
    requires ']' !in meta && ']' !in id && forall c | c in id :: !IsSpace(c)
    ensures HeaderOf(HeaderLine(id, meta) + tail) ==
            if IsShortId(id) then Some(Header(id, |HeaderLine(id, meta)|)) else None
  {
    Captured(id, meta, tail);
    hide IdEnd, IsShortId, HeaderLine;
  }

  /** The header of a rendered document is found again, whatever follows it. */
  lemma HeaderFound(id: string, meta: string, tail: string)
    requires IsShortId(id) && ']' !in meta
    ensures HeaderOf(HeaderLine(id, meta) + tail) == Some(Header(id, |HeaderLine(id, meta)|))
  {
    forall c | c in id ensures !IsSpace(c) && c != ']' { assert IsHex(c); }
    hide HeaderOf, HeaderLine, IsShortId;
    HeaderIs(id, meta, tail);
  }

  /** Behind "[gene=" a header is trusted if and only if its id consists of 8 to 16 hexadecimal digits. */
  lemma HeaderTrustedIff(id: string, meta: string, tail: string)
    requires ']' !in meta && ']' !in id && forall c | c in id :: !IsSpace(c)
    ensures HeaderOf(HeaderLine(id, meta) + tail).Some? <==>
            8 <= |id| <= 16 && forall c | c in id :: c in "0123456789abcdefABCDEF"
  {
    hide IsHex, HeaderLine, HeaderOf;
    HeaderIs(id, meta, tail);
    HexDigits(id);
  }

  lemma HeaderIsVisible(id: string, meta: string)
    ensures var line := HeaderLine(id, meta);
            line != "" && !IsSpace(line[0]) && !IsSpace(line[|line| - 1])
  {
  }

  lemma LineChars(id: string, meta: string)
    requires IsShortId(id)
    ensures var line, n := HeaderLine(id, meta), |HEADER_OPEN| + |id| + 1;
            && |line| == n + |meta| + 1 && line[n + |meta|] == ']' && line[n..n + |meta|] == meta
            && forall j | 0 <= j < n :: line[j] !in ['\n', 's', '\U{21BB}']
  {
    var line, n := HeaderLine(id, meta), |HEADER_OPEN| + |id| + 1;
    forall j | 0 <= j < n ensures line[j] !in ['\n', 's', '\U{21BB}'] {
      if |HEADER_OPEN| <= j < n - 1 { assert line[j] == id[j - |HEADER_OPEN|]; }
    }
  }

  /** A separator begins with a newline and contains no bracket. */
  lemma OtherCharInMatch(s: string, i: nat, c: nat)
    requires i <= c < i + |SEP| <= |s| && (s[c] == ']' || (c == i && s[c] != '\n'))
    ensures !MatchAt(s, SEP, i)
  {
    assert s[i..i + |SEP|][c - i] == s[c];
    assert ']' !in SEP && SEP[0] == '\n';
  }

  /** A separator that begins in a header line would have to lie inside what follows the short id. */
  lemma NoSeparatorInLine(id: string, meta: string, x: string, i: nat)
    requires IsShortId(id) && i < |HeaderLine(id, meta)| && forall k: nat :: !MatchAt(meta, SEP, k)
    ensures !MatchAt(HeaderLine(id, meta) + x, SEP, i)
  {
    var line, n := HeaderLine(id, meta), |HEADER_OPEN| + |id| + 1;
    var s, close := line + x, n + |meta|;
    LineChars(id, meta);
    hide HeaderLine, IsShortId;
    if i + |SEP| <= |s| {
      assert s[i] == line[i];
      if i < n {
        OtherCharInMatch(s, i, i);
      } else if i + |SEP| > close {
        assert s[close] == line[close];
        OtherCharInMatch(s, i, close);
      } else {
        assert s[i..i + |SEP|] == line[n..close][i - n..i - n + |SEP|];
        assert !MatchAt(meta, SEP, i - n);
      }
    }
  }

  /** The first piece of a delivered document is its header line and what follows up to the first separator. */
  lemma RenderedFirstPiece(d: Doc)
    requires WellFormed(d)
    ensures Split(Render(d), SEP)[0] == Line(d) + Split(Behind(d), SEP)[0]
  {
    hide HeaderLine, IsShortId;
    forall i: nat | i < |Line(d)| ensures !MatchAt(Line(d) + Behind(d), SEP, i) {
      NoSeparatorInLine(ShortId(d.geneId), Meta(d), Behind(d), i);
    }
    SplitInFront(Line(d), Behind(d), SEP);
  }

  lemma HeadedBlock(raw: string)
    ensures var s := Strip(raw);
            match HeaderOf(s)
            case None => true
            case Some(h) =>
              ParseBlock(raw) == Block(Some(h.id), if IsStub(s[..h.end]) then "" else LStripNewlines(s[h.end..]))
  {
  }

  /** The renderer's line for a document the session has already bears a delivery mark. */
  lemma StubSaysDelivered(id: string, when: string)
    ensures SaysDelivered(Meta(Stub(id, when)))
  {
    assert Meta(Stub(id, when))[0] == '\U{21BB}';
  }

  lemma ArrowInLine(line: string, n: nat, meta: string)
    requires |line| == n + |meta| + 1 && line[n + |meta|] == ']' && line[n..n + |meta|] == meta
    requires forall j | 0 <= j < n :: line[j] !in ['\n', 's', '\U{21BB}']
    ensures '\U{21BB}' in line <==> '\U{21BB}' in meta
  {
    forall j | n <= j < n + |meta| ensures line[j] == meta[j - n] { assert line[n..n + |meta|][j - n] == line[j]; }
    forall j | 0 <= j < |meta| ensures meta[j] == line[j + n] { assert line[n..n + |meta|][j] == line[j + n]; }
  }

  /** The phrase cannot begin in front of what follows the short id, nor reach the closing bracket. */
  lemma PhraseInLine(id: string, meta: string, i: nat)
    requires IsShortId(id)
    ensures var line, n := HeaderLine(id, meta), |HEADER_OPEN| + |id| + 1;
            MatchAt(line, ELISION_STUB, i) <==> i >= n && MatchAt(meta, "see earlier response", i - n)
  {
    var line, n := HeaderLine(id, meta), |HEADER_OPEN| + |id| + 1;
    LineChars(id, meta);
    hide HeaderLine, IsShortId;
    if i + 20 <= |line| {
      var w := line[i..i + 20];
      if i < n {
        assert w[0] == line[i];
      } else if i + 20 > n + |meta| {
        assert w[n + |meta| - i] == ']' && ']' !in "see earlier response";
      } else {
        assert w == line[n..n + |meta|][i - n..i - n + 20];
      }
    }
  }

  /** A header line is taken for a stub if and only if what follows its short id bears a delivery mark. */
  lemma StubIff(id: string, meta: string)
    requires IsShortId(id)
    ensures IsStub(HeaderLine(id, meta)) <==> SaysDelivered(meta)
  {
    var line, n := HeaderLine(id, meta), |HEADER_OPEN| + |id| + 1;
    LineChars(id, meta);
    ArrowInLine(line, n, meta);
    var found := Find(line, ELISION_STUB, 0);
    if found.Some? { PhraseInLine(id, meta, found.value); }
    forall i: nat | MatchAt(meta, "see earlier response", i) ensures found.Some? {
      PhraseInLine(id, meta, i + n);
      assert MatchAt(line, ELISION_STUB, i + n);
    }
    hide HeaderLine, IsShortId, MatchAt;
  }

  lemma LinedPieceParses(id: string, meta: string, y: string)
    requires IsShortId(id) && ']' !in meta
    ensures ParseBlock(HeaderLine(id, meta) + y) ==
            Block(Some(id), if SaysDelivered(meta) then "" else LStripNewlines(RStrip(y)))
  {
    hide HeaderOf, IsStub, HeaderLine, ParseBlock, IsShortId, SaysDelivered;
    var line, tail := HeaderLine(id, meta), RStrip(y);
    HeaderIsVisible(id, meta);
    StripAfter(line, y);
    HeaderFound(id, meta, tail);
    HeadedBlock(line + y);
    StubIff(id, meta);
    assert (line + tail)[..|line|] == line && (line + tail)[|line|..] == tail;
  }

  /** The first piece of a delivered document, in full or as a stub, parses back to its short id and body. */
  lemma RenderedBlockParses(d: Doc)
    requires WellFormed(d)
    ensures ParseBlock(Split(Render(d), SEP)[0]) == Block(Some(ShortId(d.geneId)), DeliveredBody(d))
  {
    hide ParseBlock, HeaderLine, IsStub, IsShortId, ShortId, Render, SaysDelivered;
    RenderedFirstPiece(d);
    LinedPieceParses(ShortId(d.geneId), Meta(d), Split(Behind(d), SEP)[0]);
    if d.Stub? { StubSaysDelivered(d.geneId, d.when); }
  }

  lemma DropBoth(prefix: string, t: string, suffix: string)
    ensures DropSuffix(DropPrefix(prefix + t + suffix, prefix), suffix) == t
  {
    assert prefix + t + suffix == prefix + (t + suffix);
  }

  /** Unwrapping leaves the joined parts without newlines at their ends. */
  lemma WrapperStripped(parts: seq<string>)
    ensures StripWrapper(Wrap(parts)) == TrimNewlines(Join(parts, SEP))
  {
    var j, w := Join(parts, SEP), Wrap(parts);
    assert w[0] == '<' && w[|w| - 1] == '>';
    StripKeeps(w);
    hide DropPrefix, DropSuffix;
    assert w == OPEN + ("\n" + j + "\n") + CLOSE;
    DropBoth(OPEN, "\n" + j + "\n", CLOSE);
    NewlinesAroundTrimmed(j);
  }

  /** From an empty wrapper nothing is parsed. */
  lemma NothingWrapped()
    ensures Blocks(Wrap([])) == []
  {
    WrapperStripped([]);
    assert TrimNewlines("") == "";
    hide StripWrapper, Wrap;
  }

  lemma NothingTrimmed(j: string)
    requires j != "" && j[0] != '\n' && j[|j| - 1] != '\n'
    ensures TrimNewlines(j) == j
  {
  }

  /** Unwrapping undoes wrapping, and splitting undoes joining. */
  lemma WrappedPartsParse(parts: seq<string>)
    requires parts != [] && forall p | p in parts :: Unsplittable(p, SEP)
    requires var j := Join(parts, SEP); j != "" && j[0] != '\n' && j[|j| - 1] != '\n'
    ensures RawBlocks(Wrap(parts)) == parts
  {
    hide StripWrapper, Wrap;
    WrapperStripped(parts);
    NothingTrimmed(Join(parts, SEP));
    SplitJoin(parts, SEP);
  }

  lemma SameBlock(p: string, q: string)
    requires Strip(p) == Strip(q)
    ensures ParseBlock(p) == ParseBlock(q)
  {
    hide ParseStripped;
  }

  lemma SameBlocks(ps: seq<string>, qs: seq<string>)
    requires SamePieces(Strip, ps, qs)
    ensures ParseAll(ps) == ParseAll(qs)
  {
    hide ParseBlock;
    forall i | 0 <= i < |ps| ensures ParseBlock(ps[i]) == ParseBlock(qs[i]) { SameBlock(ps[i], qs[i]); }
  }

  /** In general the blocks are those of all pieces of all parts, when no part's end runs into the separator behind
      it and the outer pieces have text. */
  lemma WrappedPiecesParse(parts: seq<string>)
    requires parts != [] && forall i | 0 <= i < |parts| - 1 :: EndsClear(parts[i], SEP)
    requires var ps := AllPieces(parts, SEP); HasText(ps[0]) && HasText(ps[|ps| - 1])
    ensures Blocks(Wrap(parts)) == ParseAll(AllPieces(parts, SEP))
  {
    hide StripWrapper, Wrap, ParseAll;
    var j := Join(parts, SEP);
    WrapperStripped(parts);
    SplitParts(parts, SEP);
    SplitTrimmed(j, SEP);
    SameBlocks(Split(j, SEP), Split(TrimNewlines(j), SEP));
  }

  /** A block without a trusted header is kept whole, whatever it opens with. */
  lemma HeaderlessParses(raw: string)
    requires HeaderOf(Strip(raw)).None?
    ensures ParseBlock(raw) == Block(None, Strip(raw))
  {
  }

  lemma ShortIdJoins(a: string, b: string, block: Block)
    requires block.short == Some(ShortId(a)) && IsShortId(ShortId(a)) && IsShortId(ShortId(b))
    requires a == b || !(ShortId(a) <= b)
    ensures Joins(block, b) <==> a == b
  {
  }

  /** Where the documents' first pieces are among all pieces. */
  function Places(parts: seq<string>, place: seq<nat>): seq<nat>
    requires forall d | 0 <= d < |place| :: place[d] < |parts|
  {
    seq(|place|, d requires 0 <= d < |place| => Start(parts, SEP, place[d]))
  }

  function GeneIds(docs: seq<Doc>): seq<string> {
    seq(|docs|, d requires 0 <= d < |docs| => docs[d].geneId)
  }

  /** The documents are well formed, and no short id begins another document's id. */
  ghost predicate Unambiguous(docs: seq<Doc>) {
    && (forall d | 0 <= d < |docs| :: WellFormed(docs[d]))
    && forall d, e | 0 <= d < |docs| && 0 <= e < |docs| && d != e :: !(ShortId(docs[d].geneId) <= docs[e].geneId)
  }

  /** Each document is rendered at its place, and no other piece opens with a trusted header. */
  ghost predicate RenderedAt(docs: seq<Doc>, place: seq<nat>, parts: seq<string>) {
    && |place| == |docs|
    && (forall d | 0 <= d < |docs| :: place[d] < |parts| && parts[place[d]] == Render(docs[d]))
    && var ps := AllPieces(parts, SEP);
       forall b | 0 <= b < |ps| && b !in Places(parts, place) :: HeaderOf(Strip(ps[b])).None?
  }

  /** No part's end runs into the separator behind it, and the outer pieces have text. */
  ghost predicate Joinable(parts: seq<string>) {
    && parts != [] && (forall i | 0 <= i < |parts| - 1 :: EndsClear(parts[i], SEP))
    && var ps := AllPieces(parts, SEP); HasText(ps[0]) && HasText(ps[|ps| - 1])
  }

  lemma BlocksRecoverBodies(docs: seq<Doc>, at: seq<nat>, parsed: seq<Block>, cits: seq<Citation>, pick: seq<nat>)
    requires Unambiguous(docs)
    requires |at| == |docs| && forall d | 0 <= d < |docs| ::
               at[d] < |parsed| && parsed[at[d]] == Block(Some(ShortId(docs[d].geneId)), DeliveredBody(docs[d]))
    requires forall b | 0 <= b < |parsed| && b !in at :: parsed[b].short.None?
    requires Cites(cits, GeneIds(docs), pick)
    ensures forall ci: nat | ci < |cits| ::
              && pick[ci] < |docs|
              && BodyOf(parsed, BlockOf(cits, parsed, ci)) == DeliveredBody(docs[pick[ci]])
  {
    hide DeliveredBody, ShortId, IsShortId;
    var ids := GeneIds(docs);
    forall d, e | 0 <= d < |docs| && 0 <= e < |docs| ensures Joins(parsed[at[d]], ids[e]) <==> d == e {
      ShortIdJoins(docs[d].geneId, docs[e].geneId, parsed[at[d]]);
    }
    DroppedCitationsDoNotShift(cits, ids, pick, at, parsed);
  }

  /** End to end: documents with pairwise unambiguous short ids, rendered in full or as stubs, interleaved with other
      parts, joined and wrapped, no piece but the documents' first opening with a trusted header. Whatever citations
      the server dropped, each remaining one is paired with its own document's body. */
  lemma CitationsRecoverBodies(docs: seq<Doc>, place: seq<nat>, parts: seq<string>,
                               cits: seq<Citation>, pick: seq<nat>)
    requires Joinable(parts) && Unambiguous(docs) && RenderedAt(docs, place, parts)
    requires Cites(cits, GeneIds(docs), pick)
    ensures var parsed := Blocks(Wrap(parts));
            forall ci: nat | ci < |cits| ::
              && pick[ci] < |docs|
              && BodyOf(parsed, BlockOf(cits, parsed, ci)) == DeliveredBody(docs[pick[ci]])
  {
    hide Blocks, Wrap, Render, ParseBlock, DeliveredBody, HeaderOf, WellFormed, ShortId, IsShortId;
    var parsed, ps, at := Blocks(Wrap(parts)), AllPieces(parts, SEP), Places(parts, place);
    WrappedPiecesParse(parts);
    forall d | 0 <= d < |docs|
      ensures at[d] < |parsed| && parsed[at[d]] == Block(Some(ShortId(docs[d].geneId)), DeliveredBody(docs[d]))
    {
      StartsThere(parts, SEP, place[d]);
      RenderedBlockParses(docs[d]);
    }
    forall b: nat | b < |ps| && b !in at ensures parsed[b].short.None? { HeaderlessParses(ps[b]); }
    BlocksRecoverBodies(docs, at, parsed, cits, pick);
  }
}
