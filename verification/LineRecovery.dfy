/** Recovering a line range from a verbatim match of a document's text in its file. */
module LineRecovery {
  import opened Text

  datatype Lines = Lines(start: nat, end: nat)

  function Newlines(s: string): nat {
    if s == "" then 0 else (if s[0] == '\n' then 1 else 0) + Newlines(s[1..])
  }

  /** Where the text of `content` is found: verbatim, or failing that without surrounding blanks. */
  datatype Found = Found(off: nat, matched: string)

  function Locate(content: string, file: string): (r: Option<Found>)
    ensures r.Some? ==> MatchAt(file, r.value.matched, r.value.off)
    ensures r.Some? ==> forall i | 0 <= i < r.value.off :: !MatchAt(file, r.value.matched, i)
  {
    match Find(file, content, 0)
    case Some(off) => Some(Found(off, content))
    case None =>
      match Find(file, Strip(content), 0)
      case Some(off) => Some(Found(off, Strip(content)))
      case None => None
  }

  /** `recover_lines`: 1-based, inclusive. A missing file is `None`. */
  function RecoverLines(content: string, file: Option<string>): Option<Lines> {
    if Strip(content) == "" || file.None? then None
    else
      match Locate(content, file.value)
      case None => None
      case Some(f) =>
        var start := Newlines(file.value[..f.off]) + 1;
        Some(Lines(start, start + Newlines(f.matched)))
  }

  // ---- the newline-split file ----

  /** The lines of `s`, Python's `s.split("\n")`. */
  function LinesOf(s: string): (ls: seq<string>)
    ensures |ls| > 0
  {
    Split(s, "\n")
  }

  /** The offset at which line `k`, counted from 0, begins. */
  function OffsetOf(ls: seq<string>, k: nat): nat
    requires k <= |ls|
  {
    if k == 0 then 0 else |ls[0]| + 1 + OffsetOf(ls[1..], k - 1)
  }

  /** The lines `first` to `last`, counted from 1, contain everything in `[off, off + len)`. */
  predicate Covers(ls: seq<string>, first: nat, last: nat, off: nat, len: nat)
    requires 1 <= first <= last <= |ls|
  {
    OffsetOf(ls, first - 1) <= off && off + len <= OffsetOf(ls, last - 1) + |ls[last - 1]|
  }

  lemma {:induction false} NewlinesAppend(a: string, b: string)
    ensures Newlines(a + b) == Newlines(a) + Newlines(b)
  {
    if a == "" {
      assert a + b == b;
    } else {
      assert (a + b)[1..] == a[1..] + b;
      NewlinesAppend(a[1..], b);
    }
  }

  lemma {:induction false} NoNewlines(s: string)
    requires forall i | 0 <= i < |s| :: s[i] != '\n'
    ensures Newlines(s) == 0
  {
    if s != "" { NoNewlines(s[1..]); }
  }

  /** The first line ends at the first newline. */
  lemma FirstLine(s: string) returns (i: nat)
    ensures i <= |s| && forall k | 0 <= k < i :: s[k] != '\n'
    ensures i == |s| ==> LinesOf(s) == [s]
    ensures i < |s| ==> s[i] == '\n' && LinesOf(s) == [s[..i]] + LinesOf(s[i + 1..])
  {
    match Find(s, "\n", 0)
    case None =>
      i := |s|;
      forall k: nat | k < i ensures s[k] != '\n' { OneCharMatch(s, '\n', k); }
    case Some(m) =>
      i := m;
      OneCharMatch(s, '\n', i);
      forall k: nat | k < i ensures s[k] != '\n' { OneCharMatch(s, '\n', k); }
  }

  lemma RestSlice(s: string, a: nat, k: nat)
    requires a + k <= |s|
    ensures s[a..][..k] == s[a..a + k]
  {
    forall j | 0 <= j < k ensures s[a..][..k][j] == s[a..a + k][j] {
      assert s[a..][j] == s[a + j];
    }
  }

  lemma NewlinesUpTo(s: string, i: nat, x: nat)
    requires i <= |s| && x <= |s| && forall k | 0 <= k < i :: s[k] != '\n'
    ensures x <= i ==> Newlines(s[..x]) == 0
    ensures x > i ==> s[i] == '\n' ==> Newlines(s[..x]) == 1 + Newlines(s[i + 1..][..x - i - 1])
  {
    NoNewlines(s[..if x <= i then x else i]);
    if x > i && s[i] == '\n' {
      var tail := s[i + 1..][..x - i - 1];
      RestSlice(s, i + 1, x - i - 1);
      assert s[..x] == s[..i] + (['\n'] + s[i + 1..x]);
      NewlinesAppend(s[..i], ['\n'] + tail);
      assert (['\n'] + tail)[1..] == tail;
    }
  }

  lemma {:induction false} LineCount(s: string)
    ensures |LinesOf(s)| == Newlines(s) + 1
    decreases |s|
  {
    var i := FirstLine(s);
    NewlinesUpTo(s, i, |s|);
    assert s[..|s|] == s;
    if i < |s| {
      assert s[i + 1..][..|s| - i - 1] == s[i + 1..];
      LineCount(s[i + 1..]);
    }
  }

  /** Line `k` begins at or before position `x` iff at least `k` newlines precede `x`. */
  lemma {:induction false} BeginsBefore(s: string, k: nat, x: nat)
    requires k < |LinesOf(s)| && x <= |s|
    ensures OffsetOf(LinesOf(s), k) <= x <==> k <= Newlines(s[..x])
    decreases |s|
  {
    var i := FirstLine(s);
    NewlinesUpTo(s, i, x);
    if k > 0 {
      assert LinesOf(s)[1..] == LinesOf(s[i + 1..]);
      if x > i { BeginsBefore(s[i + 1..], k - 1, x - i - 1); }
    }
  }

  /** Line `k` ends at or after position `x` iff at most `k` newlines precede `x`. */
  lemma {:induction false} EndsAfter(s: string, k: nat, x: nat)
    requires k < |LinesOf(s)| && x <= |s|
    ensures x <= OffsetOf(LinesOf(s), k) + |LinesOf(s)[k]| <==> Newlines(s[..x]) <= k
    decreases |s|
  {
    var i := FirstLine(s);
    NewlinesUpTo(s, i, x);
    if k > 0 {
      assert LinesOf(s)[1..] == LinesOf(s[i + 1..]);
      if x > i { EndsAfter(s[i + 1..], k - 1, x - i - 1); }
    }
  }

  /** Lines `a` to `b`, joined again, are the stretch of `s` from where line `a` begins to where `b` ends. */
  predicate Stretch(s: string, ls: seq<string>, a: nat, b: nat)
    requires a <= b < |ls|
  {
    && OffsetOf(ls, a) <= OffsetOf(ls, b) + |ls[b]| <= |s|
    && Join(ls[a..b + 1], "\n") == s[OffsetOf(ls, a)..OffsetOf(ls, b) + |ls[b]|]
  }

  lemma JoinFirst(ls: seq<string>)
    requires |ls| > 1
    ensures Join(ls, "\n") == ls[0] + "\n" + Join(ls[1..], "\n")
  {
  }

  lemma StretchFromNext(p: string, t: string, ls: seq<string>, a: nat, b: nat)
    requires a <= b < |ls| && Stretch(t, ls, a, b)
    ensures Stretch(p + "\n" + t, [p] + ls, a + 1, b + 1)
  {
    assert ([p] + ls)[1..] == ls;
    assert ([p] + ls)[a + 1..b + 2] == ls[a..b + 1];
    var i, j := OffsetOf(ls, a), OffsetOf(ls, b) + |ls[b]|;
    hide Stretch, OffsetOf;
    assert (p + "\n" + t)[|p| + 1..] == t;
    assert (p + "\n" + t)[|p| + 1 + i..|p| + 1 + j] == t[i..j];
  }

  lemma StretchFromFirst(p: string, t: string, ls: seq<string>, b: nat)
    requires b < |ls| && Stretch(t, ls, 0, b)
    ensures Stretch(p + "\n" + t, [p] + ls, 0, b + 1)
  {
    var all := [p] + ls;
    assert all[1..] == ls;
    assert all[0..b + 2][1..] == ls[0..b + 1];
    JoinFirst(all[0..b + 2]);
    var j := OffsetOf(ls, b) + |ls[b]|;
    hide Stretch;
    assert (p + "\n" + t)[..|p| + 1 + j] == p + "\n" + t[..j];
  }

  lemma FirstStretch(s: string)
    ensures Stretch(s, LinesOf(s), 0, 0)
  {
    var i := FirstLine(s);
    assert LinesOf(s)[0..1] == [LinesOf(s)[0]];
    hide LinesOf;
  }

  lemma {:induction false} JoinedLines(s: string, a: nat, b: nat)
    requires a <= b < |LinesOf(s)|
    ensures Stretch(s, LinesOf(s), a, b)
    decreases |s|
  {
    if b == 0 {
      FirstStretch(s);
    } else {
      hide LinesOf, Stretch, OffsetOf;
      var i := FirstLine(s);
      JoinedLines(s[i + 1..], if a == 0 then 0 else a - 1, b - 1);
      assert s == s[..i] + "\n" + s[i + 1..];
      if a == 0 {
        StretchFromFirst(s[..i], s[i + 1..], LinesOf(s[i + 1..]), b - 1);
      } else {
        StretchFromNext(s[..i], s[i + 1..], LinesOf(s[i + 1..]), a - 1, b - 1);
      }
    }
  }

  lemma MatchInPiece(s: string, sub: string, off: nat, from: nat, to: nat)
    requires MatchAt(s, sub, off) && from <= off && off + |sub| <= to <= |s|
    ensures MatchAt(s[from..to], sub, off - from)
  {
    var t, d := s[from..to], off - from;
    forall k | 0 <= k < |sub| ensures t[d..d + |sub|][k] == sub[k] {
      assert sub[k] == s[off..off + |sub|][k] == s[off + k] == t[d + k];
    }
  }

  /** The range `r` is inside the file, and its lines joined again contain the match `f` where the file does. */
  predicate Holds(file: string, r: Lines, f: Found) {
    && 1 <= r.start <= r.end <= |LinesOf(file)|
    && OffsetOf(LinesOf(file), r.start - 1) <= f.off
    && MatchAt(Join(LinesOf(file)[r.start - 1..r.end], "\n"), f.matched, f.off - OffsetOf(LinesOf(file), r.start - 1))
  }

  lemma StretchHolds(s: string, ls: seq<string>, sub: string, off: nat, a: nat, b: nat)
    requires a <= b < |ls| && Stretch(s, ls, a, b) && MatchAt(s, sub, off)
    requires OffsetOf(ls, a) <= off && off + |sub| <= OffsetOf(ls, b) + |ls[b]|
    ensures MatchAt(Join(ls[a..b + 1], "\n"), sub, off - OffsetOf(ls, a))
  {
    hide OffsetOf;
    MatchInPiece(s, sub, off, OffsetOf(ls, a), OffsetOf(ls, b) + |ls[b]|);
  }

  /** Lines that cover a match, joined again, contain the matched text. */
  lemma CoveringLinesHold(file: string, sub: string, off: nat, first: nat, last: nat)
    requires MatchAt(file, sub, off)
    requires 1 <= first <= last <= |LinesOf(file)|
    requires Covers(LinesOf(file), first, last, off, |sub|)
    ensures Holds(file, Lines(first, last), Found(off, sub))
  {
    hide LinesOf, OffsetOf, Stretch;
    JoinedLines(file, first - 1, last - 1);
    StretchHolds(file, LinesOf(file), sub, off, first - 1, last - 1);
  }

  /** The newlines before the match, inside it and after it. */
  lemma NewlinesAround(s: string, sub: string, off: nat)
    requires MatchAt(s, sub, off)
    ensures Newlines(s[..off + |sub|]) == Newlines(s[..off]) + Newlines(sub) <= Newlines(s)
  {
    var stop := off + |sub|;
    assert s[..stop] == s[..off] + sub;
    NewlinesAppend(s[..off], sub);
    assert s == s[..stop] + s[stop..];
    NewlinesAppend(s[..stop], s[stop..]);
  }

  /** Among the line ranges of `file`, exactly those around the lines counted at `off` cover a match at `off`. */
  lemma CoversIff(file: string, sub: string, off: nat, first: nat, last: nat)
    requires MatchAt(file, sub, off)
    requires 1 <= first <= last <= |LinesOf(file)|
    ensures Covers(LinesOf(file), first, last, off, |sub|) <==>
            first <= Newlines(file[..off]) + 1 && Newlines(file[..off]) + Newlines(sub) + 1 <= last
  {
    hide LinesOf, OffsetOf, Newlines;
    NewlinesAround(file, sub, off);
    BeginsBefore(file, first - 1, off);
    EndsAfter(file, last - 1, off + |sub|);
  }

  lemma CountedLinesHold(file: string, f: Found)
    requires MatchAt(file, f.matched, f.off)
    ensures var start := Newlines(file[..f.off]) + 1;
            Holds(file, Lines(start, start + Newlines(f.matched)), f)
  {
    var start := Newlines(file[..f.off]) + 1;
    var end := start + Newlines(f.matched);
    hide Newlines, LinesOf, OffsetOf, Covers, Holds;
    NewlinesAround(file, f.matched, f.off);
    LineCount(file);
    CoversIff(file, f.matched, f.off, start, end);
    CoveringLinesHold(file, f.matched, f.off, start, end);
  }

  /** The recovered range is inside the file, and its lines joined again contain the matched text. */
  lemma RecoveredRangeHolds(content: string, file: string)
    requires RecoverLines(content, Some(file)).Some?
    ensures Holds(file, RecoverLines(content, Some(file)).value, Locate(content, file).value)
  {
    hide Locate, Holds, Newlines;
    CountedLinesHold(file, Locate(content, file).value);
  }

  /** Among all line ranges of the file, exactly those that include the recovered one cover the first
      occurrence of the matched text: no shorter range does. */
  lemma RecoveredRangeIsMinimal(content: string, file: string, first: nat, last: nat)
    requires RecoverLines(content, Some(file)).Some?
    requires 1 <= first <= last <= |LinesOf(file)|
    ensures var r, f := RecoverLines(content, Some(file)).value, Locate(content, file).value;
            Covers(LinesOf(file), first, last, f.off, |f.matched|) <==> first <= r.start && r.end <= last
  {
    var f := Locate(content, file).value;
    assert MatchAt(file, f.matched, f.off);
    hide Locate, Covers, LinesOf, OffsetOf, Newlines;
    CoversIff(file, f.matched, f.off, first, last);
  }

  lemma FindNoneIff(s: string, sub: string)
    ensures Find(s, sub, 0).None? <==> forall i: nat :: !MatchAt(s, sub, i)
  {
    var r := Find(s, sub, 0);
    if r.None? {
      forall i: nat ensures !MatchAt(s, sub, i) {
        if i > |s| { assert i + |sub| > |s|; }
      }
    } else {
      assert MatchAt(s, sub, r.value);
    }
  }

  lemma LocateNoneIff(content: string, file: string)
    ensures Locate(content, file).None? <==> Find(file, content, 0).None? && Find(file, Strip(content), 0).None?
  {
  }

  /** No range is recovered exactly when the content is blank, the file is missing, or neither the
      content nor its stripped form occurs. */
  lemma NothingRecoveredIff(content: string, file: Option<string>)
    ensures RecoverLines(content, file).None? <==>
            || Blank(content) || file.None?
            || ((forall i: nat :: !MatchAt(file.value, content, i)) &&
                (forall i: nat :: !MatchAt(file.value, Strip(content), i)))
  {
    StripBlank(content);
    if file.Some? {
      FindNoneIff(file.value, content);
      FindNoneIff(file.value, Strip(content));
      LocateNoneIff(content, file.value);
      hide Locate, Newlines;
    }
  }

  /** What is located is the first occurrence of the content, or failing that of its stripped form. */
  lemma LocateFinds(content: string, file: string)
    ensures match Locate(content, file)
            case Some(f) =>
              && MatchAt(file, f.matched, f.off) && (forall i | 0 <= i < f.off :: !MatchAt(file, f.matched, i))
              && (f.matched == content || (f.matched == Strip(content) && forall i: nat :: !MatchAt(file, content, i)))
            case None => forall i: nat :: !MatchAt(file, content, i) && !MatchAt(file, Strip(content), i)
  {
    FindNoneIff(file, content);
    FindNoneIff(file, Strip(content));
  }
}
