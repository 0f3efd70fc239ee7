/** Optional values, and the few character-level helpers several components share. */
module Text {

  datatype Option<+T> = None | Some(value: T)

  /** The ASCII whitespace that Python's `str.strip` removes. */
  predicate IsSpace(c: char) {
    c == ' ' || 9 <= c as int <= 13 || 28 <= c as int <= 31
  }

  predicate Blank(s: string) {
    forall c | c in s :: IsSpace(c)
  }

  function LStrip(s: string): (r: string)
    ensures r != "" ==> !IsSpace(r[0])
    ensures |r| <= |s| && s[|s| - |r|..] == r && Blank(s[..|s| - |r|])
  {
    if s != "" && IsSpace(s[0]) then
      var r := LStrip(s[1..]);
      assert s[..|s| - |r|] == [s[0]] + s[1..][..|s[1..]| - |r|];
      r
    else s
  }

  function RStrip(s: string): (r: string)
    ensures r != "" ==> !IsSpace(r[|r| - 1])
    ensures |r| <= |s| && s[..|r|] == r && Blank(s[|r|..])
  {
    if s != "" && IsSpace(s[|s| - 1]) then
      var r := RStrip(s[..|s| - 1]);
      assert s[|r|..] == s[..|s| - 1][|r|..] + [s[|s| - 1]];
      r
    else s
  }

  /** Python's `s.strip()`. */
  function Strip(s: string): string {
    RStrip(LStrip(s))
  }

  /** Text that neither begins nor ends with a blank is left alone. */
  lemma StripKeeps(s: string)
    requires s != "" && !IsSpace(s[0]) && !IsSpace(s[|s| - 1])
    ensures Strip(s) == s
  {
  }

  /** What surrounds the stripped text is blank. */
  lemma StripPieces(s: string) returns (a: string, z: string)
    ensures s == a + (Strip(s) + z) && Blank(a) && Blank(z)
  {
    hide LStrip, RStrip, Blank, IsSpace;
    var l := LStrip(s);
    var r := RStrip(l);
    a, z := s[..|s| - |l|], l[|r|..];
    assert s == a + s[|s| - |l|..];
    assert l == l[..|r|] + z;
  }

  /** Stripping a non-blank text leaves something. */
  lemma StripBlank(s: string)
    ensures Strip(s) == "" <==> Blank(s)
  {
    var l := LStrip(s);
    if l == "" {
      assert s[..|s| - |l|] == s;
    } else {
      assert l[0] in s by { assert s[|s| - |l|..][0] == l[0]; }
      assert !Blank(l[0..]);
    }
  }

  lemma {:induction false} RStripAfter(head: string, tail: string)
    requires head != "" && !IsSpace(head[|head| - 1])
    ensures RStrip(head + tail) == head + RStrip(tail)
    decreases |tail|
  {
    hide Blank, IsSpace;
    var s := head + tail;
    if tail == "" {
      assert s == head;
    } else {
      assert s[|s| - 1] == tail[|tail| - 1] && s[..|s| - 1] == head + tail[..|tail| - 1];
      RStripAfter(head, tail[..|tail| - 1]);
    }
  }

  lemma LStripStep(s: string)
    requires s != ""
    ensures LStrip(s) == if IsSpace(s[0]) then LStrip(s[1..]) else s
  {
  }

  /** Behind text without blanks at its ends only the end is stripped. */
  lemma StripAfter(head: string, tail: string)
    requires head != "" && !IsSpace(head[0]) && !IsSpace(head[|head| - 1])
    ensures Strip(head + tail) == head + RStrip(tail)
  {
    RStripAfter(head, tail);
    LStripStep(head + tail);
    hide LStrip, RStrip, Blank;
  }

  // ---- newlines at the ends ----

  function LStripNewlines(s: string): string {
    if s != "" && s[0] == '\n' then LStripNewlines(s[1..]) else s
  }

  function RStripNewlines(s: string): string {
    if s != "" && s[|s| - 1] == '\n' then RStripNewlines(s[..|s| - 1]) else s
  }

  /** What `LStripNewlines` removes are newlines, and none is left in front. */
  lemma {:induction false} NewlinesInFront(s: string) returns (a: string)
    ensures s == a + LStripNewlines(s) && forall c | c in a :: c == '\n'
    ensures LStripNewlines(s) != "" ==> LStripNewlines(s)[0] != '\n'
  {
    a := "";
    if s != "" && s[0] == '\n' {
      a := NewlinesInFront(s[1..]);
      a := "\n" + a;
    }
  }

  lemma LastKept(a: string, r: string, s: string)
    requires s == a + r && r != ""
    ensures s != "" && s[|s| - 1] == r[|r| - 1]
  {
  }

  /** What is left without the newlines `a` in front and the blanks `z` behind. */
  lemma EndsOff(s: string) returns (a: string, z: string)
    ensures var r := LStripNewlines(RStrip(s));
            && s == a + r + z && (forall c | c in a :: c == '\n') && Blank(z)
            && (r != "" ==> r[0] != '\n' && !IsSpace(r[|r| - 1]))
  {
    var l := RStrip(s);
    var r := LStripNewlines(l);
    z := s[|l|..];
    a := NewlinesInFront(l);
    hide RStrip, LStripNewlines, IsSpace, Blank;
    assert s == l + z;
    if r != "" { LastKept(a, r, l); }
  }

  /** Python's `s.strip("\n")`. */
  function TrimNewlines(s: string): string {
    RStripNewlines(LStripNewlines(s))
  }

  predicate HasText(s: string) {
    exists c | c in s :: c != '\n'
  }

  lemma {:induction false} NewlineBehind(s: string)
    ensures TrimNewlines(s + "\n") == TrimNewlines(s)
  {
    if s == "" {
      assert s + "\n" == "\n" && "\n"[1..] == "";
    } else if s[0] == '\n' {
      assert (s + "\n")[1..] == s[1..] + "\n";
      NewlineBehind(s[1..]);
    } else {
      assert (s + "\n")[..|s|] == s;
    }
  }

  /** One newline more at either end makes no difference. */
  lemma NewlinesAroundTrimmed(s: string)
    ensures TrimNewlines("\n" + s + "\n") == TrimNewlines(s)
  {
    assert ("\n" + s + "\n")[1..] == s + "\n";
    NewlineBehind(s);
  }

  lemma LStripNewline()
    ensures LStrip("\n") == "" && LStrip("") == ""
  {
    assert "\n"[1..] == "";
  }

  lemma TailBehind(s: string, z: string)
    requires s != ""
    ensures (s + z)[0] == s[0] && (s + z)[1..] == s[1..] + z
  {
  }

  lemma {:induction false} LStripBehind(s: string)
    ensures LStrip(s + "\n") == if LStrip(s) == "" then "" else LStrip(s) + "\n"
  {
    hide LStrip, Blank, IsSpace;
    if s == "" {
      LStripNewline();
      assert s + "\n" == "\n";
    } else {
      TailBehind(s, "\n");
      LStripStep(s);
      LStripStep(s + "\n");
      LStripBehind(s[1..]);
    }
  }

  lemma RStripNewline(l: string)
    ensures RStrip(l + "\n") == RStrip(l) && RStrip("") == ""
  {
    assert (l + "\n")[..|l|] == l && (l + "\n")[|l|] == '\n';
    hide Blank;
  }

  lemma StripBehind(s: string)
    ensures Strip(s + "\n") == Strip(s)
  {
    hide Blank, LStrip, RStrip, IsSpace;
    LStripBehind(s);
    RStripNewline(LStrip(s));
  }

  lemma StripInFront(s: string)
    ensures Strip("\n" + s) == Strip(s)
  {
    assert ("\n" + s)[1..] == s;
  }

  /** Newlines at the ends are among the blanks that `strip` removes. */
  lemma {:induction false} StripAfterLStrip(s: string)
    ensures Strip(LStripNewlines(s)) == Strip(s)
  {
    if s != "" && s[0] == '\n' {
      assert s == "\n" + s[1..];
      StripInFront(s[1..]);
      hide Strip;
      StripAfterLStrip(s[1..]);
    }
  }

  lemma {:induction false} StripAfterRStrip(s: string)
    ensures Strip(RStripNewlines(s)) == Strip(s)
  {
    if s != "" && s[|s| - 1] == '\n' {
      assert s == s[..|s| - 1] + "\n";
      StripBehind(s[..|s| - 1]);
      hide Strip;
      StripAfterRStrip(s[..|s| - 1]);
    }
  }

  // ---- substrings ----

  predicate MatchAt(s: string, sub: string, i: nat) {
    i + |sub| <= |s| && s[i..i + |sub|] == sub
  }

  lemma OneCharMatch(s: string, c: char, i: nat)
    requires i < |s|
    ensures MatchAt(s, [c], i) <==> s[i] == c
  {
    assert s[i..i + 1] == [s[i]];
  }

  /** Python's `s.find(sub, from)`. */
  function Find(s: string, sub: string, from: nat): (r: Option<nat>)
    requires from <= |s|
    ensures r.Some? ==> from <= r.value && MatchAt(s, sub, r.value)
    ensures r.Some? ==> forall i | from <= i < r.value :: !MatchAt(s, sub, i)
    ensures r.None? ==> forall i | from <= i <= |s| :: !MatchAt(s, sub, i)
    decreases |s| - from
  {
    if MatchAt(s, sub, from) then Some(from)
    else if from == |s| then None
    else Find(s, sub, from + 1)
  }

  /** Python's `s.split(sep)`. */
  function Split(s: string, sep: string): (parts: seq<string>)
    requires sep != ""
    ensures |parts| > 0
    decreases |s|
  {
    match Find(s, sep, 0)
    case None => [s]
    case Some(i) => [s[..i]] + Split(s[i + |sep|..], sep)
  }

  /** Python's `sep.join(parts)`. */
  function Join(parts: seq<string>, sep: string): string {
    if parts == [] then ""
    else if |parts| == 1 then parts[0]
    else parts[0] + sep + Join(parts[1..], sep)
  }

  /** The separator neither occurs in `p` nor straddles its end when one follows. */
  ghost predicate Unsplittable(p: string, sep: string) {
    forall i: nat | i < |p| :: !MatchAt(p + sep, sep, i)
  }

  lemma MatchInFront(p: string, sep: string, s: string, i: nat)
    requires s == p || p + sep <= s
    requires i < |p| && MatchAt(s, sep, i)
    ensures MatchAt(p + sep, sep, i)
  {
    if s == p {
      assert (p + sep)[i..i + |sep|] == s[i..i + |sep|];
    } else {
      assert s[..|p + sep|][i..i + |sep|] == s[i..i + |sep|];
    }
  }

  lemma NoSeparator(s: string, sep: string)
    requires sep != "" && forall i: nat | i < |s| :: !MatchAt(s, sep, i)
    ensures Split(s, sep) == [s]
  {
    assert Find(s, sep, 0).None?;
  }

  lemma SeparatorAfter(p: string, sep: string, rest: string)
    requires sep != "" && forall i: nat | i < |p| :: !MatchAt(p + sep + rest, sep, i)
    ensures Split(p + sep + rest, sep) == [p] + Split(rest, sep)
  {
    var s := p + sep + rest;
    assert MatchAt(s, sep, |p|);
    assert Find(s, sep, 0) == Some(|p|);
    assert s[..|p|] == p && s[|p| + |sep|..] == rest;
  }

  lemma {:induction false} SplitJoin(parts: seq<string>, sep: string)
    requires sep != "" && parts != []
    requires forall p | p in parts :: Unsplittable(p, sep)
    ensures Split(Join(parts, sep), sep) == parts
  {
    var p, s := parts[0], Join(parts, sep);
    assert p in parts;
    assert s == p || p + sep <= s;
    forall i: nat | i < |p| ensures !MatchAt(s, sep, i) {
      if MatchAt(s, sep, i) { MatchInFront(p, sep, s, i); }
    }
    hide Find, MatchAt, Unsplittable;
    if |parts| == 1 {
      NoSeparator(s, sep);
      assert parts == [p];
    } else {
      SeparatorAfter(p, sep, Join(parts[1..], sep));
      SplitJoin(parts[1..], sep);
      assert parts == [p] + parts[1..];
    }
  }

  // ---- parts that contain the separator ----

  /** The pieces of all parts, in order. */
  function AllPieces(parts: seq<string>, sep: string): (ps: seq<string>)
    requires sep != ""
    ensures parts != [] ==> ps != []
  {
    if parts == [] then [] else Split(parts[0], sep) + AllPieces(parts[1..], sep)
  }

  /** A separator behind `p` is found where it stands. */
  ghost predicate EndsClear(p: string, sep: string)
    requires sep != ""
  {
    var ps := Split(p, sep);
    Unsplittable(ps[|ps| - 1], sep)
  }

  lemma MatchInPrefix(s: string, n: nat, sub: string, i: nat)
    requires n <= |s| && MatchAt(s[..n], sub, i)
    ensures MatchAt(s, sub, i)
  {
    assert s[..n][i..i + |sub|] == s[i..i + |sub|];
  }

  lemma SeparatorBehind(p: string, sep: string, rest: string)
    requires sep != "" && Unsplittable(p, sep)
    ensures Split(p + sep + rest, sep) == [p] + Split(rest, sep)
  {
    forall i: nat | i < |p| ensures !MatchAt(p + sep + rest, sep, i) {
      if MatchAt(p + sep + rest, sep, i) { MatchInFront(p, sep, p + sep + rest, i); }
    }
    hide Unsplittable, MatchAt;
    SeparatorAfter(p, sep, rest);
  }

  /** The first of several pieces, the separator behind it, and the rest. */
  lemma FirstPiece(p: string, sep: string) returns (head: string, tail: string)
    requires sep != "" && |Split(p, sep)| > 1
    ensures p == head + sep + tail && Unsplittable(head, sep)
    ensures Split(p, sep) == [head] + Split(tail, sep)
  {
    var i := Find(p, sep, 0).value;
    head, tail := p[..i], p[i + |sep|..];
    assert p == head + sep + tail && head + sep == p[..i + |sep|];
    assert forall k: nat | k < i :: !MatchAt(p, sep, k);
    hide Find, MatchAt, Split;
    forall k: nat | k < |head| ensures !MatchAt(head + sep, sep, k) {
      if MatchAt(head + sep, sep, k) { MatchInPrefix(p, i + |sep|, sep, k); }
    }
  }

  lemma OnePiece(p: string, sep: string)
    requires sep != "" && |Split(p, sep)| == 1
    ensures Split(p, sep) == [p]
  {
  }

  /** Splitting goes on behind a separator as if it began there. */
  lemma {:induction false} SplitBehind(p: string, sep: string, rest: string)
    requires sep != "" && EndsClear(p, sep)
    ensures Split(p + sep + rest, sep) == Split(p, sep) + Split(rest, sep)
    decreases |p|
  {
    hide Find, Split, MatchAt, Unsplittable;
    if |Split(p, sep)| == 1 {
      OnePiece(p, sep);
      SeparatorBehind(p, sep, rest);
    } else {
      var head, tail := FirstPiece(p, sep);
      assert Split(p, sep)[|Split(p, sep)| - 1] == Split(tail, sep)[|Split(tail, sep)| - 1];
      SplitBehind(tail, sep, rest);
      assert p + sep + rest == head + sep + (tail + sep + rest);
      SeparatorBehind(head, sep, tail + sep + rest);
    }
  }

  /** Splitting joined parts yields the pieces of all of them. */
  lemma {:induction false} SplitParts(parts: seq<string>, sep: string)
    requires sep != "" && parts != []
    requires forall i | 0 <= i < |parts| - 1 :: EndsClear(parts[i], sep)
    ensures Split(Join(parts, sep), sep) == AllPieces(parts, sep)
  {
    hide Split, EndsClear;
    if |parts| > 1 {
      assert EndsClear(parts[0], sep);
      forall i | 0 <= i < |parts[1..]| - 1 ensures EndsClear(parts[1..][i], sep) {
        assert EndsClear(parts[i + 1], sep);
      }
      SplitParts(parts[1..], sep);
      SplitBehind(parts[0], sep, Join(parts[1..], sep));
    }
  }

  /** Where a part's first piece stands among all pieces. */
  function Start(parts: seq<string>, sep: string, k: nat): nat
    requires sep != "" && k <= |parts|
  {
    if k == 0 then 0 else |Split(parts[0], sep)| + Start(parts[1..], sep, k - 1)
  }

  lemma {:induction false} StartsThere(parts: seq<string>, sep: string, k: nat)
    requires sep != "" && k < |parts|
    ensures Start(parts, sep, k) < |AllPieces(parts, sep)|
    ensures AllPieces(parts, sep)[Start(parts, sep, k)] == Split(parts[k], sep)[0]
  {
    hide Split;
    if k > 0 { StartsThere(parts[1..], sep, k - 1); }
  }

  lemma FindFits(s: string, sub: string)
    ensures Find(s, sub, 0).Some? ==> Find(s, sub, 0).value + |sub| <= |s|
  {
  }

  lemma SplitAtFirst(s: string, sep: string)
    requires sep != ""
    ensures match Find(s, sep, 0)
            case None => Split(s, sep) == [s]
            case Some(i) => i + |sep| <= |s| && Split(s, sep) == [s[..i]] + Split(s[i + |sep|..], sep)
  {
    FindFits(s, sep);
    hide Find, MatchAt;
  }

  lemma MatchShift(a: string, x: string, sep: string, i: nat)
    ensures MatchAt(a + x, sep, |a| + i) <==> MatchAt(x, sep, i)
  {
    if i + |sep| <= |x| { assert (a + x)[|a| + i..|a| + i + |sep|] == x[i..i + |sep|]; }
  }

  /** The first match behind `a`. */
  lemma FindAt(s: string, sub: string, i: nat)
    requires MatchAt(s, sub, i) && forall k: nat | k < i :: !MatchAt(s, sub, k)
    ensures Find(s, sub, 0) == Some(i)
  {
  }

  lemma FindNone(s: string, sub: string)
    requires forall k: nat :: !MatchAt(s, sub, k)
    ensures Find(s, sub, 0) == None
  {
  }

  lemma FindInFront(a: string, x: string, sep: string)
    requires sep != "" && forall i: nat | i < |a| :: !MatchAt(a + x, sep, i)
    ensures Find(a + x, sep, 0) == match Find(x, sep, 0) case None => None case Some(i) => Some(|a| + i)
  {
    var g := Find(x, sep, 0);
    assert g.None? ==> forall i: nat | i <= |x| :: !MatchAt(x, sep, i);
    hide Find;
    if g.None? {
      forall k: nat ensures !MatchAt(a + x, sep, k) {
        if k >= |a| { MatchShift(a, x, sep, k - |a|); }
      }
      FindNone(a + x, sep);
    } else {
      forall k: nat | k < |a| + g.value ensures !MatchAt(a + x, sep, k) {
        if k >= |a| { MatchShift(a, x, sep, k - |a|); }
      }
      MatchShift(a, x, sep, g.value);
      FindAt(a + x, sep, |a| + g.value);
    }
  }

  lemma FirstInFront(a: string, p: string, rest: seq<string>, ps: seq<string>)
    requires ps == [p] + rest
    ensures [a + p] + rest == [a + ps[0]] + ps[1..]
  {
  }

  lemma OneInFront(a: string, p: string, ps: seq<string>, qs: seq<string>)
    requires ps == [p] && qs == [a + p]
    ensures qs == [a + ps[0]] + ps[1..]
  {
  }

  lemma SlicesInFront(a: string, x: string, i: nat)
    requires i <= |x|
    ensures (a + x)[..|a| + i] == a + x[..i] && (a + x)[|a| + i..] == x[i..]
  {
  }

  lemma SplitsAtFirst(a: string, x: string, sep: string, i: nat)
    requires sep != "" && i + |sep| <= |x|
    requires Split(x, sep) == [x[..i]] + Split(x[i + |sep|..], sep)
    requires Split(a + x, sep) == [(a + x)[..|a| + i]] + Split((a + x)[|a| + i + |sep|..], sep)
    ensures Split(a + x, sep) == [a + Split(x, sep)[0]] + Split(x, sep)[1..]
  {
    hide Split;
    SlicesInFront(a, x, i);
    SlicesInFront(a, x, i + |sep|);
    FirstInFront(a, x[..i], Split(x[i + |sep|..], sep), Split(x, sep));
  }

  /** What contains no separator and makes none with what follows stays in front of the first piece. */
  lemma SplitInFront(a: string, x: string, sep: string)
    requires sep != "" && forall i: nat | i < |a| :: !MatchAt(a + x, sep, i)
    ensures Split(a + x, sep) == [a + Split(x, sep)[0]] + Split(x, sep)[1..]
  {
    hide *;
    FindInFront(a, x, sep);
    SplitAtFirst(x, sep);
    SplitAtFirst(a + x, sep);
    match Find(x, sep, 0)
    case None => OneInFront(a, x, Split(x, sep), Split(a + x, sep));
    case Some(i) => SplitsAtFirst(a, x, sep, i);
  }

  // ---- splitting and newlines at the ends ----

  lemma FirstPieceNonEmpty(s: string, sep: string)
    requires sep != ""
    ensures Split(s, sep)[0] != "" ==> s != "" && !MatchAt(s, sep, 0)
  {
    if MatchAt(s, sep, 0) { assert Find(s, sep, 0) == Some(0); }
  }

  lemma SplitEmpty(sep: string)
    requires sep != ""
    ensures Split("", sep) == [""]
  {
  }

  /** A first character that belongs to the first piece can go before splitting or after. */
  lemma DropFirst(s: string, sep: string)
    requires sep != "" && Split(s, sep)[0] != ""
    ensures s != "" && Split(s, sep) == [[s[0]] + Split(s[1..], sep)[0]] + Split(s[1..], sep)[1..]
  {
    hide Find, MatchAt, Split;
    FirstPieceNonEmpty(s, sep);
    assert s == [s[0]] + s[1..];
    SplitInFront([s[0]], s[1..], sep);
  }

  /** `s` ends in a character of its last piece, and `x` is `s` without it. */
  predicate LastDropped(s: string, x: string, sep: string)
    requires sep != ""
  {
    var ps, qs := Split(s, sep), Split(x, sep);
    && s != "" && x == s[..|s| - 1]
    && |qs| == |ps| && ps == qs[..|qs| - 1] + [qs[|qs| - 1] + [s[|s| - 1]]]
  }

  lemma LastDroppedBehind(head: string, tail: string, y: string, sep: string)
    requires sep != "" && Unsplittable(head, sep) && LastDropped(tail, y, sep)
    ensures LastDropped(head + sep + tail, head + sep + y, sep)
  {
    hide Split, Unsplittable;
    SeparatorBehind(head, sep, tail);
    SeparatorBehind(head, sep, y);
    assert (head + sep + tail)[..|head + sep + tail| - 1] == head + sep + y;
  }

  lemma DropFromOne(s: string, sep: string)
    requires sep != "" && s != "" && Split(s, sep) == [s]
    ensures Split(s[..|s| - 1], sep) == [s[..|s| - 1]]
  {
    SplitAtFirst(s, sep);
    var x := s[..|s| - 1];
    assert Find(s, sep, 0).None?;
    forall i: nat | i < |x| ensures !MatchAt(x, sep, i) {
      if MatchAt(x, sep, i) { MatchInPrefix(s, |s| - 1, sep, i); }
    }
    hide Find, MatchAt;
    NoSeparator(x, sep);
  }

  /** So can a last character that belongs to the last piece. */
  lemma {:induction false} DropLast(s: string, sep: string)
    requires sep != "" && Split(s, sep)[|Split(s, sep)| - 1] != ""
    ensures s != "" && LastDropped(s, s[..|s| - 1], sep)
    decreases |s|
  {
    var ps := Split(s, sep);
    hide Find, MatchAt, Split;
    SplitEmpty(sep);
    if |ps| == 1 {
      OnePiece(s, sep);
      DropFromOne(s, sep);
      assert s == s[..|s| - 1] + [s[|s| - 1]];
      assert Split(s[..|s| - 1], sep)[..0] == [];
    } else {
      hide LastDropped;
      var head, tail := FirstPiece(s, sep);
      assert ps[|ps| - 1] == Split(tail, sep)[|Split(tail, sep)| - 1];
      DropLast(tail, sep);
      LastDroppedBehind(head, tail, tail[..|tail| - 1], sep);
      assert s[..|s| - 1] == head + sep + tail[..|tail| - 1];
    }
  }

  /** Stripping leading newlines shortens the first piece alone, if that has text. */
  lemma {:induction false} SplitAfterLStrip(s: string, sep: string)
    requires sep != "" && HasText(Split(s, sep)[0])
    ensures Split(LStripNewlines(s), sep) == [LStripNewlines(Split(s, sep)[0])] + Split(s, sep)[1..]
  {
    DropFirst(s, sep);
    if s[0] == '\n' {
      var p, q := Split(s, sep)[0], Split(s[1..], sep)[0];
      assert p == ['\n'] + q && p[1..] == q;
      assert HasText(q);
      hide Split;
      SplitAfterLStrip(s[1..], sep);
    }
  }

  lemma TextBeforeNewline(s: string)
    ensures HasText(s + ['\n']) ==> HasText(s)
  {
    if HasText(s + ['\n']) {
      var c :| c in s + ['\n'] && c != '\n';
      assert c in s;
    }
  }

  lemma TextIsNonEmpty(s: string)
    ensures HasText(s) ==> s != ""
  {
  }

  lemma LastPieces(s: string, x: string, sep: string)
    requires sep != "" && LastDropped(s, x, sep)
    ensures var ps, qs := Split(s, sep), Split(x, sep);
            var p, q := ps[|ps| - 1], qs[|qs| - 1];
            && s != "" && x == s[..|s| - 1]
            && p != "" && p[|p| - 1] == s[|s| - 1] && p[..|p| - 1] == q && p == q + [s[|s| - 1]]
            && ps[..|ps| - 1] == qs[..|qs| - 1] && ps == ps[..|ps| - 1] + [p]
  {
    hide Split;
  }

  /** Stripping trailing newlines shortens the last piece alone, if that has text. */
  lemma {:induction false} SplitAfterRStrip(s: string, sep: string)
    requires sep != "" && var ps := Split(s, sep); HasText(ps[|ps| - 1])
    ensures var ps := Split(s, sep);
            Split(RStripNewlines(s), sep) == ps[..|ps| - 1] + [RStripNewlines(ps[|ps| - 1])]
  {
    hide Split, HasText, LastDropped;
    var ps := Split(s, sep);
    TextIsNonEmpty(ps[|ps| - 1]);
    DropLast(s, sep);
    var x := s[..|s| - 1];
    LastPieces(s, x, sep);
    if s[|s| - 1] == '\n' {
      TextBeforeNewline(Split(x, sep)[|Split(x, sep)| - 1]);
      SplitAfterRStrip(x, sep);
    }
  }

  lemma {:induction false} LStripKeepsText(s: string)
    ensures HasText(s) ==> HasText(LStripNewlines(s))
  {
    if s != "" && s[0] == '\n' {
      assert s == [s[0]] + s[1..];
      LStripKeepsText(s[1..]);
    }
  }

  lemma {:induction false} RStripKeepsText(s: string)
    ensures HasText(s) ==> HasText(RStripNewlines(s))
  {
    if s != "" && s[|s| - 1] == '\n' {
      assert s == s[..|s| - 1] + ['\n'];
      TextBeforeNewline(s[..|s| - 1]);
      hide HasText;
      RStripKeepsText(s[..|s| - 1]);
    }
  }

  /** `ps` and `qs` agree piece by piece under `f`. */
  ghost predicate SamePieces(f: string -> string, ps: seq<string>, qs: seq<string>) {
    |ps| == |qs| && forall i | 0 <= i < |ps| :: f(ps[i]) == f(qs[i])
  }

  lemma ReplaceFirst(f: string -> string, ps: seq<string>, p: string)
    requires ps != [] && f(p) == f(ps[0])
    ensures SamePieces(f, ps, [p] + ps[1..])
  {
  }

  lemma ReplaceLast(f: string -> string, ps: seq<string>, p: string)
    requires ps != [] && f(p) == f(ps[|ps| - 1])
    ensures SamePieces(f, ps, ps[..|ps| - 1] + [p])
  {
  }

  lemma SameTwice(f: string -> string, ps: seq<string>, qs: seq<string>, rs: seq<string>)
    requires SamePieces(f, ps, qs) && SamePieces(f, qs, rs)
    ensures SamePieces(f, ps, rs)
  {
  }

  /** Newlines at the ends of a text whose outer pieces have text can be stripped before splitting. */
  lemma SplitTrimmed(s: string, sep: string)
    requires sep != "" && var ps := Split(s, sep); HasText(ps[0]) && HasText(ps[|ps| - 1])
    ensures TrimNewlines(s) != "" && SamePieces(Strip, Split(s, sep), Split(TrimNewlines(s), sep))
  {
    hide Split, HasText, Strip, LStripNewlines, RStripNewlines, SamePieces;
    var ps, l := Split(s, sep), LStripNewlines(s);
    SplitAfterLStrip(s, sep);
    LStripKeepsText(ps[0]);
    StripAfterLStrip(ps[0]);
    ReplaceFirst(Strip, ps, LStripNewlines(ps[0]));
    var qs := Split(l, sep);
    assert |qs| > 1 ==> qs[|qs| - 1] == ps[|ps| - 1];
    SplitAfterRStrip(l, sep);
    var q := qs[|qs| - 1];
    RStripKeepsText(q);
    StripAfterRStrip(q);
    ReplaceLast(Strip, qs, RStripNewlines(q));
    SameTwice(Strip, ps, qs, Split(TrimNewlines(s), sep));
    TextIsNonEmpty(RStripNewlines(q));
    SplitEmpty(sep);
  }
}
