/** Lines, trimming and joining as the Rust standard library does them, and what becomes of a text block that is
    printed between fences and read back line by line. */
module SnapshotText {

  /** The characters with the Unicode property White_Space. */
  predicate IsSpace(c: char) {
    || '\t' <= c <= '\r' || c == ' ' || c == '\U{85}' || c == '\U{A0}' || c == '\U{1680}'
    || '\U{2000}' <= c <= '\U{200A}' || c == '\U{2028}' || c == '\U{2029}' || c == '\U{202F}'
    || c == '\U{205F}' || c == '\U{3000}'
  }

  /** The twenty-five of them. */
  const WHITE_SPACE := ['\t', '\n', '\U{B}', '\U{C}', '\r', ' ', '\U{85}', '\U{A0}', '\U{1680}',
                        '\U{2000}', '\U{2001}', '\U{2002}', '\U{2003}', '\U{2004}', '\U{2005}', '\U{2006}',
                        '\U{2007}', '\U{2008}', '\U{2009}', '\U{200A}', '\U{2028}', '\U{2029}', '\U{202F}',
                        '\U{205F}', '\U{3000}']

  lemma SpacesExactly(c: char)
    ensures IsSpace(c) <==> c in WHITE_SPACE
  {
    var w := WHITE_SPACE;
    assert w[0] == '\t' && w[1] == '\n' && w[2] == '\U{B}' && w[3] == '\U{C}' && w[4] == '\r' && w[5] == ' ';
    assert w[6] == '\U{85}' && w[7] == '\U{A0}' && w[8] == '\U{1680}';
    assert w[9] == '\U{2000}' && w[10] == '\U{2001}' && w[11] == '\U{2002}' && w[12] == '\U{2003}';
    assert w[13] == '\U{2004}' && w[14] == '\U{2005}' && w[15] == '\U{2006}' && w[16] == '\U{2007}';
    assert w[17] == '\U{2008}' && w[18] == '\U{2009}' && w[19] == '\U{200A}';
    assert w[20] == '\U{2028}' && w[21] == '\U{2029}' && w[22] == '\U{202F}' && w[23] == '\U{205F}' && w[24] == '\U{3000}';
  }

  predicate AllSpace(s: string) {
    forall i :: 0 <= i < |s| ==> IsSpace(s[i])
  }

  function TrimStart(s: string): string {
    if s != "" && IsSpace(s[0]) then TrimStart(s[1..]) else s
  }

  function TrimEnd(s: string): string {
    if s != "" && IsSpace(s[|s| - 1]) then TrimEnd(s[..|s| - 1]) else s
  }

  function Trim(s: string): string {
    TrimEnd(TrimStart(s))
  }

  /** Neither starts nor ends with white space. */
  predicate Tight(s: string) {
    s == "" || (!IsSpace(s[0]) && !IsSpace(s[|s| - 1]))
  }

  function NonSpace(s: string): nat {
    if s == "" then 0 else NonSpace(s[..|s| - 1]) + if IsSpace(s[|s| - 1]) then 0 else 1
  }

  lemma {:induction false} NonSpaceConcat(a: string, b: string)
    ensures NonSpace(a + b) == NonSpace(a) + NonSpace(b)
  {
    if b == "" {
      assert a + b == a;
    } else {
      assert (a + b)[..|a + b| - 1] == a + b[..|b| - 1];
      NonSpaceConcat(a, b[..|b| - 1]);
    }
  }

  /** Trimming takes white space off both ends and nothing else. */
  lemma {:induction false} TrimEndParts(s: string) returns (after: string)
    ensures s == TrimEnd(s) + after && AllSpace(after)
    ensures TrimEnd(s) != "" ==> !IsSpace(TrimEnd(s)[|TrimEnd(s)| - 1])
    ensures s != "" && TrimEnd(s) != "" ==> TrimEnd(s)[0] == s[0]
  {
    if s != "" && IsSpace(s[|s| - 1]) {
      var rest := TrimEndParts(s[..|s| - 1]);
      after := rest + [s[|s| - 1]];
      assert s == s[..|s| - 1] + [s[|s| - 1]];
    } else {
      after := "";
    }
  }

  lemma {:induction false} TrimStartParts(s: string) returns (before: string)
    ensures s == before + TrimStart(s) && AllSpace(before)
    ensures TrimStart(s) != "" ==> !IsSpace(TrimStart(s)[0])
  {
    if s != "" && IsSpace(s[0]) {
      var rest := TrimStartParts(s[1..]);
      before := [s[0]] + rest;
      assert s == [s[0]] + s[1..];
    } else {
      before := "";
    }
  }

  lemma TrimParts(s: string) returns (before: string, after: string)
    ensures s == before + Trim(s) + after && AllSpace(before) && AllSpace(after) && Tight(Trim(s))
  {
    before := TrimStartParts(s);
    after := TrimEndParts(TrimStart(s));
  }

  lemma {:induction false} TrimStartOf(before: string, t: string)
    requires AllSpace(before) && (t == "" || !IsSpace(t[0]))
    ensures TrimStart(before + t) == t
  {
    if before == "" {
      assert before + t == t;
    } else {
      assert (before + t)[1..] == before[1..] + t;
      TrimStartOf(before[1..], t);
    }
  }

  lemma {:induction false} TrimEndOf(t: string, after: string)
    requires AllSpace(after) && (t == "" || !IsSpace(t[|t| - 1]))
    ensures TrimEnd(t + after) == t
  {
    if after == "" {
      assert t + after == t;
    } else {
      assert (t + after)[..|t + after| - 1] == t + after[..|after| - 1];
      TrimEndOf(t, after[..|after| - 1]);
    }
  }

  lemma {:induction false} TrimStartOfSpace(s: string)
    requires AllSpace(s)
    ensures TrimStart(s) == ""
  {
    if s != "" {
      TrimStartOfSpace(s[1..]);
    }
  }

  /** Those two properties determine the trimmed text. */
  lemma TrimOf(before: string, t: string, after: string)
    requires AllSpace(before) && AllSpace(after) && Tight(t)
    ensures Trim(before + t + after) == t
  {
    if t == "" {
      TrimStartOfSpace(before + t + after);
    } else {
      assert before + t + after == before + (t + after);
      assert (t + after)[0] == t[0];
      TrimStartOf(before, t + after);
      TrimEndOf(t, after);
    }
  }

  lemma {:induction false} SpaceHasNoNonSpace(s: string)
    requires AllSpace(s)
    ensures NonSpace(s) == 0
  {
    if s != "" {
      SpaceHasNoNonSpace(s[..|s| - 1]);
    }
  }

  lemma TrimKeepsNonSpace(s: string)
    ensures NonSpace(Trim(s)) == NonSpace(s)
  {
    var b, a := TrimParts(s);
    NonSpaceConcat(b + Trim(s), a);
    NonSpaceConcat(b, Trim(s));
    SpaceHasNoNonSpace(a);
    SpaceHasNoNonSpace(b);
  }

  // ---------------------------------------------------------------- lines

  /** Position of the first newline, or the length. */
  function LineEnd(s: string): (i: nat)
    ensures i <= |s| && (i < |s| ==> s[i] == '\n') && forall j :: 0 <= j < i ==> s[j] != '\n'
  {
    if s == "" || s[0] == '\n' then 0 else 1 + LineEnd(s[1..])
  }

  function StripCr(s: string): string {
    if s != "" && s[|s| - 1] == '\r' then s[..|s| - 1] else s
  }

  /** A line ends at a newline, together with a carriage return before it; a last line may go without. */
  function Lines(s: string): seq<string>
    decreases |s|
  {
    var i := LineEnd(s);
    if s == "" then [] else if i == |s| then [s] else [StripCr(s[..i])] + Lines(s[i + 1..])
  }

  function Join(lines: seq<string>): string {
    if |lines| == 0 then "" else if |lines| == 1 then lines[0] else lines[0] + "\n" + Join(lines[1..])
  }

  /** The lines a text contributes when a newline follows it. */
  function Printed(s: string): (r: seq<string>)
    ensures r != []
    decreases |s|
  {
    var i := LineEnd(s);
    if i == |s| then [StripCr(s)] else [StripCr(s[..i])] + Printed(s[i + 1..])
  }

  predicate NoNewline(s: string) {
    forall i :: 0 <= i < |s| ==> s[i] != '\n'
  }

  /** A text with a newline is its first line, that newline and the rest. */
  lemma CutLine(s: string) returns (line: string, rest: string)
    requires !NoNewline(s)
    ensures s == line + "\n" + rest && NoNewline(line) && |rest| < |s|
    ensures (line == "" ==> s[0] == '\n') && (rest == "" ==> s[|s| - 1] == '\n')
  {
    var i := LineEnd(s);
    line, rest := s[..i], s[i + 1..];
    assert s == s[..i] + [s[i]] + s[i + 1..];
  }

  lemma LineEndIs(s: string, i: nat)
    requires i <= |s| && (i < |s| ==> s[i] == '\n') && forall j :: 0 <= j < i ==> s[j] != '\n'
    ensures LineEnd(s) == i
  {
  }

  lemma CutIs(line: string, rest: string)
    requires NoNewline(line)
    ensures var s := line + "\n" + rest; LineEnd(s) == |line| && s[..|line|] == line && s[|line| + 1..] == rest
  {
    LineEndIs(line + "\n" + rest, |line|);
  }

  lemma LinesFirst(line: string, rest: string)
    requires NoNewline(line)
    ensures Lines(line + "\n" + rest) == [StripCr(line)] + Lines(rest)
  {
    hide StripCr, LineEnd;
    CutIs(line, rest);
  }

  lemma PrintedFirst(line: string, rest: string)
    requires NoNewline(line)
    ensures Printed(line + "\n" + rest) == [StripCr(line)] + Printed(rest)
  {
    hide StripCr, LineEnd;
    CutIs(line, rest);
  }

  lemma PrintedLast(line: string)
    requires NoNewline(line)
    ensures Printed(line) == [StripCr(line)]
  {
    hide StripCr;
    LineEndIs(line, |line|);
  }

  lemma {:induction false} LinesAfterPrinted(s: string, rest: string)
    ensures Lines(s + "\n" + rest) == Printed(s) + Lines(rest)
    decreases |s|
  {
    hide Lines, Printed, StripCr;
    if NoNewline(s) {
      LinesFirst(s, rest);
      PrintedLast(s);
    } else {
      var line, more := CutLine(s);
      assert s + "\n" + rest == line + "\n" + (more + "\n" + rest);
      LinesFirst(line, more + "\n" + rest);
      PrintedFirst(line, more);
      LinesAfterPrinted(more, rest);
    }
  }

  lemma OneLine(s: string)
    requires NoNewline(s) && (s == "" || s[|s| - 1] != '\r')
    ensures Printed(s) == [s] && (s != "" ==> Lines(s) == [s])
  {
    LineEndIs(s, |s|);
  }

  lemma {:induction false} JoinConcat(a: seq<string>, b: seq<string>)
    requires a != [] && b != []
    ensures Join(a + b) == Join(a) + "\n" + Join(b)
  {
    if |a| == 1 {
      assert (a + b)[1..] == b;
    } else {
      assert (a + b)[1..] == a[1..] + b;
      JoinConcat(a[1..], b);
    }
  }

  /** All the lines of a text put together from pieces. */
  function PrintedAll(pieces: seq<string>): seq<string> {
    if pieces == [] then [] else Printed(pieces[0]) + PrintedAll(pieces[1..])
  }

  lemma {:induction false} LinesOfJoin(pieces: seq<string>, last: string)
    ensures Lines(Join(pieces + [last])) == PrintedAll(pieces) + Lines(last)
  {
    if pieces == [] {
      assert pieces + [last] == [last];
    } else {
      assert (pieces + [last])[1..] == pieces[1..] + [last];
      LinesOfJoin(pieces[1..], last);
      LinesAfterPrinted(pieces[0], Join(pieces[1..] + [last]));
    }
  }

  lemma {:induction false} PrintedAllConcat(a: seq<string>, b: seq<string>)
    ensures PrintedAll(a + b) == PrintedAll(a) + PrintedAll(b)
  {
    if a == [] {
      assert a + b == b;
    } else {
      assert (a + b)[1..] == a[1..] + b;
      PrintedAllConcat(a[1..], b);
    }
  }

  // ---------------------------------------------------------------- a block read back

  predicate HasCrLf(s: string) {
    exists i :: 0 < i < |s| && s[i] == '\n' && s[i - 1] == '\r'
  }

  lemma CrLfSplit(line: string, rest: string)
    requires NoNewline(line)
    ensures HasCrLf(line + "\n" + rest) <==> StripCr(line) != line || HasCrLf(rest)
  {
    var s := line + "\n" + rest;
    var n := |line|;
    if StripCr(line) != line {
      assert s[n] == '\n' && s[n - 1] == '\r';
    }
    if HasCrLf(rest) {
      var j :| 0 < j < |rest| && rest[j] == '\n' && rest[j - 1] == '\r';
      assert s[n + 1 + j] == '\n' && s[n + 1 + j - 1] == '\r';
    }
    if HasCrLf(s) {
      var j :| 0 < j < |s| && s[j] == '\n' && s[j - 1] == '\r';
      if j > n {
        assert rest[j - n - 1] == '\n' && rest[j - n - 1 - 1] == '\r';
      }
    }
  }

  lemma JoinPrintedFirst(line: string, rest: string)
    requires NoNewline(line)
    ensures Join(Printed(line + "\n" + rest)) == StripCr(line) + "\n" + Join(Printed(rest))
  {
    hide StripCr, Printed;
    PrintedFirst(line, rest);
    JoinConcat([StripCr(line)], Printed(rest));
  }

  /** Reading a printed text back gives the same text exactly when it has no CRLF; otherwise a shorter one. */
  lemma {:induction false} ReadBack(s: string)
    requires s == "" || s[|s| - 1] != '\r'
    ensures |Join(Printed(s))| <= |s|
    ensures Join(Printed(s)) == s <==> !HasCrLf(s)
    decreases |s|
  {
    hide Printed, Join;
    if NoNewline(s) {
      OneLine(s);
      JoinOne(s);
    } else {
      hide HasCrLf;
      var line, rest := CutLine(s);
      JoinPrintedFirst(line, rest);
      CrLfSplit(line, rest);
      assert rest != "" ==> rest[|rest| - 1] == s[|s| - 1];
      ReadBack(rest);
      var back := Join(Printed(rest));
      if StripCr(line) + "\n" + back == s {
        assert |StripCr(line)| == |line| && |back| == |rest|;
        assert s[|line| + 1..] == back && s[|line| + 1..] == rest;
      }
    }
  }

  lemma JoinOne(s: string)
    ensures Join([s]) == s
  {
  }

  lemma AllSpaceParts(line: string, rest: string)
    requires AllSpace(line + "\n" + rest)
    ensures AllSpace(line) && AllSpace(rest)
  {
    hide IsSpace;
    var s := line + "\n" + rest;
    assert forall i :: 0 <= i < |line| ==> line[i] == s[i];
    assert forall i :: 0 <= i < |rest| ==> rest[i] == s[|line| + 1 + i];
  }

  lemma AllSpaceWhole(line: string, rest: string)
    requires AllSpace(line) && AllSpace(rest)
    ensures AllSpace(StripCr(line) + "\n" + rest)
  {
    assert IsSpace('\n');
  }

  /** White space before a text only puts white space before what is read back. */
  lemma {:induction false} LeadingSpace(w: string, t: string) returns (kept: string)
    requires AllSpace(w) && t != "" && !IsSpace(t[0])
    ensures AllSpace(kept) && Join(Printed(w + t)) == kept + Join(Printed(t))
    decreases |w|
  {
    hide Printed, Join, AllSpace;
    assert IsSpace('\n') && IsSpace('\r');
    hide IsSpace;
    if NoNewline(w) {
      kept := w;
      if NoNewline(t) {
        PrintedLast(w + t);
        PrintedLast(t);
        JoinOne(StripCr(w + t));
        JoinOne(StripCr(t));
        assert StripCr(w + t) == w + StripCr(t);
      } else {
        var line, rest := CutLine(t);
        assert line != "" by {
            }
        assert w + t == (w + line) + "\n" + rest;
        JoinPrintedFirst(w + line, rest);
        JoinPrintedFirst(line, rest);
        assert StripCr(w + line) == w + StripCr(line);
      }
    } else {
      var line, rest := CutLine(w);
      assert w + t == line + "\n" + (rest + t);
      JoinPrintedFirst(line, rest + t);
      AllSpaceParts(line, rest);
      var more := LeadingSpace(rest, t);
      kept := StripCr(line) + "\n" + more;
      AllSpaceWhole(line, more);
      assert kept + Join(Printed(t)) == StripCr(line) + "\n" + (more + Join(Printed(t)));
    }
  }

  lemma {:induction false} LastKept(t: string)
    requires t != "" && !IsSpace(t[|t| - 1])
    ensures var j := Join(Printed(t)); j != "" && j[|j| - 1] == t[|t| - 1]
    decreases |t|
  {
    hide Printed, Join;
    if NoNewline(t) {
      PrintedLast(t);
      JoinOne(StripCr(t));
    } else {
      var line, rest := CutLine(t);
      JoinPrintedFirst(line, rest);
      LastKept(rest);
    }
  }

  lemma FirstKept(t: string)
    requires t != "" && !IsSpace(t[0])
    ensures var j := Join(Printed(t)); j != "" && j[0] == t[0]
  {
    hide Printed, Join;
    if NoNewline(t) {
      PrintedLast(t);
      JoinOne(StripCr(t));
    } else {
      var line, rest := CutLine(t);
      JoinPrintedFirst(line, rest);
    }
  }

  /** The trimmed text, printed and read back. */
  lemma ReadBackTrimmed(x: string)
    ensures Trim(Join(Printed(TrimEnd(x)))) == Join(Printed(Trim(x)))
  {
    hide Printed, Join, Trim;
    var w, after := TrimParts(x);
    var t := Trim(x);
    TrimEndIs(w, t, after);
    if t == "" {
      OneLine("");
      JoinOne("");
      TrimOf("", "", "");
    } else {
      var kept := LeadingSpace(w, t);
      var j := Join(Printed(t));
      FirstKept(t);
      LastKept(t);
      TrimOf(kept, j, "");
      assert kept + j + "" == kept + j;
    }
  }

  lemma {:induction false} TrimEndOfSpace(s: string)
    requires AllSpace(s)
    ensures TrimEnd(s) == ""
  {
    if s != "" {
      TrimEndOfSpace(s[..|s| - 1]);
    }
  }

  lemma TrimEndIs(w: string, t: string, after: string)
    requires AllSpace(w) && AllSpace(after) && Tight(t)
    ensures TrimEnd(w + t + after) == if t == "" then "" else w + t
  {
    if t == "" {
      TrimEndOfSpace(w + t + after);
    } else {
      TrimEndOf(w + t, after);
    }
  }

  // ---------------------------------------------------------------- counting the characters of lines

  function NonSpaceIn(lines: seq<string>): nat {
    if lines == [] then 0 else NonSpace(lines[0]) + NonSpaceIn(lines[1..])
  }

  lemma {:induction false} NonSpaceInConcat(a: seq<string>, b: seq<string>)
    ensures NonSpaceIn(a + b) == NonSpaceIn(a) + NonSpaceIn(b)
  {
    if a == [] {
      assert a + b == b;
    } else {
      assert (a + b)[1..] == a[1..] + b;
      NonSpaceInConcat(a[1..], b);
    }
  }

  lemma {:induction false} NonSpaceOfJoin(lines: seq<string>)
    ensures NonSpace(Join(lines)) == NonSpaceIn(lines)
  {
    hide NonSpace;
    if |lines| == 0 {
      SpaceHasNoNonSpace("");
    } else if |lines| == 1 {
    } else {
      NonSpaceOfJoin(lines[1..]);
      NonSpaceConcat(lines[0] + "\n", Join(lines[1..]));
      NonSpaceConcat(lines[0], "\n");
      SpaceHasNoNonSpace("\n");
    }
  }

  lemma NonSpaceStripCr(s: string)
    ensures NonSpace(StripCr(s)) == NonSpace(s)
  {
  }

  lemma {:induction false} NonSpacePrinted(s: string)
    ensures NonSpaceIn(Printed(s)) == NonSpace(s)
    decreases |s|
  {
    hide NonSpace, Printed, StripCr;
    if NoNewline(s) {
      PrintedLast(s);
      NonSpaceStripCr(s);
    } else {
      var line, rest := CutLine(s);
      PrintedFirst(line, rest);
      NonSpacePrinted(rest);
      NonSpaceStripCr(line);
      NonSpaceConcat(line + "\n", rest);
      NonSpaceConcat(line, "\n");
      SpaceHasNoNonSpace("\n");
    }
  }

  // ---------------------------------------------------------------- fences

  function Fence(): string { "```" }

  predicate StartsWith(s: string, prefix: string) {
    |prefix| <= |s| && s[..|prefix|] == prefix
  }

  /** A line that opens or closes a block. */
  predicate IsFence(line: string) {
    StartsWith(Trim(line), Fence())
  }

  predicate NoFence(lines: seq<string>) {
    forall i :: 0 <= i < |lines| ==> !IsFence(lines[i])
  }

  /** A block that comes back as it was printed: no line of it is a fence and no line of its trimmed text ends in CRLF. */
  predicate Clean(block: string) {
    NoFence(Printed(TrimEnd(block))) && !HasCrLf(Trim(block))
  }

  lemma TrimmedCounts(line: string)
    requires Trim(line) != ""
    ensures NonSpace(line) > 0
  {
    hide TrimStart, TrimEnd, Trim;
    TrimKeepsNonSpace(line);
    var before, after := TrimParts(line);
    var t := Trim(line);
    assert t == [t[0]] + t[1..];
    NonSpaceConcat([t[0]], t[1..]);
    OneNonSpace(t[0]);
  }

  lemma FenceShows(line: string)
    requires IsFence(line)
    ensures Trim(line) != ""
  {
  }

  lemma OneNonSpace(c: char)
    ensures NonSpace([c]) == if IsSpace(c) then 0 else 1
  {
    assert [c][..0] == "";
  }

  /** What the reader finds between the fences: the printed lines up to the first fence among them. */
  predicate FoundIn(found: string, block: string) {
    var lines := Printed(TrimEnd(block));
    || (NoFence(lines) && found == Join(lines))
    || exists j :: 0 <= j < |lines| && IsFence(lines[j]) && found == Join(lines[..j])
  }

  /** A block that is read back is the original, up to white space around it, exactly when it is clean, and it never
      grows. */
  lemma Recovered(found: string, block: string)
    requires FoundIn(found, block)
    ensures Trim(found) == Trim(block) <==> Clean(block)
    ensures NonSpace(found) < NonSpace(block) || (NonSpace(found) == NonSpace(block) && |Trim(found)| <= |Trim(block)|)
  {
    hide Printed, Trim, TrimEnd, NonSpace, HasCrLf, IsFence, IsSpace;
    var lines := Printed(TrimEnd(block));
    NonSpacePrinted(TrimEnd(block));
    NonSpaceTrimEnd(block);
    TrimKeepsNonSpace(block);
    TrimKeepsNonSpace(found);
    if NoFence(lines) && found == Join(lines) {
      NonSpaceOfJoin(lines);
      ReadBackTrimmed(block);
      TrimmedEnd(block);
      ReadBack(Trim(block));
    } else {
      var j :| 0 <= j < |lines| && IsFence(lines[j]) && found == Join(lines[..j]);
      NonSpaceOfJoin(lines[..j]);
      assert lines == lines[..j] + ([lines[j]] + lines[j + 1..]);
      NonSpaceInConcat(lines[..j], [lines[j]] + lines[j + 1..]);
      FenceShows(lines[j]);
      TrimmedCounts(lines[j]);
    }
  }

  lemma TrimmedEnd(s: string)
    ensures Trim(s) == "" || Trim(s)[|Trim(s)| - 1] != '\r'
  {
    var before, after := TrimParts(s);
  }

  lemma NonSpaceTrimEnd(s: string)
    ensures NonSpace(TrimEnd(s)) == NonSpace(s)
  {
    hide NonSpace;
    var after := TrimEndParts(s);
    NonSpaceConcat(TrimEnd(s), after);
    SpaceHasNoNonSpace(after);
  }
}
