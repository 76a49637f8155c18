/** A snapshot that is printed and read back verifies exactly when it has one result and clean blocks. */
module SnapshotRoundTrip {
  import opened Encoding
  import opened Prelude
  import opened SnapshotText
  import opened Snapshot
  import opened SnapshotProofs

  // ---------------------------------------------------------------- the footer comes back

  lemma FieldLine(prefix: string, word: string)
    requires prefix != "" && !IsSpace(prefix[0]) && Word(word)
    ensures Trim(prefix + word) == prefix + word && Field(prefix, prefix + word) == Some(word)
  {
    hide IsSpace, Ascii, Trim;
    TightTrims(prefix + word);
    TightTrims(word);
    assert (prefix + word)[|prefix|..] == word;
  }

  lemma FooterFields(f: Footer)
    requires Presentable(f)
    ensures var l := FooterLines(f);
            && Trim(l[0]) == l[0]
            && (forall i :: 1 <= i < 5 ==> Trim(l[i]) == l[i] && l[i] != "" && l[i][0] != 'S' && l[i][0] != '`')
            && Field("Public key: ", l[1]) == Some(f.publicKey)
            && Field("Input signature: ", l[2]) == Some(f.inputSig)
            && Field("Result signature: ", l[3]) == Some(f.resultSig)
            && Field("Comments signature: ", l[4]) == Some(f.commentsSig)
  {
    hide Word, Trim, Field;
    TightTrims("SIGNATURES:");
    FieldLine("Public key: ", f.publicKey);
    FieldLine("Input signature: ", f.inputSig);
    FieldLine("Result signature: ", f.resultSig);
    FieldLine("Comments signature: ", f.commentsSig);
  }

  /** A presentable footer is read back whatever lines come before it. */
  lemma FooterRoundTrip(before: seq<string>, f: Footer)
    requires Presentable(f)
    ensures ParseFooter(before + FooterLines(f)) == Some(f)
  {
    hide Trim, Field, Presentable, IsFence, StartsWith;
    var l, m := FooterLines(f), Exactly("SIGNATURES:");
    var lines := before + l;
    FooterFields(f);
    assert lines[|before|] == l[0] && Marks(m, l[0]);
    assert forall i :: 1 <= i < 5 ==> !Marks(m, l[i]);
    hide FooterLines, Marks;
    var at := FindLast(m, lines, |lines|);
    assert at.Some? && at.value == |before| by {
      assert at.Some?;
      assert forall i :: |before| < i < |lines| ==> lines[i] == l[i - |before|];
    }
    assert lines[|before| + 1..] == [l[1], l[2], l[3], l[4]];
    NonBlankAll([l[1], l[2], l[3], l[4]]);
    assert Word(f.publicKey) && Word(f.inputSig) && Word(f.resultSig) && Word(f.commentsSig) by {
      PresentableWords(f);
    }
  }

  lemma PresentableWords(f: Footer)
    requires Presentable(f)
    ensures Word(f.publicKey) && Word(f.inputSig) && Word(f.resultSig) && Word(f.commentsSig)
  {
  }

  lemma {:induction false} NonBlankAll(lines: seq<string>)
    requires forall i :: 0 <= i < |lines| ==> Trim(lines[i]) != ""
    ensures NonBlank(lines) == lines
  {
    hide Trim;
    if lines != [] {
      NonBlankAll(lines[1..]);
    }
  }

  lemma {:induction false} NonBlankConcat(a: seq<string>, b: seq<string>)
    ensures NonBlank(a + b) == NonBlank(a) + NonBlank(b)
  {
    hide Trim;
    if a == [] {
      assert a + b == b;
    } else {
      assert (a + b)[1..] == a[1..] + b;
      NonBlankConcat(a[1..], b);
    }
  }

  lemma LastTitleAt(before: seq<string>, title: string, after: seq<string>)
    requires Trim(title) == "SIGNATURES:" && Unmarked(Exactly("SIGNATURES:"), after, 0, |after|)
    ensures var lines := before + [title] + after;
            FindLast(Exactly("SIGNATURES:"), lines, |lines|) == Some(|before|) && lines[|before| + 1..] == after
  {
    hide Trim;
    var m, lines := Exactly("SIGNATURES:"), before + [title] + after;
    assert lines[|before|] == title;
    assert forall i :: |before| < i < |lines| ==> lines[i] == after[i - |before| - 1];
    var at := FindLast(m, lines, |lines|);
  }

  /** Blank lines anywhere behind the title do not change what is read from a footer. */
  lemma BlankLinesSkipped(before: seq<string>, title: string, a: seq<string>, blank: string, b: seq<string>)
    requires Trim(title) == "SIGNATURES:" && Trim(blank) == ""
    requires Unmarked(Exactly("SIGNATURES:"), a + b, 0, |a + b|)
    ensures ParseFooter(before + [title] + (a + [blank] + b)) == ParseFooter(before + [title] + (a + b))
  {
    hide Trim, Field;
    var more := a + [blank] + b;
    assert Unmarked(Exactly("SIGNATURES:"), more, 0, |more|) by {
      assert forall i :: 0 <= i < |a| ==> more[i] == (a + b)[i];
      assert forall i :: |a| < i < |more| ==> more[i] == (a + b)[i - 1];
    }
    LastTitleAt(before, title, a + b);
    LastTitleAt(before, title, more);
    NonBlankConcat(a + [blank], b);
    NonBlankConcat(a, [blank]);
    NonBlankConcat(a, b);
    assert NonBlank([blank]) == [];
  }

  /** A footer is read only if it is whole: four lines with the right beginnings behind the last title, no field empty. */
  lemma ParsedFooterIsWhole(lines: seq<string>) returns (at: nat)
    requires ParseFooter(lines).Some?
    ensures at < |lines| && Trim(lines[at]) == "SIGNATURES:"
    ensures forall i :: at < i < |lines| ==> Trim(lines[i]) != "SIGNATURES:"
    ensures var rest, f := NonBlank(lines[at + 1..]), ParseFooter(lines).value;
            && |rest| >= 4
            && StartsWith(rest[0], "Public key: ") && f.publicKey == Trim(rest[0][12..]) != ""
            && StartsWith(rest[1], "Input signature: ") && f.inputSig == Trim(rest[1][17..]) != ""
            && StartsWith(rest[2], "Result signature: ") && f.resultSig == Trim(rest[2][18..]) != ""
            && StartsWith(rest[3], "Comments signature: ") && f.commentsSig == Trim(rest[3][20..]) != ""
  {
    hide Trim;
    at := FindLast(Exactly("SIGNATURES:"), lines, |lines|).value;
    assert forall i :: at < i < |lines| ==> !Marks(Exactly("SIGNATURES:"), lines[i]);
  }

  /** A number as its decimal digits say it. */
  function DigitsValue(s: string): int {
    if s == "" then 0 else 10 * DigitsValue(s[..|s| - 1]) + (s[|s| - 1] as int - '0' as int)
  }

  lemma {:induction false} DecimalValue(n: nat)
    ensures DigitsValue(Decimal(n)) == n && Decimal(n) != ""
    ensures forall i :: 0 <= i < |Decimal(n)| ==> '0' <= Decimal(n)[i] <= '9'
  {
    if n >= 10 {
      DecimalValue(n / 10);
      var d := Decimal(n % 10);
      assert Decimal(n) == Decimal(n / 10) + d && |d| == 1;
      assert Decimal(n)[..|Decimal(n)| - 1] == Decimal(n / 10);
    } else {
      assert Decimal(n)[..0] == "";
    }
  }

  /** Result i is printed under a title with its number, between fences. */
  lemma {:induction false} ResultPieceAt(results: seq<string>, n: nat, i: nat)
    requires i < n <= |results|
    ensures |ResultPieces(results, n)| == 4 * n
    ensures ResultPieces(results, n)[4 * i..4 * i + 4]
            == ["[" + Decimal(i) + "] RESULT:", "```json", TrimEnd(results[i]), "```"]
  {
    hide Decimal, TrimEnd;
    PieceCount(results, n - 1);
    if i < n - 1 {
      ResultPieceAt(results, n - 1, i);
      assert ResultPieces(results, n)[4 * i..4 * i + 4] == ResultPieces(results, n - 1)[4 * i..4 * i + 4];
    }
  }

  lemma {:induction false} PieceCount(results: seq<string>, n: nat)
    requires n <= |results|
    ensures |ResultPieces(results, n)| == 4 * n
  {
    if n > 0 {
      PieceCount(results, n - 1);
    }
  }

  // ---------------------------------------------------------------- the lines of a printout

  function BlockLines(title: string, fence: string, block: string): (r: seq<string>)
    ensures |r| >= 3
  {
    [title, fence] + Printed(TrimEnd(block)) + [Fence()]
  }

  predicate IsLine(s: string) {
    NoNewline(s) && (s == "" || s[|s| - 1] != '\r')
  }

  lemma {:induction false} PrintedAllLines(lines: seq<string>)
    requires forall i :: 0 <= i < |lines| ==> IsLine(lines[i])
    ensures PrintedAll(lines) == lines
  {
    hide Printed;
    if lines != [] {
      OneLine(lines[0]);
      PrintedAllLines(lines[1..]);
    }
  }

  lemma PrintedAllOne(s: string)
    ensures PrintedAll([s]) == Printed(s)
  {
    assert [s][1..] == [];
  }

  lemma PrintedPiece(title: string, fence: string, block: string)
    requires IsLine(title) && IsLine(fence)
    ensures PrintedAll([title, fence, TrimEnd(block), Fence()]) == BlockLines(title, fence, block)
  {
    TitlesAreLines();
    hide Printed, IsLine, TrimEnd, PrintedAll, Fence;
    var body := TrimEnd(block);
    PrintedAllLines([title, fence]);
    PrintedAllOne(body);
    PrintedAllLines([Fence()]);
    PrintedAllConcat([title, fence], [body]);
    PrintedAllConcat([title, fence, body], [Fence()]);
    assert [title, fence] + [body] == [title, fence, body];
    assert [title, fence, body] + [Fence()] == [title, fence, body, Fence()];
  }

  function ResultLines(results: seq<string>): seq<string> {
    PrintedAll(ResultPieces(results, |results|))
  }

  function AllLines(input: string, results: seq<string>, comments: string, f: Footer): seq<string> {
    BlockLines("INPUT:", "```json", input) + ResultLines(results)
    + BlockLines("COMMENTS:", "```markdown", comments) + FooterLines(f)
  }

  lemma LinesOfFooter(f: Footer)
    requires Presentable(f)
    ensures Lines(FormatFooter(f)) == FooterLines(f)
  {
    hide Printed, Lines, Join, IsLine;
    var l := FooterLines(f);
    FooterIsLines(f);
    LinesOfJoin(l[..4], l[4]);
    assert l[..4] + [l[4]] == l;
    PrintedAllLines(l[..4]);
    LastLine(l[4]);
  }

  lemma LastLine(s: string)
    requires IsLine(s) && s != ""
    ensures Lines(s) == [s]
  {
    OneLine(s);
  }

  lemma WordLine(prefix: string, word: string)
    requires IsLine(prefix) && Word(word)
    ensures IsLine(prefix + word)
  {
    assert IsSpace('\n') && IsSpace('\r');
    hide IsSpace, Ascii;
  }

  lemma FooterIsLines(f: Footer)
    requires Presentable(f)
    ensures var l := FooterLines(f); IsLine(l[0]) && IsLine(l[1]) && IsLine(l[2]) && IsLine(l[3]) && IsLine(l[4])
    ensures FooterLines(f)[4] != ""
  {
    hide Word;
    WordLine("Public key: ", f.publicKey);
    WordLine("Input signature: ", f.inputSig);
    WordLine("Result signature: ", f.resultSig);
    WordLine("Comments signature: ", f.commentsSig);
  }

  lemma LinesOfPrintout(input: string, results: seq<string>, comments: string, f: Footer)
    requires Presentable(f)
    ensures Lines(Printout(input, results, comments, f)) == AllLines(input, results, comments, f)
  {
    hide Printed, Lines, Join, IsLine, TrimEnd, ResultPieces, FormatFooter, FooterLines, BlockLines, PrintedAll;
    var first := ["INPUT:", "```json", TrimEnd(input), Fence()];
    var last := ["COMMENTS:", "```markdown", TrimEnd(comments), Fence()];
    var middle := ResultPieces(results, |results|);
    LinesOfFooter(f);
    LinesOfJoin(Pieces(input, results, comments), FormatFooter(f));
    assert Pieces(input, results, comments) == first + middle + last;
    PrintedAllConcat(first + middle, last);
    PrintedAllConcat(first, middle);
    TitlesAreLines();
    PrintedPiece("INPUT:", "```json", input);
    PrintedPiece("COMMENTS:", "```markdown", comments);
  }

  lemma TitlesAreLines()
    ensures IsLine("INPUT:") && IsLine("COMMENTS:") && IsLine("```json") && IsLine("```markdown")
    ensures IsLine("[0] RESULT:") && IsLine(Fence())
  {
  }

  /** The first result comes first. */
  lemma {:induction false} FirstResult(results: seq<string>, n: nat) returns (more: seq<string>)
    requires 0 < n <= |results|
    ensures ResultPieces(results, n) == ["[0] RESULT:", "```json", TrimEnd(results[0]), Fence()] + more
    ensures n == 1 ==> more == []
  {
    hide TrimEnd;
    if n == 1 {
      more := [];
      assert Decimal(0) == "0";
      assert "[" + Decimal(0) + "] RESULT:" == "[0] RESULT:";
    } else {
      var m := FirstResult(results, n - 1);
      more := m + ResultPiece(n - 1, results[n - 1]);
    }
  }

  lemma ResultLinesBegin(results: seq<string>) returns (more: seq<string>)
    requires results != []
    ensures ResultLines(results) == BlockLines("[0] RESULT:", "```json", results[0]) + more
    ensures |results| == 1 ==> more == []
  {
    hide TrimEnd, ResultPieces, PrintedAll, BlockLines, IsLine;
    var m := FirstResult(results, |results|);
    more := PrintedAll(m);
    PrintedAllConcat(["[0] RESULT:", "```json", TrimEnd(results[0]), Fence()], m);
    TitlesAreLines();
    PrintedPiece("[0] RESULT:", "```json", results[0]);
    if |results| == 1 {
      PrintedNothing();
    }
  }

  lemma PrintedNothing()
    ensures PrintedAll([]) == []
  {
  }

  // ---------------------------------------------------------------- reading the blocks

  /** A line is the title of a result whatever stands before the word, once the white space around it is off. */
  lemma ResultTitlesExactly(line: string)
    ensures Marks(Ending("RESULT:"), line) <==> exists p: string :: Trim(line) == p + "RESULT:"
  {
    hide Trim;
    var t := Trim(line);
    if Marks(Ending("RESULT:"), line) {
      assert t == t[..|t| - 7] + "RESULT:";
    }
    if p: string :| t == p + "RESULT:" {
      assert t[|t| - 7..] == "RESULT:";
    }
  }

  lemma FindIs(m: Marker, lines: seq<string>, from: nat, i: nat)
    requires from <= i < |lines| && Marks(m, lines[i]) && Unmarked(m, lines, from, i)
    ensures Find(m, lines, from) == Some(i)
  {
    hide Marks;
  }

  lemma ConstantMarks()
    ensures IsFence(Fence()) && IsFence("```json") && IsFence("```markdown")
    ensures Marks(Exactly("INPUT:"), "INPUT:") && Marks(Exactly("COMMENTS:"), "COMMENTS:")
    ensures Marks(Ending("RESULT:"), "[0] RESULT:")
    ensures !Marks(Exactly("COMMENTS:"), Fence()) && !Marks(Ending("RESULT:"), Fence())
    ensures !Marks(Ending("RESULT:"), "COMMENTS:") && !Marks(Ending("RESULT:"), "```markdown")
    ensures !IsFence("SIGNATURES:")
  {
    TightTrims("INPUT:");
    TightTrims("COMMENTS:");
    TightTrims("[0] RESULT:");
    TightTrims("```");
    TightTrims("```json");
    TightTrims("```markdown");
    TightTrims("SIGNATURES:");
    hide Trim;
  }

  lemma UnmarkedThere(m: Marker, part: seq<string>, from: nat, lines: seq<string>, at: nat, n: nat)
    requires from <= n <= |part| && at + n <= |lines| && lines[at..at + n] == part[..n] && Unmarked(m, part, from, n)
    ensures Unmarked(m, lines, at + from, at + n)
  {
    hide Marks;
    assert forall i :: at <= i < at + n ==> lines[i] == lines[at..at + n][i - at];
  }

  /** Where the lines of a printed block stand. */
  lemma BlockStands(lines: seq<string>, before: seq<string>, title: string, fence: string, block: string, after: seq<string>)
    requires lines == before + BlockLines(title, fence, block) + after
    ensures var at, body := |before|, Printed(TrimEnd(block));
            && |BlockLines(title, fence, block)| == |body| + 3
            && |lines| >= at + 3 + |body| && lines[..at] == before
            && lines[at] == title && lines[at + 1] == fence
            && lines[at + 2..at + 2 + |body|] == body && lines[at + 2 + |body|] == Fence()
  {
    hide Printed, TrimEnd, Fence;
  }

  /** The first fence behind the one that opens a block: among the block's own lines, or the one that closes it. */
  lemma ClosingFence(lines: seq<string>, at: nat, body: seq<string>) returns (n: nat)
    requires at + |body| < |lines| && lines[at..at + |body|] == body && IsFence(lines[at + |body|])
    ensures n <= |body| && Find(FenceMark, lines, at) == Some(at + n) && lines[at..at + n] == body[..n]
    ensures if NoFence(body) then n == |body| else n < |body| && IsFence(body[n])
  {
    hide IsFence, Marks, Find, Unmarked;
    FenceMarks(lines);
    FenceMarks(body);
    var inside := Find(FenceMark, body, 0);
    n := if inside.Some? then inside.value else |body|;
    assert lines[at..at + n] == lines[at..at + |body|][..n];
    assert n < |body| ==> lines[at + n] == lines[at..at + |body|][n];
    UnmarkedThere(FenceMark, body, 0, lines, at, n);
    FindIs(FenceMark, lines, at, at + n);
    NotAllUnmarked(body, inside);
  }

  lemma NotAllUnmarked(body: seq<string>, inside: Option<nat>)
    requires inside == Find(FenceMark, body, 0)
    ensures inside.None? <==> NoFence(body)
  {
    hide IsFence;
    if inside.Some? {
      assert IsFence(body[inside.value]);
    }
  }

  /** A printed block is found, up to the first fence among its own lines. */
  lemma BlockFound(lines: seq<string>, before: seq<string>, from: nat, m: Marker, title: string, fence: string,
                   block: string, after: seq<string>) returns (b: Block)
    requires lines == before + BlockLines(title, fence, block) + after
    requires from <= |before| && Unmarked(m, before, from, |before|)
    requires Marks(m, title) && IsFence(fence) && IsFence(Fence())
    ensures ParseBlock(lines, from, m) == Some(b) && FoundIn(b.text, block)
    ensures Clean(block) ==> b.close == |before| + |BlockLines(title, fence, block)| - 1
  {
    hide Printed, TrimEnd, IsFence, Marks, HasCrLf, Trim, Find, Join, Fence, Unmarked, BlockLines, NoFence;
    var at, body := |before|, Printed(TrimEnd(block));
    BlockStands(lines, before, title, fence, block, after);
    UnmarkedThere(m, before, from, lines, 0, at);
    FindIs(m, lines, from, at);
    FenceMarks(lines);
    UnmarkedNone(FenceMark, lines, at + 1);
    FindIs(FenceMark, lines, at + 1, at + 1);
    var n := ClosingFence(lines, at + 2, body);
    b := Block(Join(lines[at + 2..at + 2 + n]), at + 1, at + 2 + n);
    assert n == |body| ==> body[..n] == body;
  }

  lemma UnmarkedNone(m: Marker, lines: seq<string>, at: nat)
    requires at <= |lines|
    ensures Unmarked(m, lines, at, at)
  {
  }

  lemma FenceMarks(lines: seq<string>)
    ensures forall i :: 0 <= i < |lines| ==> (Marks(FenceMark, lines[i]) <==> IsFence(lines[i]))
    ensures NoFence(lines) <==> Unmarked(FenceMark, lines, 0, |lines|)
  {
    hide IsFence;
  }

  // ---------------------------------------------------------------- the verdict

  /** The reader finds blocks with the canonical texts that were signed. */
  predicate SameTexts(lines: seq<string>, input: string, results: seq<string>, comments: string) {
    match ParseBlocks(lines)
    case None => false
    case Some((i, r, c)) =>
      Canonical(i) == Canonical(input) && CanonicalResults(r) == CanonicalResults(results)
      && Canonical(c) == Canonical(comments)
  }

  lemma VerdictIsSameTexts(s: Scheme, pass: string, input: string, results: seq<string>, comments: string)
    requires Ideal(s) && s.derive(pass).Some?
    ensures var f := SignSnapshot(s, pass, input, results, comments).value;
            var v := VerifySignatures(s, pass, Printout(input, results, comments, f));
            v.Some? && AllOk(v.value) <==> SameTexts(AllLines(input, results, comments, f), input, results, comments)
  {
    hide Ideal, Lines, Printout, Presentable, Canonical, CanonicalResults, VerifySnapshot, SignSnapshot, ParseFooter,
      ParseBlocks, FooterLines, BlockLines, ResultLines, AllOk;
    HonestFooterPresentable(s, pass, input, results, comments);
    var f := SignSnapshot(s, pass, input, results, comments).value;
    var lines := AllLines(input, results, comments, f);
    LinesOfPrintout(input, results, comments, f);
    FooterRoundTrip(BlockLines("INPUT:", "```json", input) + ResultLines(results)
                    + BlockLines("COMMENTS:", "```markdown", comments), f);
    match ParseBlocks(lines) {
      case None =>
      case Some((i, r, c)) => OneChangeFailsFromThere(s, pass, input, results, comments, i, r, c);
    }
  }

  lemma SameCanonical(a: string, b: string)
    ensures Canonical(a) == Canonical(b) <==> Trim(a) == Trim(b)
  {
    hide Trim;
    if Canonical(a) == Canonical(b) {
      SuffixCancels(Trim(a), Trim(b), "\n");
    }
  }

  /** One result read back is never the canonical text of several. */
  lemma OneIsNotMany(found: string, results: seq<string>)
    requires |results| >= 2 && FoundIn(found, results[0])
    ensures CanonicalResults([found]) != CanonicalResults(results)
  {
    hide Trim, NonSpace, FoundIn, CanonicalResults, Clean;
    Recovered(found, results[0]);
    CanonicalFirst([found]);
    CanonicalFirst(results);
    var t, u, more := Trim(found), Trim(results[0]), CanonicalResults(results[1..]);
    if t + "\n" == u + "\n\n" + more {
      NonSpaceConcat(t, "\n");
      NonSpaceConcat(u + "\n\n", more);
      NonSpaceConcat(u, "\n\n");
      SpaceHasNoNonSpace("\n");
      TrimKeepsNonSpace(found);
      TrimKeepsNonSpace(results[0]);
    }
  }

  lemma SomeResultsVerdict(input: string, results: seq<string>, comments: string, f: Footer)
    requires results != []
    ensures SameTexts(AllLines(input, results, comments, f), input, results, comments)
            <==> |results| == 1 && Clean(input) && Clean(results[0]) && Clean(comments)
  {
    hide Trim, Clean, FoundIn, BlockLines, FooterLines, Canonical, CanonicalResults, Marks, IsFence, ParseBlock,
      ResultLines, Fence;
    ConstantMarks();
    var more := ResultLinesBegin(results);
    var first := BlockLines("INPUT:", "```json", input);
    var second := BlockLines("[0] RESULT:", "```json", results[0]);
    var third := BlockLines("COMMENTS:", "```markdown", comments);
    var lines, footer := AllLines(input, results, comments, f), FooterLines(f);
    assert lines == [] + first + (second + more + third + footer);
    assert lines == first + second + (more + third + footer);
    var i := BlockFound(lines, [], 0, Exactly("INPUT:"), "INPUT:", "```json", input, second + more + third + footer);
    Recovered(i.text, input);
    SameCanonical(i.text, input);
    if Clean(input) {
      LastIsFence("INPUT:", "```json", input);
      var r := BlockFound(lines, first, |first| - 1, Ending("RESULT:"), "[0] RESULT:", "```json", results[0],
                          more + third + footer);
      if |results| == 1 {
        Recovered(r.text, results[0]);
        SameCanonical(r.text, results[0]);
        CanonicalOne(r.text);
        CanonicalOne(results[0]);
        assert results == [results[0]];
        if Clean(results[0]) {
          LastIsFence("[0] RESULT:", "```json", results[0]);
          assert lines == (first + second) + third + footer;
          var c := BlockFound(lines, first + second, |first + second| - 1, Exactly("COMMENTS:"), "COMMENTS:",
                              "```markdown", comments, footer);
          Recovered(c.text, comments);
          SameCanonical(c.text, comments);
        }
      } else {
        OneIsNotMany(r.text, results);
      }
    }
  }

  lemma LastIsFence(title: string, fence: string, block: string)
    ensures var l := BlockLines(title, fence, block); l[|l| - 1] == Fence()
  {
    hide Fence, Printed, TrimEnd;
  }

  lemma CanonicalOne(t: string)
    ensures CanonicalResults([t]) == Canonical(t)
  {
    hide Trim, CanonicalResults;
    CanonicalFirst([t]);
  }

  // ---------------------------------------------------------------- a snapshot without results

  lemma ParseBlockShape(lines: seq<string>, from: nat, m: Marker) returns (at: nat)
    requires ParseBlock(lines, from, m).Some?
    ensures var b := ParseBlock(lines, from, m).value;
            && from <= at < b.open < b.close < |lines| && Marks(m, lines[at])
            && IsFence(lines[b.open]) && IsFence(lines[b.close]) && b.text == Join(lines[b.open + 1..b.close])
  {
    at := Find(m, lines, from).value;
  }

  lemma NonSpaceCut(lines: seq<string>, n: nat)
    requires n <= |lines|
    ensures NonSpaceIn(lines) == NonSpaceIn(lines[..n]) + NonSpaceIn(lines[n..])
  {
    hide NonSpaceIn;
    assert lines == lines[..n] + lines[n..];
    NonSpaceInConcat(lines[..n], lines[n..]);
  }

  lemma {:induction false} LineCounts(lines: seq<string>, at: nat)
    requires at < |lines|
    ensures NonSpaceIn(lines) >= NonSpace(lines[at])
  {
    hide NonSpace;
    if at > 0 {
      LineCounts(lines[1..], at - 1);
    }
  }

  lemma NonSpaceSlice(lines: seq<string>, at: nat, a: nat, b: nat)
    requires at < a <= b <= |lines| && NonSpace(lines[at]) > 0
    ensures NonSpaceIn(lines[a..b]) < NonSpaceIn(lines)
  {
    hide NonSpace, NonSpaceIn;
    NonSpaceCut(lines, b);
    NonSpaceCut(lines[..b], a);
    assert lines[..b][..a] == lines[..a] && lines[..b][a..] == lines[a..b];
    LineCounts(lines[..a], at);
  }

  lemma NotFence(line: string)
    requires Trim(line) == line && (line == "" || line[0] != '`')
    ensures !IsFence(line)
  {
    hide Trim;
    assert Fence()[0] == '`';
  }

  /** No line of a footer is a fence. */
  lemma FooterHasNoFence(f: Footer)
    requires Presentable(f)
    ensures NoFence(FooterLines(f))
  {
    hide Trim, Field, IsFence, Presentable, Marks;
    ConstantMarks();
    FooterFields(f);
    var l := FooterLines(f);
    NotFence(l[1]);
    NotFence(l[2]);
    NotFence(l[3]);
    NotFence(l[4]);
  }

  /** Text taken from below a result title inside the comments is less than the comments. */
  lemma TakenFromComments(lines: seq<string>, before: seq<string>, comments: string, after: seq<string>,
                          at: nat, open: nat, close: nat)
    requires lines == before + BlockLines("COMMENTS:", "```markdown", comments) + after && |before| > 0
    requires before[|before| - 1] == Fence() && NoFence(after)
    requires |before| - 1 <= at < open < close < |lines| && Marks(Ending("RESULT:"), lines[at])
    requires IsFence(lines[close])
    ensures NonSpace(Join(lines[open + 1..close])) < NonSpace(comments)
  {
    hide Marks, IsFence, Fence, Printed, TrimEnd, NonSpace, Join;
    var body, start := Printed(TrimEnd(comments)), |before| + 2;
    ConstantMarks();
    assert lines[start - 3] == Fence() && lines[start - 2] == "COMMENTS:" && lines[start - 1] == "```markdown";
    assert at >= start;
    assert forall i :: start + |body| < i < |lines| ==> lines[i] == after[i - start - |body| - 1];
    assert close <= start + |body|;
    assert lines[open + 1..close] == body[open + 1 - start..close - start];
    assert lines[at] == body[at - start];
    TitleShows(lines[at]);
    TrimmedCounts(lines[at]);
    NonSpaceSlice(body, at - start, open + 1 - start, close - start);
    NonSpaceOfJoin(lines[open + 1..close]);
    NonSpacePrinted(TrimEnd(comments));
    NonSpaceTrimEnd(comments);
  }

  lemma TitleShows(line: string)
    requires Marks(Ending("RESULT:"), line)
    ensures Trim(line) != ""
  {
  }

  lemma NoResultVerdict(input: string, comments: string, f: Footer)
    requires Presentable(f)
    ensures !SameTexts(AllLines(input, [], comments, f), input, [], comments)
  {
    hide Trim, Clean, FoundIn, BlockLines, FooterLines, Canonical, CanonicalResults, Marks, IsFence, ParseBlock,
      Fence, NonSpace, Presentable;
    ConstantMarks();
    var first := BlockLines("INPUT:", "```json", input);
    var last, footer := BlockLines("COMMENTS:", "```markdown", comments), FooterLines(f);
    var lines := AllLines(input, [], comments, f);
    PrintedNothing();
    assert lines == [] + first + (last + footer);
    assert lines == first + last + footer;
    var i := BlockFound(lines, [], 0, Exactly("INPUT:"), "INPUT:", "```json", input, last + footer);
    Recovered(i.text, input);
    SameCanonical(i.text, input);
    if Clean(input) {
      LastIsFence("INPUT:", "```json", input);
      var result := ParseBlock(lines, i.close, Ending("RESULT:"));
      if result.Some? {
        var block := ParseBlock(lines, result.value.close, Exactly("COMMENTS:"));
        if block.Some? {
          var at := ParseBlockShape(lines, i.close, Ending("RESULT:"));
          var _ := ParseBlockShape(lines, result.value.close, Exactly("COMMENTS:"));
          FooterHasNoFence(f);
          TakenFromComments(lines, first, comments, footer, at, block.value.open, block.value.close);
          SameCanonical(block.value.text, comments);
          TrimKeepsNonSpace(block.value.text);
          TrimKeepsNonSpace(comments);
        }
      }
    }
  }

  // ---------------------------------------------------------------- the round trip

  /** A snapshot can be built exactly when the passphrase gives a key. Read back under the same passphrase it passes
      all four checks exactly when it has one result and all three blocks are clean. */
  lemma RoundTripExactly(s: Scheme, pass: string, input: string, results: seq<string>, comments: string)
    requires Ideal(s) && s.derive(pass).Some?
    ensures SignSnapshot(s, pass, input, results, comments).Some?
    ensures var f := SignSnapshot(s, pass, input, results, comments).value;
            var v := VerifySignatures(s, pass, Printout(input, results, comments, f));
            v.Some? && AllOk(v.value) <==> |results| == 1 && Clean(input) && Clean(results[0]) && Clean(comments)
  {
    hide Ideal, Clean, AllOk, SameTexts, AllLines, VerifySignatures, Printout, SignSnapshot, Presentable;
    HonestFooterPresentable(s, pass, input, results, comments);
    var f := SignSnapshot(s, pass, input, results, comments).value;
    VerdictIsSameTexts(s, pass, input, results, comments);
    if results == [] {
      NoResultVerdict(input, comments, f);
    } else {
      SomeResultsVerdict(input, results, comments, f);
    }
  }

  // ---------------------------------------------------------------- blocks that contain title lines

  /** A line the reader looks for between blocks. */
  predicate IsTitle(line: string) {
    || Trim(line) == "INPUT:" || Trim(line) == "COMMENTS:" || Trim(line) == "SIGNATURES:"
    || (StartsWith(Trim(line), "[") && Marks(Ending("RESULT:"), line))
  }

  lemma TitleIsNoFence(line: string)
    requires IsTitle(line)
    ensures !IsFence(line)
  {
    hide Trim, Marks;
    assert Fence()[0] == '`';
    if StartsWith(Trim(line), "[") {
      assert Trim(line)[..1][0] == Trim(line)[0];
    }
  }

  /** Trimming the end of a line leaves what it trims to. */
  lemma TrimWithEnd(s: string, w: string)
    requires AllSpace(w)
    ensures Trim(s + w) == Trim(s)
  {
    hide Trim;
    var before, after := TrimParts(s);
    assert s + w == before + Trim(s) + (after + w);
    assert AllSpace(after + w);
    TrimOf(before, Trim(s), after + w);
  }

  lemma FenceWithEnd(s: string, w: string)
    requires AllSpace(w)
    ensures IsFence(s + w) <==> IsFence(s)
  {
    hide Trim;
    TrimWithEnd(s, w);
  }

  lemma FenceStripped(s: string)
    ensures IsFence(StripCr(s)) <==> IsFence(s)
  {
    hide Trim;
    if StripCr(s) != s {
      assert IsSpace('\r');
      assert s == StripCr(s) + "\r";
      TrimWithEnd(StripCr(s), "\r");
    }
  }

  /** White space behind a text adds no fence and takes none away from the lines before it. */
  lemma {:induction false} NoFenceBefore(s: string, w: string)
    requires AllSpace(w) && NoFence(Printed(s + w))
    ensures NoFence(Printed(s))
    decreases |s|
  {
    hide Printed, IsFence, IsSpace, StripCr;
    if NoNewline(s) {
      var end := FirstLine(s, w);
      PrintedLast(s);
      FenceStripped(s + end);
      FenceStripped(s);
      FenceWithEnd(s, end);
      assert IsFence(Printed(s + w)[0]) <==> IsFence(s);
    } else {
      var line, rest := CutLine(s);
      assert s + w == line + "\n" + (rest + w);
      PrintedFirst(line, rest);
      PrintedFirst(line, rest + w);
      var all, more := Printed(s + w), Printed(rest + w);
      assert all[0] == StripCr(line);
      assert forall i :: 0 <= i < |more| ==> more[i] == all[i + 1];
      NoFenceBefore(rest, w);
    }
  }

  /** The first line of a text whose own last line goes on with white space. */
  lemma FirstLine(s: string, w: string) returns (end: string)
    requires NoNewline(s) && AllSpace(w)
    ensures AllSpace(end) && Printed(s + w)[0] == StripCr(s + end)
  {
    hide Printed, IsSpace, StripCr;
    if NoNewline(w) {
      end := w;
      PrintedLast(s + w);
    } else {
      var line, rest := CutLine(w);
      assert s + w == (s + line) + "\n" + rest;
      PrintedFirst(s + line, rest);
      assert forall i :: 0 <= i < |line| ==> line[i] == w[i];
      end := line;
    }
  }

  /** Lines joined to a block are the lines it is printed as. */
  lemma {:induction false} PrintedJoin(lines: seq<string>)
    requires lines != [] && forall i :: 0 <= i < |lines| ==> IsLine(lines[i])
    ensures Printed(Join(lines)) == lines && !HasCrLf(Join(lines))
  {
    hide Printed, HasCrLf;
    if |lines| == 1 {
      OneLine(lines[0]);
      NoCrLf(lines[0]);
    } else {
      PrintedJoin(lines[1..]);
      PrintedFirst(lines[0], Join(lines[1..]));
      CrLfSplit(lines[0], Join(lines[1..]));
    }
  }

  lemma NoCrLf(s: string)
    requires NoNewline(s)
    ensures !HasCrLf(s)
  {
  }

  lemma CrLfInPart(before: string, t: string, after: string)
    requires HasCrLf(t)
    ensures HasCrLf(before + t + after)
  {
    var i :| 0 < i < |t| && t[i] == '\n' && t[i - 1] == '\r';
    var all := before + t + after;
    assert all[|before| + i] == '\n' && all[|before| + i - 1] == '\r';
  }

  /** Title lines inside blocks do not disturb the reader: any block is clean whose lines are titles or no fences and
      end without a carriage return. */
  lemma TitlesInsideAreClean(lines: seq<string>)
    requires forall i :: 0 <= i < |lines| ==> IsLine(lines[i]) && (IsTitle(lines[i]) || !IsFence(lines[i]))
    ensures Clean(Join(lines))
  {
    hide IsLine, IsTitle, IsFence, Printed, Trim, TrimEnd, HasCrLf, Join;
    var own := if lines == [] then [""] else lines;
    BlankLine();
    assert Join(own) == Join(lines);
    forall i | 0 <= i < |own| ensures IsLine(own[i]) && !IsFence(own[i]) {
      if lines != [] && IsTitle(lines[i]) {
        TitleIsNoFence(lines[i]);
      }
    }
    var block := Join(own);
    PrintedJoin(own);
    var rest := TrimEndParts(block);
    NoFenceBefore(TrimEnd(block), rest);
    var before, after := TrimParts(block);
    if HasCrLf(Trim(block)) {
      CrLfInPart(before, Trim(block), after);
    }
  }

  lemma BlankLine()
    ensures Join([]) == Join([""]) && IsLine("") && !IsFence("")
  {
  }
}
