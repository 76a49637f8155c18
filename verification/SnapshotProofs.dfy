/** What a signed snapshot survives, and what its signatures bind. */
module SnapshotProofs {
  import opened Encoding
  import opened Prelude
  import opened SnapshotText
  import opened Snapshot

  // ---------------------------------------------------------------- encoded fields are plain words

  /** Not empty, plain ASCII, no white space. */
  predicate Word(t: string) {
    t != "" && Ascii(t) && forall i :: 0 <= i < |t| ==> !IsSpace(t[i])
  }

  predicate Printable(b: bytes) {
    forall i :: 0 <= i < |b| ==> 33 <= b[i] < 127
  }

  lemma WordOf(b: bytes)
    requires b != [] && Printable(b)
    ensures Word(AsText(b)) && AsciiBytes(AsText(b)) == b
  {
    var t := AsText(b);
    assert forall i :: 0 <= i < |b| ==> t[i] as int == b[i];
    assert AsciiBytes(t) == b;
  }

  lemma GroupPrintable(e: Engine, b: bytes)
    requires Usable(e) && 0 < |b| <= 3
    ensures Printable(Group(e, b))
  {
  }

  lemma {:induction false} SymbolsPrintable(e: Engine, b: bytes)
    requires Usable(e)
    ensures Printable(Symbols(e, b))
    decreases |b|
  {
    hide Group, Usable;
    if 0 < |b| <= 3 {
      GroupPrintable(e, b);
    } else if |b| > 3 {
      GroupPrintable(e, b[..3]);
      SymbolsPrintable(e, b[3..]);
    }
  }

  lemma Base64Field(b: bytes)
    requires b != []
    ensures var t := AsText(Base64(STANDARD, b)); Word(t) && DecodeBase64(t) == Some(b)
  {
    hide Symbols, FromSymbols, IsSpace;
    SymbolsPrintable(STANDARD, b);
    Base64RoundTrip(STANDARD, b);
    WordOf(Base64(STANDARD, b));
  }

  lemma HexField(k: Key)
    ensures var t := AsText(Hex(k)); Word(t) && DecodeHex(t) == Some(k)
  {
    hide Hex, HexDecode, IsSpace;
    HexRoundTrip(k);
    WordOf(Hex(k));
  }

  predicate Presentable(f: Footer) {
    Word(f.publicKey) && Word(f.inputSig) && Word(f.resultSig) && Word(f.commentsSig)
  }

  lemma HonestFooterPresentable(s: Scheme, pass: string, input: string, results: seq<string>, comments: string)
    requires Ideal(s) && s.derive(pass).Some?
    ensures var f := SignSnapshot(s, pass, input, results, comments); f.Some? && Presentable(f.value)
  {
    hide Word, Canonical, CanonicalResults;
    var k := s.derive(pass).value;
    var i, r, c := Canonical(input), CanonicalResults(results), Canonical(comments);
    HexField(s.publicOf(k));
    Base64Field(s.sign(k, i));
    Base64Field(s.sign(k, i + r));
    Base64Field(s.sign(k, i + r + c));
  }

  // ---------------------------------------------------------------- what the signatures bind

  /** Each check of a signed snapshot compares one concatenation of canonical texts, and nothing else. */
  lemma ChecksCompareTexts(s: Scheme, pass: string, input: string, results: seq<string>, comments: string,
                           input': string, results': seq<string>, comments': string)
    requires Ideal(s) && s.derive(pass).Some?
    ensures var v := VerifySnapshot(s, pass, input', results', comments',
                                    SignSnapshot(s, pass, input, results, comments).value);
            var i, r, c := Canonical(input), CanonicalResults(results), Canonical(comments);
            var i', r', c' := Canonical(input'), CanonicalResults(results'), Canonical(comments');
            v == Verification(true, i' == i, i' + r' == i + r, i' + r' + c' == i + r + c)
  {
    hide Word, Canonical, CanonicalResults, AsText, DecodeHex, DecodeBase64, Hex, Base64;
    var k := s.derive(pass).value;
    var i, r, c := Canonical(input), CanonicalResults(results), Canonical(comments);
    HexField(s.publicOf(k));
    Base64Field(s.sign(k, i));
    Base64Field(s.sign(k, i + r));
    Base64Field(s.sign(k, i + r + c));
  }

  /** Changing the canonical text of one block fails its own check and every later one, and no earlier one. */
  lemma OneChangeFailsFromThere(s: Scheme, pass: string, input: string, results: seq<string>, comments: string,
                                input': string, results': seq<string>, comments': string)
    requires Ideal(s) && s.derive(pass).Some?
    ensures var v := VerifySnapshot(s, pass, input', results', comments',
                                    SignSnapshot(s, pass, input, results, comments).value);
            var sameI := Canonical(input') == Canonical(input);
            var sameR := CanonicalResults(results') == CanonicalResults(results);
            var sameC := Canonical(comments') == Canonical(comments);
            && (sameR && sameC ==> v == Verification(true, sameI, sameI, sameI))
            && (sameI && sameC ==> v == Verification(true, true, sameR, sameR))
            && (sameI && sameR ==> v == Verification(true, true, true, sameC))
            && (AllOk(v) <==> sameI && sameR && sameC)
  {
    hide Canonical, CanonicalResults, VerifySnapshot, SignSnapshot;
    ChecksCompareTexts(s, pass, input, results, comments, input', results', comments');
    var i, r, c := Canonical(input), CanonicalResults(results), Canonical(comments);
    var i', r', c' := Canonical(input'), CanonicalResults(results'), Canonical(comments');
    if i' + r == i + r {
      SuffixCancels(i', i, r);
    }
    if i' + r + c == i + r + c {
      SuffixCancels(i' + r, i + r, c);
      SuffixCancels(i', i, r);
    }
    PrefixCancels(i, r', r);
    if i + r' + c == i + r + c {
      SuffixCancels(i + r', i + r, c);
    }
    PrefixCancels(i + r, c', c);
  }

  /** A footer one of whose fields does not decode passes none of the three checks, whatever the other fields are; the
      key check asks for the very key the passphrase gives. */
  lemma BrokenFooterFailsAll(s: Scheme, pass: string, input: string, results: seq<string>, comments: string, f: Footer)
    ensures var v := VerifySnapshot(s, pass, input, results, comments, f);
            var key := DecodeHex(f.publicKey);
            var usable := key.Some? && |key.value| == 32 && s.validKey(key.value) && s.derive(pass).Some?;
            var decodes :=
              DecodeBase64(f.inputSig).Some? && DecodeBase64(f.resultSig).Some? && DecodeBase64(f.commentsSig).Some?;
            && (v.inputOk || v.resultOk || v.commentsOk ==> usable && decodes)
            && (v.keyMatch <==> usable && key.value == s.publicOf(s.derive(pass).value))
  {
    hide DecodeHex, DecodeBase64, Canonical, CanonicalResults;
  }

  lemma SuffixCancels(a: string, b: string, end: string)
    requires a + end == b + end
    ensures a == b
  {
    SplitEqual(a, end, b, end);
  }

  lemma PrefixCancels(start: string, a: string, b: string)
    ensures start + a == start + b <==> a == b
  {
    if start + a == start + b {
      SplitEqual(start, a, start, b);
    }
  }

  /** Two snapshots that pass all three checks under one footer have the same canonical texts, whoever signed and
      under whatever passphrase they are checked. */
  lemma FooterBindsTexts(s: Scheme, f: Footer, pass: string, pass': string,
                         input: string, results: seq<string>, comments: string,
                         input': string, results': seq<string>, comments': string)
    requires Binding(s)
    requires var v := VerifySnapshot(s, pass, input, results, comments, f);
             v.inputOk && v.resultOk && v.commentsOk
    requires var v' := VerifySnapshot(s, pass', input', results', comments', f);
             v'.inputOk && v'.resultOk && v'.commentsOk
    ensures Canonical(input) == Canonical(input')
    ensures CanonicalResults(results) == CanonicalResults(results')
    ensures Canonical(comments) == Canonical(comments')
  {
    hide Canonical, CanonicalResults, DecodeHex, DecodeBase64;
    var i, r, c := Canonical(input), CanonicalResults(results), Canonical(comments);
    var i', r', c' := Canonical(input'), CanonicalResults(results'), Canonical(comments');
    PrefixCancels(i, r', r);
    PrefixCancels(i + r, c', c);
  }

  /** Moving text over the boundary of two blocks changes both but leaves the later checks true: the concatenation
      does not show where a block ends. */
  lemma BoundaryMoves(s: Scheme, pass: string, a: string, b: string, c: string, comments: string)
    requires Ideal(s) && s.derive(pass).Some?
    requires a != "" && b != "" && c != "" && Tight(a) && Tight(b) && Tight(c)
    ensures var f := SignSnapshot(s, pass, a, [b + "\n" + c], comments).value;
            VerifySnapshot(s, pass, a + "\n" + b, [c], comments, f) == Verification(true, false, true, true)
  {
    hide VerifySnapshot, SignSnapshot, CanonicalResults, Trim, Ideal;
    ChecksCompareTexts(s, pass, a, [b + "\n" + c], comments, a + "\n" + b, [c], comments);
    TightJoined(a, b);
    TightJoined(b, c);
    TightTrims(a);
    TightTrims(a + "\n" + b);
    OneResult(b + "\n" + c);
    OneResult(c);
    assert a + "\n" + (b + "\n" + c + "\n") == a + "\n" + b + "\n" + (c + "\n");
    assert |a + "\n"| != |a + "\n" + b + "\n"|;
  }

  lemma TightJoined(a: string, b: string)
    requires a != "" && b != "" && Tight(a) && Tight(b)
    ensures Tight(a + "\n" + b)
  {
  }

  lemma OneResult(t: string)
    requires Tight(t)
    ensures CanonicalResults([t]) == t + "\n"
  {
    TightTrims(t);
    CanonicalFirst([t]);
  }

  lemma TightTrims(t: string)
    requires Tight(t)
    ensures Trim(t) == t
  {
    TrimOf("", t, "");
    assert "" + t + "" == t;
  }

  // ---------------------------------------------------------------- when the results bind the list

  /** The signed results text does not tell two results from one with an empty line inside, nor no results from a
      blank one. */
  lemma ListNotBound()
    ensures CanonicalResults(["a", "b"]) == CanonicalResults(["a\n\nb"])
    ensures CanonicalResults([]) == CanonicalResults([""])
  {
    assert CanonicalResults([]) == "\n";
    OneResult("");
    hide CanonicalResults, Trim;
    TightTrims("a");
    CanonicalFirst(["a", "b"]);
    assert ["a", "b"][1..] == ["b"];
    OneResult("b");
    OneResult("a\n\nb");
  }

  /** No empty line inside. */
  predicate Dense(t: string) {
    forall i :: 0 < i < |t| ==> !(t[i - 1] == '\n' && t[i] == '\n')
  }

  predicate AllDense(results: seq<string>) {
    forall i :: 0 <= i < |results| ==> Dense(Trim(results[i]))
  }

  function TrimEach(results: seq<string>): (r: seq<string>)
    ensures |r| == |results|
  {
    if results == [] then [] else [Trim(results[0])] + TrimEach(results[1..])
  }

  lemma CanonicalFirst(results: seq<string>)
    requires results != []
    ensures CanonicalResults(results) ==
            if |results| == 1 then Trim(results[0]) + "\n"
            else Trim(results[0]) + "\n\n" + CanonicalResults(results[1..])
  {
    hide Trim;
    if |results| == 1 {
      assert CanonicalEach(results) == [Canonical(results[0])];
    } else {
      assert CanonicalEach(results)[1..] == CanonicalEach(results[1..]);
      assert Trim(results[0]) + "\n\n" == Trim(results[0]) + "\n" + "\n";
    }
  }

  /** A dense tight text followed by an empty line ends where the empty line begins. */
  lemma FirstGap(t: string, more: string, u: string, rest: string)
    requires Dense(t) && Dense(u) && Tight(t) && Tight(u)
    requires t + "\n\n" + more == u + "\n\n" + rest
    ensures t == u && more == rest
  {
    assert t + "\n\n" + more == t + ("\n\n" + more) && u + "\n\n" + rest == u + ("\n\n" + rest);
    GapAfter(u, "\n\n" + rest, |t|);
    GapAfter(t, "\n\n" + more, |u|);
    SplitEqual(t, "\n\n" + more, u, "\n\n" + rest);
    SplitEqual("\n\n", more, "\n\n", rest);
  }

  /** An empty line cannot begin inside a dense tight text. */
  lemma GapAfter(u: string, rest: string, i: nat)
    requires Tight(u) && Dense(u) && i + 1 < |u| + |rest|
    requires (u + rest)[i] == '\n' && (u + rest)[i + 1] == '\n'
    ensures |u| <= i
  {
    assert IsSpace('\n');
  }

  /** The results, a blank one standing for none. */
  function AtLeastOne(results: seq<string>): seq<string> {
    if results == [] then [""] else results
  }

  /** Lists of results without empty lines inside have the same canonical text exactly when they are the same up to white
      space around each, no results counting as one blank result. */
  lemma ListBound(results: seq<string>, results': seq<string>)
    requires AllDense(results) && AllDense(results')
    ensures CanonicalResults(results) == CanonicalResults(results')
            <==> TrimEach(AtLeastOne(results)) == TrimEach(AtLeastOne(results'))
  {
    hide CanonicalResults, TrimEach, Trim;
    var some, some' := AtLeastOne(results), AtLeastOne(results');
    ListNotBound();
    TightTrims("");
    if CanonicalResults(results) == CanonicalResults(results') {
      SameTextSameList(some, some');
    }
    if TrimEach(some) == TrimEach(some') {
      SameListSameText(some, some');
    }
  }

  lemma {:induction false} SameListSameText(results: seq<string>, results': seq<string>)
    requires results != [] && results' != [] && TrimEach(results) == TrimEach(results')
    ensures CanonicalResults(results) == CanonicalResults(results')
    decreases |results|
  {
    hide CanonicalResults, Trim;
    CanonicalFirst(results);
    CanonicalFirst(results');
    assert |results| == |TrimEach(results)| == |results'|;
    assert TrimEach(results)[0] == Trim(results[0]) && TrimEach(results')[0] == Trim(results'[0]);
    if |results| > 1 {
      assert TrimEach(results)[1..] == TrimEach(results[1..]) && TrimEach(results')[1..] == TrimEach(results'[1..]);
      SameListSameText(results[1..], results'[1..]);
    }
  }

  lemma {:induction false} SameTextSameList(results: seq<string>, results': seq<string>)
    requires results != [] && results' != [] && AllDense(results) && AllDense(results')
    requires CanonicalResults(results) == CanonicalResults(results')
    ensures TrimEach(results) == TrimEach(results')
  {
    hide CanonicalResults, Trim, Dense, Tight;
    CanonicalFirst(results);
    CanonicalFirst(results');
    var t, u := Trim(results[0]), Trim(results'[0]);
    var _, _ := TrimParts(results[0]);
    var _, _ := TrimParts(results'[0]);
    assert Dense(t) && Dense(u);
    if |results| == 1 && |results'| == 1 {
      SuffixCancels(t, u, "\n");
    } else if |results| == 1 {
      NoGapAtEnd(t, u, CanonicalResults(results'[1..]));
      assert false;
    } else if |results'| == 1 {
      NoGapAtEnd(u, t, CanonicalResults(results[1..]));
      assert false;
    } else {
      FirstGap(t, CanonicalResults(results[1..]), u, CanonicalResults(results'[1..]));
      SameTextSameList(results[1..], results'[1..]);
    }
  }

  lemma NoGapAtEnd(t: string, u: string, rest: string)
    requires Dense(t) && Tight(t)
    ensures t + "\n" != u + "\n\n" + rest
  {
    if t + "\n" == u + "\n\n" + rest {
      assert (u + "\n\n" + rest)[|u|] == '\n' && (u + "\n\n" + rest)[|u| + 1] == '\n';
      GapAfter(t, "\n", |u|);
    }
  }
}
