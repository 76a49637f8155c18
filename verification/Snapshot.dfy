/**
  Signed text snapshots: canonical blocks, progressive signatures and the footer
  (p2p/core-engine/src/snapshot_signature.rs), and the printer and the line reader of whole snapshots
  (p2p/core-engine/src/snapshot_suite.rs).
 */
module Snapshot {
  import opened Encoding
  import opened Prelude
  import opened SnapshotText

  /** The primitives. Messages are texts, standing for their UTF-8 bytes. */
  datatype Scheme = Scheme(
    derive: string -> Option<Key>,
    publicOf: Key -> Key,
    validKey: Key -> bool,
    sign: (Key, string) -> bytes,
    verify: (Key, string, bytes) -> bool)

  /** A signature verifies for the signed message and for no other. */
  ghost predicate Ideal(s: Scheme) {
    && (forall k: Key :: s.validKey(s.publicOf(k)))
    && (forall k: Key, m: string :: s.sign(k, m) != [])
    && (forall k: Key, m: string, n: string :: s.verify(s.publicOf(k), n, s.sign(k, m)) <==> n == m)
  }

  /** No byte string is a signature of two messages under one key, whoever made it. */
  ghost predicate Binding(s: Scheme) {
    forall k: Key, m: string, n: string, sig: bytes :: s.verify(k, m, sig) && s.verify(k, n, sig) ==> m == n
  }

  // ---------------------------------------------------------------- canonical text

  function Canonical(block: string): string {
    Trim(block) + "\n"
  }

  function CanonicalEach(results: seq<string>): (r: seq<string>)
    ensures |r| == |results|
  {
    if results == [] then [] else [Canonical(results[0])] + CanonicalEach(results[1..])
  }

  function CanonicalResults(results: seq<string>): string {
    if results == [] then "\n" else Join(CanonicalEach(results))
  }

  // ---------------------------------------------------------------- signing and verifying

  datatype Footer = Footer(publicKey: string, inputSig: string, resultSig: string, commentsSig: string)

  datatype Verification = Verification(keyMatch: bool, inputOk: bool, resultOk: bool, commentsOk: bool)

  predicate AllOk(v: Verification) {
    v.keyMatch && v.inputOk && v.resultOk && v.commentsOk
  }

  function AsText(b: bytes): (t: string)
    ensures |t| == |b| && forall i :: 0 <= i < |b| ==> t[i] == b[i] as char
  {
    seq(|b|, i requires 0 <= i < |b| => b[i] as char)
  }

  predicate Ascii(t: string) {
    forall i :: 0 <= i < |t| ==> t[i] as int < 128
  }

  function AsciiBytes(t: string): (b: bytes)
    requires Ascii(t)
    ensures |b| == |t| && forall i :: 0 <= i < |b| ==> b[i] == t[i] as int
  {
    seq(|t|, i requires 0 <= i < |t| => t[i] as int)
  }

  /** Both decoders reject every byte of a character outside ASCII. */
  function DecodeHex(t: string): Option<bytes> {
    if Ascii(t) then HexDecode(AsciiBytes(t)) else None
  }

  function DecodeBase64(t: string): Option<bytes> {
    if Ascii(t) then Base64Decode(STANDARD, AsciiBytes(t)) else None
  }

  function SignSnapshot(s: Scheme, pass: string, input: string, results: seq<string>, comments: string)
    : Option<Footer>
  {
    var i, r, c := Canonical(input), CanonicalResults(results), Canonical(comments);
    match s.derive(pass)
    case None => None
    case Some(k) =>
      Some(Footer(
        AsText(Hex(s.publicOf(k))),
        AsText(Base64(STANDARD, s.sign(k, i))),
        AsText(Base64(STANDARD, s.sign(k, i + r))),
        AsText(Base64(STANDARD, s.sign(k, i + r + c)))))
  }

  function VerifySnapshot(s: Scheme, pass: string, input: string, results: seq<string>, comments: string, f: Footer)
    : Verification
  {
    var key := DecodeHex(f.publicKey);
    if key.None? || |key.value| != 32 || !s.validKey(key.value) || s.derive(pass).None? then
      Verification(false, false, false, false)
    else
      var vk: Key := key.value;
      var keyMatch := s.publicOf(s.derive(pass).value) == vk;
      var i, r, c := Canonical(input), CanonicalResults(results), Canonical(comments);
      var inputSig, resultSig, commentsSig :=
        DecodeBase64(f.inputSig), DecodeBase64(f.resultSig), DecodeBase64(f.commentsSig);
      if inputSig.None? || resultSig.None? || commentsSig.None? then
        Verification(keyMatch, false, false, false)
      else
        Verification(keyMatch, s.verify(vk, i, inputSig.value), s.verify(vk, i + r, resultSig.value),
                     s.verify(vk, i + r + c, commentsSig.value))
  }

  // ---------------------------------------------------------------- the footer as text

  function FooterLines(f: Footer): (r: seq<string>)
    ensures |r| == 5
  {
    ["SIGNATURES:", "Public key: " + f.publicKey, "Input signature: " + f.inputSig,
     "Result signature: " + f.resultSig, "Comments signature: " + f.commentsSig]
  }

  function FormatFooter(f: Footer): string {
    Join(FooterLines(f))
  }

  datatype Marker = Exactly(text: string) | Ending(text: string) | FenceMark

  predicate Marks(m: Marker, line: string) {
    match m
    case Exactly(t) => Trim(line) == t
    case Ending(t) => |t| <= |Trim(line)| && Trim(line)[|Trim(line)| - |t|..] == t
    case FenceMark => IsFence(line)
  }

  predicate Unmarked(m: Marker, lines: seq<string>, from: nat, to: nat)
    requires to <= |lines|
  {
    forall i :: from <= i < to ==> !Marks(m, lines[i])
  }

  /** The first marked line from a position on. */
  function Find(m: Marker, lines: seq<string>, from: nat): (r: Option<nat>)
    ensures r.Some? ==> from <= r.value < |lines| && Marks(m, lines[r.value]) && Unmarked(m, lines, from, r.value)
    ensures r.None? ==> Unmarked(m, lines, from, |lines|)
    decreases |lines| - from
  {
    if from >= |lines| then None
    else if Marks(m, lines[from]) then Some(from)
    else Find(m, lines, from + 1)
  }

  /** The last marked line below a position. */
  function FindLast(m: Marker, lines: seq<string>, to: nat): (r: Option<nat>)
    requires to <= |lines|
    ensures r.Some? ==> r.value < to && Marks(m, lines[r.value]) && Unmarked(m, lines, r.value + 1, to)
    ensures r.None? ==> Unmarked(m, lines, 0, to)
  {
    if to == 0 then None
    else if Marks(m, lines[to - 1]) then Some(to - 1)
    else FindLast(m, lines, to - 1)
  }

  function NonBlank(lines: seq<string>): seq<string> {
    if lines == [] then []
    else if Trim(lines[0]) == "" then NonBlank(lines[1..])
    else [lines[0]] + NonBlank(lines[1..])
  }

  /** What follows a prefix, trimmed. */
  function Field(prefix: string, line: string): Option<string> {
    if StartsWith(line, prefix) then Some(Trim(line[|prefix|..])) else None
  }

  function ParseFooter(lines: seq<string>): Option<Footer> {
    match FindLast(Exactly("SIGNATURES:"), lines, |lines|)
    case None => None
    case Some(at) =>
      var after := NonBlank(lines[at + 1..]);
      if |after| < 4 then None
      else
        var key, i, r, c := Field("Public key: ", after[0]), Field("Input signature: ", after[1]),
                            Field("Result signature: ", after[2]), Field("Comments signature: ", after[3]);
        if key.None? || i.None? || r.None? || c.None? then None
        else if key.value == "" || i.value == "" || r.value == "" || c.value == "" then None
        else Some(Footer(key.value, i.value, r.value, c.value))
  }

  function ParseSnapshotFooter(text: string): Option<Footer> {
    ParseFooter(Lines(text))
  }

  // ---------------------------------------------------------------- the whole snapshot as text

  function Decimal(n: nat): string {
    if n < 10 then [('0' as int + n) as char] else Decimal(n / 10) + Decimal(n % 10)
  }

  function ResultPiece(i: nat, result: string): (r: seq<string>)
    ensures |r| == 4
  {
    ["[" + Decimal(i) + "] RESULT:", "```json", TrimEnd(result), "```"]
  }

  function ResultPieces(results: seq<string>, n: nat): seq<string>
    requires n <= |results|
  {
    if n == 0 then [] else ResultPieces(results, n - 1) + ResultPiece(n - 1, results[n - 1])
  }

  function Pieces(input: string, results: seq<string>, comments: string): seq<string> {
    ["INPUT:", "```json", TrimEnd(input), "```"] + ResultPieces(results, |results|)
    + ["COMMENTS:", "```markdown", TrimEnd(comments), "```"]
  }

  function Printout(input: string, results: seq<string>, comments: string, f: Footer): string {
    Join(Pieces(input, results, comments) + [FormatFooter(f)])
  }

  /** Pushes the four lines of a block. */
  method PushBlock(lines: seq<string>, title: string, fence: string, body: string) returns (r: seq<string>)
    ensures r == lines + [title, fence, TrimEnd(body), "```"]
  {
    hide *;
    r := lines;
    r := r + [title];
    r := r + [fence];
    r := r + [TrimEnd(body)];
    r := r + ["```"];
  }

  method BuildSnapshot(s: Scheme, pass: string, input: string, results: seq<string>, comments: string)
    returns (text: Option<string>)
    ensures var f := SignSnapshot(s, pass, input, results, comments);
            text == if f.None? then None else Some(Printout(input, results, comments, f.value))
  {
    hide TrimEnd, Decimal, FormatFooter, SignSnapshot, Join, Canonical, CanonicalResults;
    var sig := SignSnapshot(s, pass, input, results, comments);
    if sig.None? {
      return None;
    }
    var lines := PushBlock([], "INPUT:", "```json", input);
    ghost var head := lines;
    for i := 0 to |results|
      invariant lines == head + ResultPieces(results, i)
    {
      lines := PushBlock(lines, "[" + Decimal(i) + "] RESULT:", "```json", results[i]);
    }
    lines := PushBlock(lines, "COMMENTS:", "```markdown", comments);
    assert lines == Pieces(input, results, comments);
    text := Some(Join(lines + [FormatFooter(sig.value)]));
  }

  /** A block's text, and the line that closes it. */
  datatype Block = Block(text: string, open: nat, close: nat)

  function ParseBlock(lines: seq<string>, from: nat, title: Marker): Option<Block> {
    match Find(title, lines, from)
    case None => None
    case Some(at) =>
      (match Find(FenceMark, lines, at + 1)
       case None => None
       case Some(open) =>
         (match Find(FenceMark, lines, open + 1)
          case None => None
          case Some(close) => Some(Block(Join(lines[open + 1..close]), open, close))))
  }

  function ParseBlocks(lines: seq<string>): Option<(string, seq<string>, string)> {
    match ParseBlock(lines, 0, Exactly("INPUT:"))
    case None => None
    case Some(input) =>
      (match ParseBlock(lines, input.close, Ending("RESULT:"))
       case None => None
       case Some(result) =>
         (match ParseBlock(lines, result.close, Exactly("COMMENTS:"))
          case None => None
          case Some(comments) => Some((input.text, [result.text], comments.text))))
  }

  function VerifySignatures(s: Scheme, pass: string, text: string): Option<Verification> {
    match ParseSnapshotFooter(text)
    case None => None
    case Some(f) =>
      (match ParseBlocks(Lines(text))
       case None => None
       case Some((input, results, comments)) => Some(VerifySnapshot(s, pass, input, results, comments, f)))
  }
}
