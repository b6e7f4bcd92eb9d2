/** utils/check-style.py: patches, their textual form, and `parse_patchset`. */
module PatchSet {
  import opened Wrappers

  datatype Kind = Src | Dst | Both

  /** `PatchChunkLine` after one of its setters has been called. */
  datatype Line = Line(kind: Kind, text: string)

  datatype Chunk = Chunk(src_pos: int, dst_pos: int, lines: seq<Line>)

  datatype Patch = Patch(src: string, dst: string, chunks: seq<Chunk>)

  // ---------- numbers ----------

  predicate IsDigit(c: char) {
    '0' <= c <= '9'
  }

  function DigitOf(d: nat): (c: char)
    requires d < 10
    ensures IsDigit(c) && ValueOf(c) == d
  {
    ('0' as int + d) as char
  }

  function ValueOf(c: char): (d: nat)
    requires IsDigit(c)
    ensures d < 10
  {
    c as int - '0' as int
  }

  predicate AllDigits(s: string) {
    forall i :: 0 <= i < |s| ==> IsDigit(s[i])
  }

  /** `%d` for a number that is not negative. */
  function Digits(n: nat): (s: string)
    ensures s != "" && AllDigits(s)
  {
    if n < 10 then [DigitOf(n)] else Digits(n / 10) + [DigitOf(n % 10)]
  }

  function Decimal(n: int): string {
    if n < 0 then "-" + Digits(-n) else Digits(n)
  }

  /** `int` of a string of digits. */
  function Number(s: string): nat
    requires AllDigits(s)
  {
    if s == "" then 0 else 10 * Number(s[..|s| - 1]) + ValueOf(s[|s| - 1])
  }

  lemma {:induction false} NumberOfDigits(n: nat)
    ensures Number(Digits(n)) == n
  {
    if n < 10 {
      assert Digits(n)[..0] == "";
    } else {
      NumberOfDigits(n / 10);
      assert Digits(n)[..|Digits(n)| - 1] == Digits(n / 10);
    }
  }

  function DigitCount(s: string): (k: nat)
    ensures k <= |s| && AllDigits(s[..k]) && (k < |s| ==> !IsDigit(s[k]))
  {
    if s == "" || !IsDigit(s[0]) then 0 else
      var k := DigitCount(s[1..]);
      assert s[..k + 1] == [s[0]] + s[1..][..k];
      k + 1
  }

  // ---------- the line patterns ----------

  predicate OneLine(s: string) {
    '\n' !in s
  }

  /** The text that `(.*)$` matches: everything up to a final newline, if no other newline is in it. */
  function RestOfLine(s: string): Option<string> {
    var body := if s != "" && s[|s| - 1] == '\n' then s[..|s| - 1] else s;
    if OneLine(body) then Some(body) else None
  }

  /** A pattern made of fixed characters and `(.*)$`. */
  function After(prefix: string, line: string): Option<string> {
    if prefix <= line then RestOfLine(line[|prefix|..]) else None
  }

  /** `([0-9]+)` and what follows it. */
  function ReadNumber(s: string): Option<(nat, string)> {
    var k := DigitCount(s);
    if k == 0 then None else Some((Number(s[..k]), s[k..]))
  }

  function ReadFixed(fixed: string, s: string): Option<string> {
    if fixed <= s then Some(s[|fixed|..]) else None
  }

  /** A fixed string, then a number. */
  function ReadField(fixed: string, s: string): Option<(nat, string)> {
    match ReadFixed(fixed, s)
    case None => None
    case Some(rest) => ReadNumber(rest)
  }

  datatype Header = Header(src_pos: nat, src_len: nat, dst_pos: nat, dst_len: nat)

  /** The chunk pattern; it is not anchored at the end of the line. */
  function ReadHeader(line: string): Option<Header> {
    match ReadField("@@ -", line)
    case None => None
    case Some((a, rest1)) =>
      match ReadField(",", rest1)
      case None => None
      case Some((b, rest2)) =>
        match ReadField(" +", rest2)
        case None => None
        case Some((c, rest3)) =>
          match ReadField(",", rest3)
          case None => None
          case Some((d, rest4)) => if ReadFixed(" @@", rest4).Some? then Some(Header(a, b, c, d)) else None
  }

  // ---------- parsing ----------

  /** AttributeError: no patch yet.  UnboundLocalError: no chunk yet.  NoMatch: the final `raise`. */
  datatype Error = AttributeError | UnboundLocalError | NoMatch

  /**
   The patches so far, and which chunk is current: after a new file header it is
   still the last chunk of the earlier patch.
   */
  datatype Parser = Parser(patchset: seq<Patch>, chunk: Option<(nat, nat)>)

  predicate ChunkExists(s: Parser) {
    s.chunk.Some? ==> s.chunk.value.0 < |s.patchset| && s.chunk.value.1 < |s.patchset[s.chunk.value.0].chunks|
  }

  type Reader = s: Parser | ChunkExists(s) witness Parser([], None)

  function SetSrc(s: Reader, name: string): Reader {
    s.(patchset := s.patchset + [Patch(name, "", [])])
  }

  function SetDst(s: Reader, name: string): Result<Reader, Error> {
    var n := |s.patchset|;
    if n == 0 then Err(AttributeError)
    else Ok(s.(patchset := s.patchset[n - 1 := s.patchset[n - 1].(dst := name)]))
  }

  function AddChunk(s: Reader, chunk: Chunk): Result<Reader, Error> {
    var n := |s.patchset|;
    if n == 0 then Err(AttributeError)
    else
      var patch := s.patchset[n - 1];
      Ok(Parser(s.patchset[n - 1 := patch.(chunks := patch.chunks + [chunk])], Some((n - 1, |patch.chunks|))))
  }

  function AddLine(s: Reader, line: Line): Result<Reader, Error> {
    match s.chunk
    case None => Err(UnboundLocalError)
    case Some((i, j)) =>
      var patch := s.patchset[i];
      var chunk := patch.chunks[j];
      Ok(s.(patchset := s.patchset[i := patch.(chunks := patch.chunks[j := chunk.(lines := chunk.lines + [line])])]))
  }

  /** The first three patterns: file names and chunk headers. */
  predicate IsHead(line: string) {
    After("--- ", line).Some? || After("+++ ", line).Some? || ReadHeader(line).Some?
  }

  function StepHead(s: Reader, line: string): Result<Reader, Error>
    requires IsHead(line)
  {
    if After("--- ", line).Some? then Ok(SetSrc(s, After("--- ", line).value))
    else if After("+++ ", line).Some? then SetDst(s, After("+++ ", line).value)
    else AddChunk(s, Chunk(ReadHeader(line).value.src_pos, ReadHeader(line).value.dst_pos, []))
  }

  /** A line that one of the other three patterns matches. */
  predicate IsBody(line: string) {
    After("-", line).Some? || After("+", line).Some? || After(" ", line).Some?
  }

  /** The other three: removed, added and common lines. */
  function StepBody(s: Reader, line: string): Result<Reader, Error> {
    if After("-", line).Some? then AddLine(s, Line(Src, After("-", line).value))
    else if After("+", line).Some? then AddLine(s, Line(Dst, After("+", line).value))
    else if After(" ", line).Some? then AddLine(s, Line(Both, After(" ", line).value))
    else Err(NoMatch)
  }

  /** The loop body: the first pattern that matches decides. */
  function Step(s: Reader, line: string): Result<Reader, Error> {
    if IsHead(line) then StepHead(s, line) else StepBody(s, line)
  }

  function ParseFrom(s: Reader, lines: seq<string>): Result<Reader, Error>
    decreases |lines|
  {
    if lines == [] then Ok(s)
    else
      var r := Step(s, lines[0]);
      if r.Ok? then ParseFrom(r.value, lines[1..]) else r
  }

  function Parse(lines: seq<string>): Result<seq<Patch>, Error> {
    var r := ParseFrom(Parser([], None), lines);
    if r.Ok? then Ok(r.value.patchset) else Err(r.error)
  }

  /** Iterating over a file: lines end with their newline, except perhaps the last. */
  function SplitLines(text: string): seq<string> {
    if text == "" then [] else SplitFrom("", text)
  }

  function SplitFrom(line: string, text: string): seq<string>
    decreases |text|
  {
    if text == "" then if line == "" then [] else [line]
    else if text[0] == '\n' then [line + "\n"] + SplitFrom("", text[1..])
    else SplitFrom(line + [text[0]], text[1..])
  }

  // ---------- writing ----------

  function Mark(kind: Kind): string {
    match kind case Src => "-" case Dst => "+" case Both => " "
  }

  predicate IsSrc(line: Line) {
    line.kind == Src || line.kind == Both
  }

  predicate IsDst(line: Line) {
    line.kind == Dst || line.kind == Both
  }

  function SrcLines(lines: seq<Line>): seq<Line> {
    if lines == [] then []
    else SrcLines(lines[..|lines| - 1]) + if IsSrc(lines[|lines| - 1]) then [lines[|lines| - 1]] else []
  }

  function DstLines(lines: seq<Line>): seq<Line> {
    if lines == [] then []
    else DstLines(lines[..|lines| - 1]) + if IsDst(lines[|lines| - 1]) then [lines[|lines| - 1]] else []
  }

  function HeaderLine(chunk: Chunk, src_len: nat, dst_len: nat): string {
    "@@ -" + Decimal(chunk.src_pos) + "," + Digits(src_len)
      + " +" + Decimal(chunk.dst_pos) + "," + Digits(dst_len) + " @@"
  }

  function BodyLines(lines: seq<Line>): seq<string> {
    if lines == [] then [] else [Mark(lines[0].kind) + lines[0].text] + BodyLines(lines[1..])
  }

  /** The header of a chunk as `write` prints it, with the true numbers of lines. */
  function ChunkHeader(chunk: Chunk): string {
    HeaderLine(chunk, |SrcLines(chunk.lines)|, |DstLines(chunk.lines)|)
  }

  function ChunkLines(chunk: Chunk): seq<string> {
    [ChunkHeader(chunk)] + BodyLines(chunk.lines)
  }

  function ChunksLines(chunks: seq<Chunk>): seq<string> {
    if chunks == [] then [] else ChunkLines(chunks[0]) + ChunksLines(chunks[1..])
  }

  function PatchLines(patch: Patch): seq<string> {
    ["--- " + patch.src, "+++ " + patch.dst] + ChunksLines(patch.chunks)
  }

  function PatchesLines(patches: seq<Patch>): seq<string> {
    if patches == [] then [] else PatchLines(patches[0]) + PatchesLines(patches[1..])
  }

  /** Each written line ends with a newline. */
  function Unlines(lines: seq<string>): string {
    if lines == [] then "" else lines[0] + "\n" + Unlines(lines[1..])
  }

  /** `Patch.write` for every patch of a set. */
  function Write(patches: seq<Patch>): string {
    Unlines(PatchesLines(patches))
  }

  // ---------- what can be printed and read back ----------

  predicate LineOk(line: Line) {
    && OneLine(line.text)
    && (line.kind == Src ==> !("-- " <= line.text))
    && (line.kind == Dst ==> !("++ " <= line.text))
  }

  predicate ChunkOk(chunk: Chunk) {
    chunk.src_pos >= 0 && chunk.dst_pos >= 0 && forall i :: 0 <= i < |chunk.lines| ==> LineOk(chunk.lines[i])
  }

  predicate PatchOk(patch: Patch) {
    OneLine(patch.src) && OneLine(patch.dst) && forall i :: 0 <= i < |patch.chunks| ==> ChunkOk(patch.chunks[i])
  }

  /** No line contains a newline, no position is negative, and no line reads as a file header. */
  predicate Printable(patches: seq<Patch>) {
    forall i :: 0 <= i < |patches| ==> PatchOk(patches[i])
  }
}
